/** The helpers of the NFS test base class (`nfstest/nfs_util.py`) that
    compute rather than search a trace: where a data-server I/O lands in
    the file under a striped layout, whether it went to the right data
    server, the operation of a given kind in a compound, the names of the
    bits of a bitmap, and the address and port of a universal address. */
module NfsUtil {
  import opened Base
  import opened Text
  import opened Bits

  // Python 2 integer division.

  /** `a / b` on Python 2 integers: the quotient rounded down. */
  function FloorDiv(a: int, b: int): int
    requires b != 0
  {
    if b > 0 then a / b else (-a) / (-b)
  }

  /** `a % b` on Python integers: the remainder has the sign of `b`. */
  function FloorMod(a: int, b: int): int
    requires b != 0
  {
    a - b * FloorDiv(a, b)
  }

  lemma FloorDivMod(a: int, b: int)
    requires b != 0
    ensures a == b * FloorDiv(a, b) + FloorMod(a, b)
    ensures b > 0 ==> FloorDiv(a, b) == a / b && FloorMod(a, b) == a % b && 0 <= FloorMod(a, b) < b
    ensures b < 0 ==> b < FloorMod(a, b) <= 0
  {
    if b < 0 {
      var q := (-a) / (-b);
      assert -a == q * (-b) + (-a) % (-b);
    }
  }

  // Striped file layouts.

  /** The fields of `self.layout` these helpers read. */
  datatype Layout = Layout(stripeSize: int, firstStripeIndex: int, dense: bool)

  /** The data-server index counted from the first stripe index, wrapped
      once by the number of file handles. */
  function RelIndex(dsIndex: int, first: int, nfhs: nat): int {
    var d := dsIndex - first;
    if d < 0 then d + nfhs else d
  }

  /** `get_abs_offset(offset, ds_index)` with `nfhs == len(self.dslist)`:
      the file offset of an offset on a data server.  Indexing a missing
      layout raises `TypeError`. */
  function GetAbsOffset(offset: int, dsIndex: Option<int>, layout: Option<Layout>, nfhs: nat): (r: Result<int>)
    ensures dsIndex.None? ==> r == Ok(offset)
    ensures dsIndex.Some? && layout.Some? && !layout.value.dense ==> r == Ok(offset)
    ensures r.Err? <==> dsIndex.Some? && (layout.None? || (layout.value.dense && layout.value.stripeSize == 0))
    ensures r.Err? ==> r.error == (if layout.None? then TypeError else ZeroDivisionError)
  {
    if dsIndex.None? then Ok(offset)
    else if layout.None? then Err(TypeError)
    else
      var l := layout.value;
      var rel := RelIndex(dsIndex.value, l.firstStripeIndex, nfhs);
      if !l.dense then Ok(offset)
      else if l.stripeSize == 0 then Err(ZeroDivisionError)
      else
        var n := FloorDiv(offset, l.stripeSize);
        var r := FloorMod(offset, l.stripeSize);
        Ok((n * nfhs + rel) * l.stripeSize + r)
  }

  /** `verify_stripe(offset, size, ds_index)`: the I/O starts and ends in
      the same stripe unit and that unit belongs to the data server. */
  function VerifyStripe(offset: int, size: int, dsIndex: Option<int>, layout: Option<Layout>, nfhs: nat): (r: Result<bool>)
    ensures layout.None? || dsIndex.None? ==> r == Ok(false)
    ensures r.Err? <==> layout.Some? && dsIndex.Some? && (layout.value.stripeSize == 0 || nfhs == 0)
    ensures r.Err? ==> r.error == ZeroDivisionError
  {
    if layout.None? || dsIndex.None? then Ok(false)
    else
      var su := layout.value.stripeSize;
      if su == 0 then Err(ZeroDivisionError)
      else
        var n := FloorDiv(offset, su);
        var m := FloorDiv(offset + size - 1, su);
        if nfhs == 0 then Err(ZeroDivisionError)
        else
          var idx := FloorMod(n, nfhs);
          Ok(n == m && idx == RelIndex(dsIndex.value, layout.value.firstStripeIndex, nfhs))
  }

  /** In a dense layout the offset keeps its place within the stripe unit,
      and the unit is the data server's own number of stripes further on. */
  lemma DenseOffsetPlace(offset: int, ds: int, l: Layout, nfhs: nat)
    requires l.dense && l.stripeSize > 0
    ensures var f := GetAbsOffset(offset, Some(ds), Some(l), nfhs).value;
      f % l.stripeSize == offset % l.stripeSize
      && f / l.stripeSize == (offset / l.stripeSize) * nfhs + RelIndex(ds, l.firstStripeIndex, nfhs)
  {
    var su := l.stripeSize;
    FloorDivMod(offset, su);
    var rel := RelIndex(ds, l.firstStripeIndex, nfhs);
    var k := (offset / su) * nfhs + rel;
    DivModUnique(k * su + offset % su, su, k, offset % su);
  }

  /** An I/O that `verify_stripe` accepts lies in one stripe unit, the one
      the data server owns. */
  lemma VerifyStripeMeans(offset: int, size: int, ds: int, l: Layout, nfhs: nat)
    requires l.stripeSize > 0 && nfhs > 0 && size >= 1
    ensures var su := l.stripeSize; var n := offset / su;
      VerifyStripe(offset, size, Some(ds), Some(l), nfhs) == Ok(true) <==>
        offset + size <= (n + 1) * su && n % nfhs == RelIndex(ds, l.firstStripeIndex, nfhs)
  {
    var su := l.stripeSize;
    var n := offset / su;
    FloorDivMod(offset, su);
    FloorDivMod(offset + size - 1, su);
    FloorDivMod(n, nfhs);
    var m := (offset + size - 1) / su;
    if offset + size <= (n + 1) * su {
      DivModUnique(offset + size - 1, su, n, offset + size - 1 - n * su);
    }
  }

  /** The two helpers agree: the file offset of an I/O that stays in its
      stripe unit, sent to a data server within range, is verified. */
  lemma AbsOffsetVerifies(offset: int, size: int, ds: int, l: Layout, nfhs: nat)
    requires l.dense && l.stripeSize > 0 && nfhs > 0 && size >= 1
    requires 0 <= RelIndex(ds, l.firstStripeIndex, nfhs) < nfhs
    requires offset % l.stripeSize + size <= l.stripeSize
    ensures VerifyStripe(GetAbsOffset(offset, Some(ds), Some(l), nfhs).value, size, Some(ds), Some(l), nfhs) == Ok(true)
  {
    var su := l.stripeSize;
    var rel := RelIndex(ds, l.firstStripeIndex, nfhs);
    var f := GetAbsOffset(offset, Some(ds), Some(l), nfhs).value;
    DenseOffsetPlace(offset, ds, l, nfhs);
    var k := (offset / su) * nfhs + rel;
    assert f == k * su + f % su;
    DivModUnique(k, nfhs, offset / su, rel);
    VerifyStripeMeans(f, size, ds, l, nfhs);
  }

  /** No data server index out of range is ever verified. */
  lemma VerifyStripeInRange(offset: int, size: int, ds: int, l: Layout, nfhs: nat)
    requires VerifyStripe(offset, size, Some(ds), Some(l), nfhs) == Ok(true)
    ensures 0 <= RelIndex(ds, l.firstStripeIndex, nfhs) < nfhs
  {
    FloorDivMod(FloorDiv(offset, l.stripeSize), nfhs);
  }

  /** A sparse layout keeps the offset. */
  lemma SparseKeepsOffset(offset: int, ds: Option<int>, l: Layout, nfhs: nat)
    requires !l.dense
    ensures GetAbsOffset(offset, ds, Some(l), nfhs) == Ok(offset)
  {
  }

  // Operations of a compound.

  /** An operation of an NFS compound: its number and its decoded body. */
  datatype Op<T> = Op(op: int, body: T)

  /** What `getop` reads of a packet: `NFSidx` when the packet has one,
      and the operations of its NFS layer when it has one. */
  datatype NfsPacket<T> = NfsPacket(nfsIdx: Option<nat>, nfs: Option<seq<Op<T>>>)

  /** Where `getop` starts looking: after `NFSidx`, or at the start. */
  function StartIndex<T>(p: NfsPacket<T>): nat {
    if p.nfsIdx.Some? then p.nfsIdx.value + 1 else 0
  }

  /** `getop(pkt, op)`: the first operation numbered `op` from the start
      index on, or nothing.  A packet without an NFS layer raises
      `AttributeError`. */
  method GetOp<T>(pkt: Option<NfsPacket<T>>, op: int) returns (r: Result<Option<Op<T>>>)
    ensures pkt.None? ==> r == Ok(None)
    ensures pkt.Some? && pkt.value.nfs.None? ==> r == Err(AttributeError)
    ensures pkt.Some? && pkt.value.nfs.Some? ==> r.Ok?
    ensures pkt.Some? && pkt.value.nfs.Some? ==>
      var a := pkt.value.nfs.value;
      var s := StartIndex(pkt.value);
      (r.value.None? <==> forall i :: s <= i < |a| ==> a[i].op != op)
      && (r.value.Some? ==> exists i :: s <= i < |a| && a[i] == r.value.value && a[i].op == op
                                        && forall j :: s <= j < i ==> a[j].op != op)
  {
    if pkt.None? {
      return Ok(None);
    }
    var p := pkt.value;
    var idx := StartIndex(p);
    if p.nfs.None? {
      return Err(AttributeError);
    }
    var ops := p.nfs.value;
    while idx < |ops| && ops[idx].op != op
      invariant StartIndex(p) <= idx
      invariant forall j :: StartIndex(p) <= j < idx && j < |ops| ==> ops[j].op != op
      decreases |ops| - idx
    {
      idx := idx + 1;
    }
    if idx < |ops| {
      return Ok(Some(ops[idx]));
    }
    r := Ok(None);
  }

  // Bitmap names.

  /** How many items of `blist` hold every bit of `bitmap`. */
  function Covering(bitmap: nat, blist: seq<nat>): nat {
    if blist == [] then 0
    else Covering(bitmap, blist[..|blist| - 1]) + (if And(bitmap, blist[|blist| - 1]) == bitmap then 1 else 0)
  }

  /** The names the loop of `bitmap_str` collects from `bit` down: a name
      for each visited value sharing a bit with `bitmap`, `bit` halving
      each time. */
  function BitNames(bitmap: nat, bit: nat, bmap: map<nat, string>): Result<seq<string>>
    decreases bit
  {
    if bit == 0 then Ok([])
    else if And(bitmap, bit) != 0 && bit !in bmap then Err(KeyError)
    else Prefixed(if And(bitmap, bit) != 0 then [bmap[bit]] else [], BitNames(bitmap, bit / 2, bmap))
  }

  lemma {:induction false} MaxExists(s: set<nat>)
    requires s != {}
    ensures exists m :: m in s && forall k :: k in s ==> k <= m
    decreases |s|
  {
    var x :| x in s;
    assert forall k :: k in s ==> k == x || k in s - {x};
    if s - {x} != {} {
      MaxExists(s - {x});
      var m :| m in s - {x} && forall k :: k in s - {x} ==> k <= m;
      if x > m {
        assert forall k :: k in s ==> k <= x;
      } else {
        assert forall k :: k in s ==> k <= m;
      }
    } else {
      assert forall k :: k in s ==> k == x;
    }
  }

  /** `max(keys)`. */
  ghost function MaxOf(s: set<nat>): (m: nat)
    requires s != {}
    ensures m in s && forall k :: k in s ==> k <= m
  {
    MaxExists(s);
    var m :| m in s && forall k :: k in s ==> k <= m;
    m
  }

  /** What `bitmap_str(bitmap, count, bmap, blist)` returns or raises: an
      empty `bmap` has no largest key (`ValueError`), a visited value
      without a name raises `KeyError`, and the joined names come back
      only when `count` items of `blist` hold the bitmap. */
  ghost function BitmapStrResult(bitmap: nat, count: int, bmap: map<nat, string>, blist: seq<nat>): Result<Option<string>> {
    if bmap == map[] then Err(ValueError)
    else
      var names :- BitNames(bitmap, MaxOf(bmap.Keys), bmap);
      Ok(if Covering(bitmap, blist) == count then Some(Join(names, " & ")) else None)
  }

  /** `r` with `p` in front of its names. */
  function Prefixed(p: seq<string>, r: Result<seq<string>>): Result<seq<string>> {
    match r
    case Ok(v) => Ok(p + v)
    case Err(e) => Err(e)
  }

  lemma PrefixedNothing(r: Result<seq<string>>)
    ensures Prefixed([], r) == r
  {
    if r.Ok? {
      assert [] + r.value == r.value;
    }
  }

  lemma PrefixedTwice(p: seq<string>, q: seq<string>, r: Result<seq<string>>)
    ensures Prefixed(p, Prefixed(q, r)) == Prefixed(p + q, r)
  {
    if r.Ok? {
      assert p + (q + r.value) == (p + q) + r.value;
    }
  }

  /** The largest element of a non-empty set. */
  method MaxKey(s: set<nat>) returns (m: nat)
    requires s != {}
    ensures m in s && forall k :: k in s ==> k <= m
  {
    m :| m in s;
    var rest := s - {m};
    while rest != {}
      invariant m in s && rest <= s
      invariant forall k :: k in s && k !in rest ==> k <= m
      decreases |rest|
    {
      var x :| x in rest;
      if x > m {
        m := x;
      }
      rest := rest - {x};
    }
  }

  /** `bitmap_str(bitmap, count, bmap, blist)`. */
  method BitmapStr(bitmap: nat, count: int, bmap: map<nat, string>, blist: seq<nat>) returns (r: Result<Option<string>>)
    ensures r == BitmapStrResult(bitmap, count, bmap, blist)
  {
    var cnt := 0;
    for i := 0 to |blist|
      invariant cnt == Covering(bitmap, blist[..i])
    {
      assert blist[..i + 1][..i] == blist[..i];
      if And(bitmap, blist[i]) == bitmap {
        cnt := cnt + 1;
      }
    }
    assert blist[..|blist|] == blist;
    var plist: seq<string> := [];
    if bmap == map[] {
      return Err(ValueError);
    }
    var bit := MaxKey(bmap.Keys);
    ghost var top := bit;
    assert top == MaxOf(bmap.Keys);
    PrefixedNothing(BitNames(bitmap, top, bmap));
    while bit > 0
      invariant BitNames(bitmap, top, bmap) == Prefixed(plist, BitNames(bitmap, bit, bmap))
      decreases bit
    {
      ghost var before, here := plist, [];
      if And(bitmap, bit) != 0 {
        if bit !in bmap {
          return Err(KeyError);
        }
        here := [bmap[bit]];
        plist := plist + [bmap[bit]];
      }
      assert plist == before + here;
      assert BitNames(bitmap, bit, bmap) == Prefixed(here, BitNames(bitmap, bit / 2, bmap));
      PrefixedTwice(before, here, BitNames(bitmap, bit / 2, bmap));
      bit := bit / 2;  // bit >> 1
    }
    assert plist + [] == plist;
    if cnt == count {
      return Ok(Some(Join(plist, " & ")));
    }
    r := Ok(None);
  }

  /** The powers of two from `2^k` down to `1` whose bit is set in
      `bitmap`, highest first. */
  function HighBits(bitmap: nat, k: nat): seq<nat>
    decreases k
  {
    (if Bit(bitmap, k) == 1 then [Pow2(k)] else []) + (if k == 0 then [] else HighBits(bitmap, k - 1))
  }

  /** The names of `bits` in order, `KeyError` at the first one missing. */
  function NamesOf(bits: seq<nat>, bmap: map<nat, string>): Result<seq<string>> {
    if bits == [] then Ok([])
    else if bits[0] !in bmap then Err(KeyError)
    else Prefixed([bmap[bits[0]]], NamesOf(bits[1..], bmap))
  }

  /** When the largest key is the power of two `2^k`, `bitmap_str` names
      the set bits of the bitmap from bit `k` down to bit 0, highest first,
      and raises `KeyError` when one of them has no name. */
  lemma {:induction false} BitNamesOfPowers(bitmap: nat, k: nat, bmap: map<nat, string>)
    ensures BitNames(bitmap, Pow2(k), bmap) == NamesOf(HighBits(bitmap, k), bmap)
    decreases k
  {
    var p := Pow2(k);
    var tail := if k == 0 then [] else HighBits(bitmap, k - 1);
    if k == 0 {
      assert p / 2 == 0;
    } else {
      assert p / 2 == Pow2(k - 1);
      BitNamesOfPowers(bitmap, k - 1, bmap);
    }
    assert BitNames(bitmap, p / 2, bmap) == NamesOf(tail, bmap);
    PowerStep(bitmap, k, p, tail, bmap);
  }

  /** One step of `BitNamesOfPowers`: the bit of `2^k` in front. */
  lemma PowerStep(bitmap: nat, k: nat, p: nat, tail: seq<nat>, bmap: map<nat, string>)
    requires p == Pow2(k) && tail == (if k == 0 then [] else HighBits(bitmap, k - 1))
    requires BitNames(bitmap, p / 2, bmap) == NamesOf(tail, bmap)
    ensures BitNames(bitmap, p, bmap) == NamesOf(HighBits(bitmap, k), bmap)
  {
    AndPow2Cases(bitmap, k);
    var b := Bit(bitmap, k);
    if b == 1 {
      assert HighBits(bitmap, k) == [p] + tail;
      PowerSet(bitmap, p, tail, bmap);
    } else {
      assert HighBits(bitmap, k) == [] + tail == tail;
      PowerClear(bitmap, p, tail, bmap);
    }
  }

  lemma PowerSet(bitmap: nat, p: nat, tail: seq<nat>, bmap: map<nat, string>)
    requires p >= 1 && And(bitmap, p) == p
    requires BitNames(bitmap, p / 2, bmap) == NamesOf(tail, bmap)
    ensures BitNames(bitmap, p, bmap) == NamesOf([p] + tail, bmap)
  {
    assert ([p] + tail)[0] == p && ([p] + tail)[1..] == tail;
  }

  lemma PowerClear(bitmap: nat, p: nat, tail: seq<nat>, bmap: map<nat, string>)
    requires p >= 1 && And(bitmap, p) == 0
    requires BitNames(bitmap, p / 2, bmap) == NamesOf(tail, bmap)
    ensures BitNames(bitmap, p, bmap) == NamesOf(tail, bmap)
  {
    PrefixedNothing(BitNames(bitmap, p / 2, bmap));
  }

  /** An item holds the bitmap exactly when it has every bit the bitmap
      has, and the count is the number of such items. */
  lemma {:induction false} CoveringCounts(bitmap: nat, blist: seq<nat>)
    ensures Covering(bitmap, blist) == |set i | 0 <= i < |blist| && Covers(bitmap, blist[i])|
    decreases |blist|
  {
    if blist != [] {
      var n := |blist| - 1;
      var front := blist[..n];
      CoveringCounts(bitmap, front);
      AndCovers(bitmap, blist[n]);
      CoverSetSnoc(bitmap, blist);
    }
  }

  lemma CoverSetSnoc(bitmap: nat, blist: seq<nat>)
    requires blist != []
    ensures var n := |blist| - 1;
      var s := set i | 0 <= i < n && Covers(bitmap, blist[..n][i]);
      var t := set i | 0 <= i < |blist| && Covers(bitmap, blist[i]);
      t == s + (if Covers(bitmap, blist[n]) then {n} else {}) && n !in s
  {
    var n := |blist| - 1;
    assert forall i :: 0 <= i < n ==> blist[..n][i] == blist[i];
  }

  /** Every bit set in `bitmap` is set in `item`. */
  ghost predicate Covers(bitmap: nat, item: nat) {
    forall k: nat :: Bit(bitmap, k) == 1 ==> Bit(item, k) == 1
  }

  // Universal addresses.

  /** `int(s)` in base 10, `ValueError` when `s` spells no integer. */
  function IntOf(s: string): Result<int> {
    match ParseInt(s, 10)
    case Some(n) => Ok(n)
    case None => Err(ValueError)
  }

  /** The address and port of a data server's universal address
      `h1.h2.h3.h4.p1.p2`: the first four fields joined back, and
      `(int(p1) << 8) + int(p2)`.  A missing field raises `IndexError`,
      one that is not an integer `ValueError`, in the order they are
      read. */
  function UaddrEntry(addr: string): Result<(string, int)> {
    var l := Split(addr, '.');
    var ipaddr := Join(l[..if |l| < 4 then |l| else 4], ".");
    if |l| < 5 then Err(IndexError)
    else
      var hi :- IntOf(l[4]);
      if |l| < 6 then Err(IndexError)
      else
        var lo :- IntOf(l[5]);
        Ok((ipaddr, hi * 256 + lo))
  }

  lemma DecimalHasNoDot(n: int)
    ensures '.' !in Decimal(n)
  {
    var d := DecDigits(if n < 0 then -n else n);
    DigitsHaveNoDot(d);
    if n < 0 {
      assert Decimal(n) == "-" + d;
      assert '.' !in "-";
    }
  }

  lemma DigitsHaveNoDot(d: string)
    requires AllDigits(d, 10)
    ensures '.' !in d
  {
    forall i | 0 <= i < |d| ensures d[i] != '.' {
      assert IsDigit(d[i], 10);
    }
  }

  lemma UaddrFields(addr: string, l: seq<string>, hi: int, lo: int)
    requires Split(addr, '.') == l && |l| >= 6 && IntOf(l[4]) == Ok(hi) && IntOf(l[5]) == Ok(lo)
    ensures UaddrEntry(addr) == Ok((Join(l[..4], "."), hi * 256 + lo))
  {
  }

  /** The universal address of a host and a port: the host fields, then
      the port's high and low octets in decimal, joined by dots. */
  function Uaddr(host: seq<string>, port: nat): string {
    Join(UaddrParts(host, port), ".")
  }

  function UaddrParts(host: seq<string>, port: nat): seq<string> {
    host + [Decimal(port / 256), Decimal(port % 256)]
  }

  /** The fields of a universal address built from host fields and a
      port. */
  lemma UaddrSplits(host: seq<string>, port: nat)
    requires |host| == 4 && forall i :: 0 <= i < 4 ==> '.' !in host[i]
    ensures Split(Uaddr(host, port), '.') == UaddrParts(host, port) && UaddrParts(host, port)[..4] == host
  {
    var parts := UaddrParts(host, port);
    DecimalHasNoDot(port / 256);
    DecimalHasNoDot(port % 256);
    assert forall i :: 0 <= i < |parts| ==> '.' !in parts[i];
    SplitJoin(parts, '.');
    assert parts[..4] == host;
  }

  /** A universal address built from four dot-free host fields and a port
      reads back as that host and port. */
  lemma UaddrRoundTrip(host: seq<string>, port: nat)
    requires |host| == 4 && forall i :: 0 <= i < 4 ==> '.' !in host[i]
    ensures UaddrEntry(Uaddr(host, port)) == Ok((Join(host, "."), port))
  {
    var parts := UaddrParts(host, port);
    UaddrSplits(host, port);
    ParseDecimal(port / 256);
    ParseDecimal(port % 256);
    assert IntOf(parts[4]) == Ok(port / 256) && IntOf(parts[5]) == Ok(port % 256);
    var hi, lo := port / 256, port % 256;
    UaddrFields(Uaddr(host, port), parts, hi, lo);
    assert hi * 256 + lo == port;
    var ip := Join(parts[..4], ".");
    assert ip == Join(host, ".");
    assert UaddrEntry(Uaddr(host, port)) == Ok((ip, hi * 256 + lo));
  }

  /** An address with fewer than six fields has no port. */
  lemma UaddrShort(addr: string)
    requires |Split(addr, '.')| < 6
    ensures UaddrEntry(addr).Err?
  {
  }
}
