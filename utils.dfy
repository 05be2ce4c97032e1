/** Decoding helpers shared by the protocol layers (`packet/utils.py`):
    a map of values chosen by the set bits of a bitmap, enumerations
    checked against their names, and integers and strings that print in
    hex. */
module Utils {
  import opened Base
  import opened Text
  import opened Bits
  import Xdr
  import opened Unpack

  // Bitmaps.

  /** What a decoding function of `func_map` leaves behind: its value or
      the exception it raised, and the read position after it. */
  datatype Outcome<+T> = Outcome(result: Result<T>, next: nat)

  /** A decoding function of `func_map`, reading the frame at a position. */
  type Decoder<V> = (seq<byte>, nat) -> Outcome<V>

  /** A decoding function never leaves the position past the end of the
      frame. */
  ghost predicate StaysInFrame<V>(f: Decoder<V>) {
    forall data: seq<byte>, pos: nat :: pos <= |data| ==> f(data, pos).next <= |data|
  }

  ghost predicate AllStayInFrame<V>(funcMap: map<nat, Decoder<V>>) {
    forall b :: b in funcMap ==> StaysInFrame(funcMap[b])
  }

  /** A key of the map `bitmap_dict` returns: the bit number, or its name
      when `name_map` has one. */
  datatype Key = BitNum(n: nat) | Name(name: string)

  /** `name_map.get(bitnum, bitnum)`; no `name_map` is the empty one. */
  function KeyOf(nameMap: map<nat, string>, bitnum: nat): Key {
    if bitnum in nameMap then Name(nameMap[bitnum]) else BitNum(bitnum)
  }

  lemma ShrOne(x: nat)
    ensures Shr(x, 1) == x / 2 && And(x, 1) == x % 2
  {
    assert Pow2(1) == 2;
    AndLowMask(x, 1);
  }

  /** The loop of `bitmap_dict` from bit number `bitnum` on, `bitmap`
      holding the bits not yet looked at and `acc` the entries so far. */
  function BitmapFold<V>(data: seq<byte>, pos: nat, bitmap: int, bitnum: nat,
                         funcMap: map<nat, Decoder<V>>, nameMap: map<nat, string>,
                         acc: map<Key, V>): Outcome<map<Key, V>>
    decreases if bitmap > 0 then bitmap else 0
  {
    if bitmap <= 0 then Outcome(Ok(acc), pos)
    else
      ShrOne(bitmap);
      if And(bitmap, 1) == 1 then
        if bitnum !in funcMap then Outcome(Err(BitmapInval), pos)
        else
          var d := funcMap[bitnum](data, pos);
          match d.result
          case Err(e) => Outcome(Err(e), d.next)
          case Ok(v) =>
            BitmapFold(data, d.next, Shr(bitmap, 1), bitnum + 1, funcMap, nameMap, acc[KeyOf(nameMap, bitnum) := v])
      else BitmapFold(data, pos, Shr(bitmap, 1), bitnum + 1, funcMap, nameMap, acc)
  }

  /** `bitmap_dict(unpack, bitmap, func_map, name_map)`. */
  method BitmapDict<V>(u: Cursor, bitmap: int, funcMap: map<nat, Decoder<V>>, nameMap: map<nat, string>)
    returns (r: Result<map<Key, V>>)
    requires u.Valid() && AllStayInFrame(funcMap)
    modifies u
    ensures u.Valid() && u.data == old(u.data)
    ensures Outcome(r, u.pos) == BitmapFold(u.data, old(u.pos), bitmap, 0, funcMap, nameMap, map[])
  {
    var ret: map<Key, V> := map[];
    var bits := bitmap;
    var bitnum := 0;
    while bits > 0
      invariant u.Valid() && u.data == old(u.data)
      invariant BitmapFold(u.data, old(u.pos), bitmap, 0, funcMap, nameMap, map[])
        == BitmapFold(u.data, u.pos, bits, bitnum, funcMap, nameMap, ret)
      decreases bits
    {
      ShrOne(bits);
      if And(bits, 1) == 1 {
        if bitnum !in funcMap {
          return Err(BitmapInval);
        }
        var d := funcMap[bitnum](u.data, u.pos);
        u.pos := d.next;
        if d.result.Err? {
          return Err(d.result.error);
        }
        ret := ret[KeyOf(nameMap, bitnum) := d.result.value];
      }
      bits := Shr(bits, 1);
      bitnum := bitnum + 1;
    }
    r := Ok(ret);
  }

  /** The set bits of `bitmap`, lowest first, numbered from `bitnum`. */
  function SetBitsFrom(bitmap: int, bitnum: nat): seq<nat>
    decreases if bitmap > 0 then bitmap else 0
  {
    if bitmap <= 0 then []
    else (if bitmap % 2 == 1 then [bitnum] else []) + SetBitsFrom(bitmap / 2, bitnum + 1)
  }

  /** The list holds exactly the bit numbers whose bit is set. */
  lemma {:induction false} SetBitsMembers(bitmap: nat, bitnum: nat, b: nat)
    ensures b in SetBitsFrom(bitmap, bitnum) <==> b >= bitnum && Bit(bitmap, b - bitnum) == 1
    decreases bitmap
  {
    if bitmap > 0 {
      SetBitsMembers(bitmap / 2, bitnum + 1, b);
      if b > bitnum {
        ShrHalf(bitmap, b - bitnum - 1);
      }
      assert Shr(bitmap, 0) == bitmap;
    } else {
      ShrZero(b - bitnum);
    }
  }

  lemma ShrZero(k: int)
    ensures k >= 0 ==> Bit(0, k) == 0
  {
  }

  /** Lowest bit first: the list is strictly increasing and starts at
      `bitnum` or later. */
  lemma {:induction false} SetBitsAscending(bitmap: int, bitnum: nat)
    ensures forall i :: 0 <= i < |SetBitsFrom(bitmap, bitnum)| ==> SetBitsFrom(bitmap, bitnum)[i] >= bitnum
    ensures forall i, j :: 0 <= i < j < |SetBitsFrom(bitmap, bitnum)| ==>
      SetBitsFrom(bitmap, bitnum)[i] < SetBitsFrom(bitmap, bitnum)[j]
    decreases if bitmap > 0 then bitmap else 0
  {
    if bitmap > 0 {
      SetBitsAscending(bitmap / 2, bitnum + 1);
    }
  }

  /** The reference reading: one decoding function after the other for the
      listed bits, in list order, each from where the previous one left
      off. */
  function DecodeBits<V>(data: seq<byte>, pos: nat, bits: seq<nat>,
                         funcMap: map<nat, Decoder<V>>, nameMap: map<nat, string>,
                         acc: map<Key, V>): Outcome<map<Key, V>>
    decreases |bits|
  {
    if bits == [] then Outcome(Ok(acc), pos)
    else if bits[0] !in funcMap then Outcome(Err(BitmapInval), pos)
    else
      var d := funcMap[bits[0]](data, pos);
      match d.result
      case Err(e) => Outcome(Err(e), d.next)
      case Ok(v) => DecodeBits(data, d.next, bits[1..], funcMap, nameMap, acc[KeyOf(nameMap, bits[0]) := v])
  }

  /** `bitmap_dict` decodes the values of the set bits in ascending bit
      order, lowest bit first. */
  lemma {:induction false} BitmapInBitOrder<V>(data: seq<byte>, pos: nat, bitmap: int, bitnum: nat,
                                               funcMap: map<nat, Decoder<V>>, nameMap: map<nat, string>,
                                               acc: map<Key, V>)
    ensures BitmapFold(data, pos, bitmap, bitnum, funcMap, nameMap, acc)
      == DecodeBits(data, pos, SetBitsFrom(bitmap, bitnum), funcMap, nameMap, acc)
    decreases if bitmap > 0 then bitmap else 0
  {
    if bitmap > 0 {
      ShrOne(bitmap);
      var rest := SetBitsFrom(bitmap / 2, bitnum + 1);
      if bitmap % 2 == 1 {
        assert SetBitsFrom(bitmap, bitnum) == [bitnum] + rest;
        assert ([bitnum] + rest)[1..] == rest;
        if bitnum in funcMap {
          var d := funcMap[bitnum](data, pos);
          if d.result.Ok? {
            BitmapInBitOrder(data, d.next, bitmap / 2, bitnum + 1, funcMap, nameMap,
                             acc[KeyOf(nameMap, bitnum) := d.result.value]);
          }
        }
      } else {
        assert SetBitsFrom(bitmap, bitnum) == rest;
        BitmapInBitOrder(data, pos, bitmap / 2, bitnum + 1, funcMap, nameMap, acc);
      }
    }
  }

  /** On success every listed bit had a decoding function and the result
      holds one key for each of them: the bit number, or its name. */
  lemma {:induction false} DecodeBitsKeys<V>(data: seq<byte>, pos: nat, bits: seq<nat>,
                                             funcMap: map<nat, Decoder<V>>, nameMap: map<nat, string>,
                                             acc: map<Key, V>)
    requires DecodeBits(data, pos, bits, funcMap, nameMap, acc).result.Ok?
    ensures forall b :: b in bits ==> b in funcMap
    ensures DecodeBits(data, pos, bits, funcMap, nameMap, acc).result.value.Keys
      == acc.Keys + set b | b in bits :: KeyOf(nameMap, b)
    decreases |bits|
  {
    if bits != [] {
      var d := funcMap[bits[0]](data, pos);
      var acc' := acc[KeyOf(nameMap, bits[0]) := d.result.value];
      DecodeBitsKeys(data, d.next, bits[1..], funcMap, nameMap, acc');
      assert forall b :: b in bits ==> b == bits[0] || b in bits[1..];
      assert (set b | b in bits :: KeyOf(nameMap, b))
        == {KeyOf(nameMap, bits[0])} + set b | b in bits[1..] :: KeyOf(nameMap, b);
    }
  }

  /** The keys of a successful `bitmap_dict` are exactly the numbers of the
      set bits (or their names), and every set bit had a decoding
      function. */
  lemma BitmapKeys<V>(data: seq<byte>, pos: nat, bitmap: nat,
                      funcMap: map<nat, Decoder<V>>, nameMap: map<nat, string>)
    requires BitmapFold(data, pos, bitmap, 0, funcMap, nameMap, map[]).result.Ok?
    ensures forall b :: Bit(bitmap, b) == 1 ==> b in funcMap
    ensures BitmapFold(data, pos, bitmap, 0, funcMap, nameMap, map[]).result.value.Keys
      == set b | b in SetBitsFrom(bitmap, 0) :: KeyOf(nameMap, b)
    ensures forall b: nat :: b in SetBitsFrom(bitmap, 0) <==> Bit(bitmap, b) == 1
  {
    BitmapInBitOrder(data, pos, bitmap, 0, funcMap, nameMap, map[]);
    DecodeBitsKeys(data, pos, SetBitsFrom(bitmap, 0), funcMap, nameMap, map[]);
    forall b: nat ensures b in SetBitsFrom(bitmap, 0) <==> Bit(bitmap, b) == 1 {
      SetBitsMembers(bitmap, 0, b);
    }
  }

  /** A set bit without a decoding function makes `bitmap_dict` raise
      `BitmapInval` once the lower bits have been decoded. */
  lemma {:induction false} DecodeBitsMissing<V>(data: seq<byte>, pos: nat, bits: seq<nat>,
                                                funcMap: map<nat, Decoder<V>>, nameMap: map<nat, string>,
                                                acc: map<Key, V>, i: nat)
    requires i < |bits| && bits[i] !in funcMap
    ensures DecodeBits(data, pos, bits, funcMap, nameMap, acc).result.Err?
    ensures (forall j :: 0 <= j < i ==> bits[j] in funcMap && (forall d, p :: funcMap[bits[j]](d, p).result.Ok?))
      ==> DecodeBits(data, pos, bits, funcMap, nameMap, acc).result == Err(BitmapInval)
    decreases |bits|
  {
    if i > 0 && bits[0] in funcMap {
      var d := funcMap[bits[0]](data, pos);
      if d.result.Ok? {
        DecodeBitsMissing(data, d.next, bits[1..], funcMap, nameMap, acc[KeyOf(nameMap, bits[0]) := d.result.value], i - 1);
      }
    }
  }

  /** A bitmap of zero decodes nothing and consumes nothing. */
  lemma BitmapZero<V>(data: seq<byte>, pos: nat, funcMap: map<nat, Decoder<V>>, nameMap: map<nat, string>)
    ensures BitmapFold(data, pos, 0, 0, funcMap, nameMap, map[]) == Outcome(Ok(map[]), pos)
  {
  }

  // Enumerations.

  /** `Enum(value)` for an integer `value`: with `ENUM_CHECK` on, a value
      that has no name raises `EnumInval`. */
  function EnumValue(value: int, enumdict: map<int, string>, check: bool): (r: Result<int>)
    ensures r.Ok? ==> r.value == value
    ensures r.Err? <==> check && value !in enumdict
    ensures r.Err? ==> r.error == EnumInval
  {
    if check && value !in enumdict then Err(EnumInval) else Ok(value)
  }

  /** `Enum(unpack)`: a signed 32-bit integer read from the cursor, then
      checked as above. */
  method EnumRead(u: Cursor, enumdict: map<int, string>, check: bool) returns (r: Result<int>)
    requires u.Valid()
    modifies u
    ensures u.Valid() && u.data == old(u.data)
    ensures var d := Xdr.ReadI32(u.data, old(u.pos));
      u.pos == d.next && r == (if d.result.None? then Err(Truncated) else EnumValue(d.result.value, enumdict, check))
  {
    var v := u.UnpackInt();
    if v.None? {
      return Err(Truncated);
    }
    r := EnumValue(v.value, enumdict, check);
  }

  /** `s[k:]` for `k >= 0`. */
  function SliceFrom(s: string, k: nat): (r: string)
    ensures |r| == (if k <= |s| then |s| - k else 0)
    ensures r == s[|s| - |r|..]
  {
    if k <= |s| then s[k..] else []
  }

  /** `Enum.__str__`: the value's name without its first `offset`
      characters, or the decimal integer when the value has no name. */
  function EnumStr(value: int, enumdict: map<int, string>, offset: nat): string {
    if value in enumdict then SliceFrom(enumdict[value], offset) else Decimal(value)
  }

  /** A named value prints as the tail of its name; an unnamed one prints
      as a decimal that reads back as the value. */
  lemma EnumStrReadsBack(value: int, enumdict: map<int, string>, offset: nat)
    ensures value in enumdict ==> var n := enumdict[value];
      EnumStr(value, enumdict, offset) == n[|n| - |EnumStr(value, enumdict, offset)|..]
      && |EnumStr(value, enumdict, offset)| == (if offset <= |n| then |n| - offset else 0)
    ensures value !in enumdict ==> ParseInt(EnumStr(value, enumdict, offset), 10) == Some(value)
  {
    if value !in enumdict {
      ParseDecimal(value);
    }
  }

  // Values printed in hex.

  /** `"{0:#0{width}x}".format(n)`: the sign, `0x`, then the digits,
      zero-filled so that the three together take `width` characters. */
  function FormatHashX(n: int, width: nat): string {
    if n < 0 then "-0x" + ZeroFill(HexDigits(-n), if width >= 3 then width - 3 else 0)
    else "0x" + ZeroFill(HexDigits(n), if width >= 2 then width - 2 else 0)
  }

  /** `IntHex.__str__`. */
  function IntHexStr(n: int): string {
    FormatHashX(n, 10)
  }

  /** `LongHex.__str__`. */
  function LongHexStr(n: int): string {
    FormatHashX(n, 18)
  }

  /** `StrHex.__str__`. */
  function StrHexStr(b: seq<byte>): string {
    "0x" + HexOfBytes(b)
  }

  /** Whatever the width, the hex rendering reads back as the number. */
  lemma FormatHashXReadsBack(n: int, width: nat)
    ensures ParseInt(FormatHashX(n, width), 16) == Some(n)
  {
    if n < 0 {
      NegativeReadsBack(n, width);
    } else {
      NonNegativeReadsBack(n, width);
    }
  }

  lemma NegativeReadsBack(n: int, width: nat)
    requires n < 0
    ensures ParseInt(FormatHashX(n, width), 16) == Some(n)
  {
    var m := -n;
    var z := ZeroFill(HexDigits(m), if width >= 3 then width - 3 else 0);
    HexDigitsSpec(m);
    ZeroFillAny(HexDigits(m), if width >= 3 then width - 3 else 0);
    assert FormatHashX(n, width) == "-0x" + z;
    assert DigitsValue(z, 16) == m;
    ParseHexMinus(z);
    assert ParseInt("-0x" + z, 16) == Some(-m);
  }

  lemma NonNegativeReadsBack(n: int, width: nat)
    requires n >= 0
    ensures ParseInt(FormatHashX(n, width), 16) == Some(n)
  {
    var z := ZeroFill(HexDigits(n), if width >= 2 then width - 2 else 0);
    HexDigitsSpec(n);
    ZeroFillAny(HexDigits(n), if width >= 2 then width - 2 else 0);
    assert FormatHashX(n, width) == "0x" + z;
    assert DigitsValue(z, 16) == n;
    ParseHexPlain(z);
    assert ParseInt("0x" + z, 16) == Some(n);
  }

  /** An unsigned value below `16^k` takes `"0x"` and exactly `k` lower-case
      digits. */
  lemma FormatHashXWidth(n: nat, k: nat)
    requires 1 <= k && n < PowB(16, k)
    ensures var r := FormatHashX(n, k + 2);
      |r| == k + 2 && r[..2] == "0x" && AllLowerHex(r[2..])
  {
    HexDigitsSpec(n);
    HexDigitsLength(n, k);
    ZeroFillAny(HexDigits(n), k);
    var r := FormatHashX(n, k + 2);
    assert r[2..] == ZeroFill(HexDigits(n), k);
  }

  /** A 32-bit value prints as `0x` and eight digits, a 64-bit one as `0x`
      and sixteen, and both read back as the value. */
  lemma IntHexLongHex(n: nat)
    ensures n < 0x1_0000_0000 ==> |IntHexStr(n)| == 10 && IntHexStr(n)[..2] == "0x" && AllLowerHex(IntHexStr(n)[2..])
    ensures n < 0x1_0000_0000_0000_0000 ==>
      |LongHexStr(n)| == 18 && LongHexStr(n)[..2] == "0x" && AllLowerHex(LongHexStr(n)[2..])
    ensures ParseInt(IntHexStr(n), 16) == Some(n) && ParseInt(LongHexStr(n), 16) == Some(n)
  {
    PowB16Twice(4);
    PowB16Twice(8);
    assert Xdr.Pow256(4) == 0x1_0000_0000;
    assert Xdr.Pow256(8) == 0x1_0000_0000_0000_0000 by {
      assert Xdr.Pow256(8) == Xdr.Pow256(4) * 256 * 256 * 256 * 256;
    }
    if n < 0x1_0000_0000 {
      FormatHashXWidth(n, 8);
    }
    if n < 0x1_0000_0000_0000_0000 {
      FormatHashXWidth(n, 16);
    }
    FormatHashXReadsBack(n, 10);
    FormatHashXReadsBack(n, 18);
  }

  /** A byte string prints as `0x` and two digits per byte; the digits
      read back as the bytes. */
  lemma StrHexReadsBack(b: seq<byte>)
    requires b != []
    ensures |StrHexStr(b)| == 2 + 2 * |b|
    ensures ParseInt(StrHexStr(b), 16) == Some(Xdr.BigEndian(b))
    ensures Xdr.ToBigEndian(Xdr.BigEndian(b), |b|) == b
  {
    HexOfBytesDigits(b);
    ParseHexPrefixed(HexOfBytes(b));
    Xdr.ToBigEndianOfBigEndian(b);
  }
}
