/** The IPv6 address canonicaliser (`IPv6Addr`): an address given as an
    integer, as a string of hex digits (optionally with `0x`, an `L`
    suffix, upper-case digits) or in colon notation is reduced to one
    string, against which other spellings are compared.

    The canonical form is the code's own, not that of RFC 5952: only the
    leftmost run of zero groups that follows a nonzero group becomes the
    empty field of a `::`, and every other zero group is dropped. */
module Ipv6Addr {
  import opened Base
  import opened Text
  import Bits

  const MAX_ADDR: nat := 0xffff_ffff_ffff_ffff_ffff_ffff_ffff_ffff

  /** What `_convert` is handed: `None`, an integer, a plain `str`, or an
      `IPv6Addr` object (a subclass of `str`, so not `type(ip) == str`). */
  datatype Arg = NoAddress | IntAddress(n: int) | StrAddress(s: string) | AddrObject(s: string)

  const LSUFFIX: set<char> := {'L', 'l'}

  /** `ip.rstrip('Ll').replace('0x', '')` followed by `lower()`. */
  function Normalize(s: string): string {
    Lower(Remove0x(RStrip(s, LSUFFIX)))
  }

  // Colon notation: the first loop of `_convert`.

  /** The fields expanded so far and the number of groups still owed to
      the first empty field (`olen`). */
  datatype Expansion = Expansion(parts: seq<string>, olen: int)

  function ExpandField(e: Expansion, field: string): Result<Expansion> {
    if e.olen != 0 && field == [] then Ok(Expansion(e.parts + [Repeat("0000", e.olen + 1)], 0))
    else
      match ParseInt(field, 16)
      case None => Err(ValueError)
      case Some(v) => Ok(Expansion(e.parts + [Format04x(v)], e.olen))
  }

  /** The expansion after the first `k` fields of `fields`. */
  function ExpandFold(fields: seq<string>, k: nat): Result<Expansion>
    requires k <= |fields|
  {
    if k == 0 then Ok(Expansion([], 8 - |fields|))
    else
      match ExpandFold(fields, k - 1)
      case Err(e) => Err(e)
      case Ok(e) => ExpandField(e, fields[k - 1])
  }

  function Expand(t: string): Result<string> {
    var fields := Split(t, ':');
    var e :- ExpandFold(fields, |fields|);
    Ok(Join(e.parts, ""))
  }

  // Hex digits to groups: the second loop of `_convert`.

  /** The groups emitted so far and whether a run of zeros may still be
      collapsed. */
  datatype Collapse = Collapse(parts: seq<string>, collapse: bool)

  function CollapseGroup(c: Collapse, n: int): Collapse {
    var expr := c.collapse && n == 0 && |c.parts| > 0 && c.parts[|c.parts| - 1] != [];
    if n != 0 || expr then
      Collapse(c.parts + [if n != 0 then FormatX(n) else []], if expr then false else c.collapse)
    else c
  }

  /** The `j`-th group of four characters (what `zip(t, t, t, t)` yields;
      a shorter tail is dropped). */
  function Quad(u: string, j: nat): string
    requires 4 * j + 4 <= |u|
  {
    u[4 * j..4 * j + 4]
  }

  lemma QuadBound(n: nat, k: nat)
    requires k < n / 4
    ensures 4 * k + 4 <= n
  {
  }

  /** `_convert`'s result for the digit string `u`. */
  function Grouped(u: string): Result<string> {
    var c :- CollapseFold(u, |u| / 4);
    Ok(Join(c.parts, ":"))
  }

  /** `int(a+b+c+d, 16)` for each group of four characters of `u`. */
  function GroupParses(u: string): (gs: seq<Option<int>>)
    ensures |gs| == |u| / 4
  {
    seq(|u| / 4, j requires 0 <= j < |u| / 4 => QuadParse(u, j))
  }

  function QuadParse(u: string, j: nat): Option<int>
    requires j < |u| / 4
  {
    QuadBound(|u|, j);
    ParseInt(Quad(u, j), 16)
  }

  /** The collapse after the first `k` groups of `u`. */
  function CollapseFold(u: string, k: nat): Result<Collapse>
    requires k <= |u| / 4
  {
    FoldGroups(GroupParses(u), k)
  }

  /** The collapse after the first `k` group values `gs`; a group that is
      not hex raises `ValueError`. */
  function FoldGroups(gs: seq<Option<int>>, k: nat): Result<Collapse>
    requires k <= |gs|
  {
    if k == 0 then Ok(Collapse([], true))
    else
      match FoldGroups(gs, k - 1)
      case Err(e) => Err(e)
      case Ok(c) =>
        match gs[k - 1]
        case None => Err(ValueError)
        case Some(n) => Ok(CollapseGroup(c, n))
  }

  /** `_convert` of a string. */
  function CanonicalStr(s: string): Result<string> {
    CanonicalOf(Normalize(s))
  }

  /** `_convert` once the string is normalised. */
  function CanonicalOf(t: string): Result<string> {
    var u :- if ':' in t then Expand(t) else Ok(t);
    var v := ParseInt(u, 16);
    if v.None? || v.value > MAX_ADDR then Err(ValueError)
    else Grouped(u)
  }

  /** `_convert`: `None` stays `None`; an integer goes through `hex()`;
      `hex()` of an `IPv6Addr` object raises `TypeError`. */
  function Canonical(ip: Arg): Result<Option<string>> {
    match ip
    case NoAddress => Ok(None)
    case IntAddress(n) => var r :- CanonicalStr(PyHex(n)); Ok(Some(r))
    case StrAddress(s) => var r :- CanonicalStr(s); Ok(Some(r))
    case AddrObject(_) => Err(TypeError)
  }

  lemma {:induction false} ExpandErrSticky(fields: seq<string>, i: nat, k: nat)
    requires i <= k <= |fields| && ExpandFold(fields, i).Err?
    ensures ExpandFold(fields, k) == ExpandFold(fields, i)
    decreases k
  {
    if k > i {
      ExpandErrSticky(fields, i, k - 1);
    }
  }

  lemma {:induction false} FoldErrSticky(gs: seq<Option<int>>, i: nat, k: nat)
    requires i <= k <= |gs| && FoldGroups(gs, i).Err?
    ensures FoldGroups(gs, k) == FoldGroups(gs, i)
    decreases k
  {
    if k > i {
      FoldErrSticky(gs, i, k - 1);
    }
  }

  /** `_convert` on `ip`, with its two loops. */
  method Convert(ip: Arg) returns (r: Result<Option<string>>)
    ensures r == Canonical(ip)
  {
    var s: string;
    match ip {
      case NoAddress => return Ok(None);
      case AddrObject(_) => return Err(TypeError);
      case IntAddress(n) => s := PyHex(n);
      case StrAddress(x) => s := x;
    }
    var t := Normalize(s);
    var u := t;
    if ':' in t {
      var e := ExpandColons(t);
      if e.Err? {
        return Err(e.error);
      }
      u := e.value;
    }
    var v := ParseInt(u, 16);
    if v.None? || v.value > MAX_ADDR {
      return Err(ValueError);
    }
    var g := GroupAndCollapse(u);
    if g.Err? {
      return Err(g.error);
    }
    r := Ok(Some(g.value));
  }

  /** The first loop: fields of the colon notation to four hex digits each. */
  method ExpandColons(t: string) returns (r: Result<string>)
    ensures r == Expand(t)
  {
    var fields := Split(t, ':');
    var olen := 8 - |fields|;
    var olist: seq<string> := [];
    var i := 0;
    while i < |fields|
      invariant 0 <= i <= |fields|
      invariant ExpandFold(fields, i) == Ok(Expansion(olist, olen))
    {
      var e := ExpandItem(olist, olen, fields[i]);
      ExpandFoldNext(fields, i, olist, olen);
      if e.Err? {
        ExpandFails(t, fields, i + 1);
        return Err(e.error);
      }
      olist, olen := e.value.parts, e.value.olen;
      i := i + 1;
    }
    ExpandOf(t, fields, olist, olen);
    r := Ok(Join(olist, ""));
  }

  /** One pass of the first loop's body: the first empty field becomes the
      `0000` groups still owed, any other field is zero-filled to four
      digits, and a field that is not hex raises `ValueError`. */
  method ExpandItem(olist: seq<string>, olen: int, field: string) returns (r: Result<Expansion>)
    ensures r == ExpandField(Expansion(olist, olen), field)
  {
    var item := field;
    var expr := olen;
    if expr != 0 && item == [] {
      item := Repeat("0000", expr + 1);
      expr := 0;
    } else {
      var v := ParseInt(item, 16);
      if v.None? {
        return Err(ValueError);
      }
      item := Format04x(v.value);
    }
    r := Ok(Expansion(olist + [item], expr));
  }

  /** The second loop: groups of four hex digits to the colon form. */
  method GroupAndCollapse(u: string) returns (r: Result<string>)
    ensures r == Grouped(u)
  {
    var olist: seq<string> := [];
    var collapse := true;
    var k := 0;
    assert CollapseFold(u, 0) == Ok(Collapse([], true));
    while k < |u| / 4
      invariant 0 <= k <= |u| / 4
      invariant CollapseFold(u, k) == Ok(Collapse(olist, collapse))
    {
      QuadBound(|u|, k);
      var n := ParseInt(Quad(u, k), 16);
      if n.None? {
        GroupedFails(u, k);
        return Err(ValueError);
      }
      CollapseFoldStep(u, k, Collapse(olist, collapse), n.value);
      olist, collapse := AppendGroup(olist, collapse, n.value);
      k := k + 1;
    }
    GroupedDone(u, Collapse(olist, collapse));
    r := Ok(Join(olist, ":"));
  }

  /** One pass of the second loop's body: a nonzero group is kept in
      `%x`, and the first zero group after a nonzero one becomes an empty
      field. */
  method AppendGroup(olist0: seq<string>, collapse0: bool, n: int) returns (olist: seq<string>, collapse: bool)
    ensures Collapse(olist, collapse) == CollapseGroup(Collapse(olist0, collapse0), n)
  {
    olist, collapse := olist0, collapse0;
    var expr := collapse && n == 0 && |olist| > 0 && olist[|olist| - 1] != [];
    if n != 0 || expr {
      olist := olist + [if n != 0 then FormatX(n) else []];
      if expr {
        collapse := false;
      }
    }
  }

  lemma GroupedFails(u: string, k: nat)
    requires k < |u| / 4 && CollapseFold(u, k).Ok? && ParseInt(Quad(u, k), 16).None?
    ensures Grouped(u) == Err(ValueError)
  {
    var gs := GroupParses(u);
    assert gs[k] == QuadParse(u, k);
    FoldErrSticky(gs, k + 1, |u| / 4);
  }

  lemma GroupedDone(u: string, c: Collapse)
    requires CollapseFold(u, |u| / 4) == Ok(c)
    ensures Grouped(u) == Ok(Join(c.parts, ":"))
  {
  }

  lemma CollapseFoldStep(u: string, k: nat, c: Collapse, n: int)
    requires k < |u| / 4 && CollapseFold(u, k) == Ok(c)
    requires ParseInt(Quad(u, k), 16) == Some(n)
    ensures CollapseFold(u, k + 1) == Ok(CollapseGroup(c, n))
  {
    var gs := GroupParses(u);
    assert gs[k] == QuadParse(u, k);
  }

  /** `__eq__`: the address's string against the canonical form of
      `other`; whatever `_convert` raises, the comparison raises. */
  function Eq(self: string, other: Arg): (r: Result<bool>)
    ensures r.Err? <==> Canonical(other).Err?
    ensures r == Ok(true) <==> Canonical(other) == Ok(Some(self))
    ensures other.NoAddress? ==> r == Ok(false)
  {
    var c :- Canonical(other);
    Ok(c == Some(self))
  }

  /** `__ne__`: the negation of `__eq__`, raising when it raises. */
  function Ne(self: string, other: Arg): (r: Result<bool>)
    ensures r.Err? <==> Eq(self, other).Err?
    ensures r.Ok? ==> r.value == !Eq(self, other).value
  {
    var e :- Eq(self, other);
    Ok(!e)
  }

  // Spellings that canonicalise alike.

  /** `hex(n)` and the bare digits of `n` normalise to the digits. */
  lemma NormalizeHexDigits(n: nat)
    ensures Normalize(PyHex(n)) == HexDigits(n) && Normalize(HexDigits(n)) == HexDigits(n)
  {
    var h := HexDigits(n);
    HexDigitsSpec(n);
    StripHex(n);
    LowerHexIsLower(h);
    Remove0xPrefix(h);
    Remove0xNoX(h);
  }

  /** No `L` to strip from the digits, only the one `hex()` may add. */
  lemma StripHex(n: nat)
    ensures RStrip(PyHex(n), LSUFFIX) == "0x" + HexDigits(n)
    ensures RStrip(HexDigits(n), LSUFFIX) == HexDigits(n)
  {
    var h := HexDigits(n);
    HexDigitsSpec(n);
    var c := h[|h| - 1];
    assert IsLowerHex(c);
    var b := "0x" + h;
    assert b[|b| - 1] == c;
    RStripKeeps(b, LSUFFIX);
    RStripKeeps(h, LSUFFIX);
    RStripDrops(b, 'L', LSUFFIX);
    assert b + "L" == b + ['L'];
  }

  /** An integer address compares like the string of its hex digits. */
  lemma IntSpelling(n: nat)
    ensures Canonical(IntAddress(n)) == Canonical(StrAddress(HexDigits(n)))
  {
    NormalizeHexDigits(n);
  }

  /** Integers beyond 128 bits raise `ValueError`. */
  lemma IntTooLarge(n: int)
    requires n > MAX_ADDR
    ensures Canonical(IntAddress(n)) == Err(ValueError)
  {
    var h := HexDigits(n);
    HexDigitsSpec(n);
    IntSpelling(n);
    NormalizeHexDigits(n);
    LowerHexIsLower(h);
    ParseHexDigits(n);
    CanonicalOfTooLarge(h);
  }

  lemma CanonicalOfTooLarge(u: string)
    requires ':' !in u
    requires var v := ParseInt(u, 16); v.Some? && v.value > MAX_ADDR
    ensures CanonicalOf(u) == Err(ValueError)
  {
  }

  /** A leading `0x` makes no difference. */
  lemma ZeroXSpelling(s: string)
    ensures Canonical(StrAddress("0x" + s)) == Canonical(StrAddress(s))
  {
    ZeroXNormalize(s);
  }

  lemma ZeroXNormalize(s: string)
    ensures Normalize("0x" + s) == Normalize(s)
  {
    RStripAppend("0x", s, LSUFFIX);
    var t := RStrip(s, LSUFFIX);
    if t == [] {
      assert RStrip("0x", LSUFFIX) == "0x";
      Remove0xPrefix([]);
      assert "0x" + [] == "0x";
    } else {
      Remove0xPrefix(t);
    }
  }

  /** Upper-case hex digits compare like lower-case ones (provided no `x`
      is in play: `replace('0x', '')` runs before `lower()`). */
  lemma UpperSpelling(s: string)
    requires 'x' !in s && 'X' !in s
    ensures Canonical(StrAddress(Upper(s))) == Canonical(StrAddress(s))
  {
    assert forall c :: c in LSUFFIX <==> UpperChar(c) in LSUFFIX;
    RStripUpper(s, LSUFFIX);
    var t := RStrip(s, LSUFFIX);
    assert 'x' !in t by {
      assert t == s[..|t|];
      assert forall i :: 0 <= i < |t| ==> t[i] == s[i];
    }
    UpperNoX(t);
    Remove0xNoX(t);
    Remove0xNoX(Upper(t));
    LowerUpper(t);
    assert Normalize(Upper(s)) == Normalize(s);
  }

  /** The spellings of an address listed in the class's documentation: an
      integer, its digits, with `0x`, in upper case, or both, all compare
      alike against any address. */
  lemma DigitSpellings(self: string, n: nat)
    ensures var h := HexDigits(n);
      && Eq(self, IntAddress(n)) == Eq(self, StrAddress(h))
      && Eq(self, StrAddress("0x" + h)) == Eq(self, StrAddress(h))
      && Eq(self, StrAddress(Upper(h))) == Eq(self, StrAddress(h))
      && Eq(self, StrAddress("0x" + Upper(h))) == Eq(self, StrAddress(h))
  {
    var h := HexDigits(n);
    HexDigitsSpec(n);
    LowerHexIsLower(h);
    IntSpelling(n);
    ZeroXSpelling(h);
    UpperSpelling(h);
    ZeroXSpelling(Upper(h));
  }

  /** Lower-case hex digits and colons. */
  predicate ColonHex(s: string) {
    forall i :: 0 <= i < |s| ==> IsLowerHex(s[i]) || s[i] == ':'
  }

  lemma NormalizeColonHex(s: string)
    requires s != [] && ColonHex(s)
    ensures Normalize(s) == s
  {
    assert s[|s| - 1] !in LSUFFIX;
    RStripKeeps(s, LSUFFIX);
    assert 'x' !in s by {
      assert forall i :: 0 <= i < |s| ==> s[i] != 'x';
    }
    Remove0xNoX(s);
    LowerNoUpper(s);
  }

  lemma {:induction false} JoinColonHex(fs: seq<string>)
    requires forall i :: 0 <= i < |fs| ==> AllLowerHex(fs[i])
    ensures ColonHex(Join(fs, ":"))
    ensures |fs| >= 2 ==> ':' in Join(fs, ":")
    decreases |fs|
  {
    if |fs| == 1 {
      assert Join(fs, ":") == fs[0];
    } else if |fs| > 1 {
      var a, r := fs[0], Join(fs[1..], ":");
      assert forall i :: 0 <= i < |fs[1..]| ==> fs[1..][i] == fs[i + 1];
      JoinColonHex(fs[1..]);
      var j := a + ":" + r;
      assert Join(fs, ":") == j;
      assert j[|a|] == ':';
      forall i | 0 <= i < |j| ensures IsLowerHex(j[i]) || j[i] == ':' {
        if i > |a| {
          assert j[i] == r[i - |a| - 1];
        }
      }
    }
  }

  lemma {:induction false} JoinLowerHex(fs: seq<string>)
    requires forall i :: 0 <= i < |fs| ==> AllLowerHex(fs[i])
    ensures AllLowerHex(Join(fs, ""))
    ensures fs != [] ==> |Join(fs, "")| >= |fs[0]|
    decreases |fs|
  {
    if |fs| > 1 {
      var a, r := fs[0], Join(fs[1..], "");
      assert forall i :: 0 <= i < |fs[1..]| ==> fs[1..][i] == fs[i + 1];
      JoinLowerHex(fs[1..]);
      var j := a + "" + r;
      assert Join(fs, "") == j;
      forall i | 0 <= i < |j| ensures IsLowerHex(j[i]) {
        if i >= |a| {
          assert j[i] == r[i - |a|];
        }
      }
    }
  }

  /** Each group zero-filled to four lower-case digits. */
  lemma PaddedGroups(fs: seq<string>)
    requires AllGroups(fs)
    ensures forall i :: 0 <= i < |fs| ==> |Padded(fs)[i]| == 4 && AllLowerHex(Padded(fs)[i])
  {
    forall i | 0 <= i < |fs| ensures |Padded(fs)[i]| == 4 && AllLowerHex(Padded(fs)[i]) {
      AllLowerHexDigits(fs[i]);
      ZeroFillHex(fs[i], 4);
    }
  }

  /** A colon spelling compares like the digit string it expands to. */
  lemma ExpandedSpelling(t: string, u: string)
    requires t != [] && ColonHex(t) && ':' in t && Expand(t) == Ok(u)
    requires u != [] && AllLowerHex(u)
    ensures Canonical(StrAddress(t)) == Canonical(StrAddress(u))
  {
    NormalizeColonHex(t);
    NormalizeLowerHex(u);
    LowerHexIsLower(u);
  }

  /** Eight groups in colon notation, with or without their leading zeros,
      compare like the 32 digits they spell. */
  lemma ColonSpelling(fs: seq<string>)
    requires |fs| == 8 && AllGroups(fs)
    ensures Canonical(StrAddress(Join(fs, ":"))) == Canonical(StrAddress(Join(Padded(fs), "")))
  {
    ExpandEightGroups(fs);
    JoinColonHex(fs);
    PaddedGroups(fs);
    JoinLowerHex(Padded(fs));
    ExpandedSpelling(Join(fs, ":"), Join(Padded(fs), ""));
  }

  /** `pre::post` compares like the digits with the gap filled by zero
      groups. */
  lemma GapSpelling(pre: seq<string>, post: seq<string>)
    requires AllGroups(pre) && AllGroups(post) && 1 <= |pre| + |post| <= 6
    ensures Canonical(StrAddress(Join(pre + [[]] + post, ":")))
      == Canonical(StrAddress(Join(Padded(pre) + [Repeat("0000", 8 - |pre| - |post|)] + Padded(post), "")))
  {
    var fields := pre + [[]] + post;
    var parts := Padded(pre) + [Repeat("0000", 8 - |pre| - |post|)] + Padded(post);
    ExpandOneGap(pre, post);
    GapFieldsHex(pre, post);
    JoinColonHex(fields);
    GapPartsHex(pre, post);
    JoinLowerHex(parts);
    ExpandedSpelling(Join(fields, ":"), Join(parts, ""));
  }

  /** The expansion has no gap left to fill: it failed, or the first empty
      field has used up the owed count. */
  predicate Spent(r: Result<Expansion>) {
    r.Err? || r.value.olen == 0
  }

  /** Only `int()` fails in the first loop, and it raises `ValueError`. */
  lemma {:induction false} ExpandErrIsValue(fields: seq<string>, k: nat)
    requires k <= |fields|
    ensures ExpandFold(fields, k).Err? ==> ExpandFold(fields, k).error == ValueError
  {
    if k > 0 {
      ExpandErrIsValue(fields, k - 1);
    }
  }

  /** One more field keeps a spent expansion spent. */
  lemma SpentStep(fields: seq<string>, k: nat)
    requires 1 <= k <= |fields| && Spent(ExpandFold(fields, k - 1))
    ensures Spent(ExpandFold(fields, k))
  {
    var r := ExpandFold(fields, k - 1);
    if r.Ok? {
      assert ExpandFold(fields, k) == ExpandField(r.value, fields[k - 1]);
    }
  }

  /** A second empty field, as in `::1` or `fe80::`, reaches `int("", 16)`
      after the first has cleared the count, so the expansion raises
      `ValueError`: only a gap written with one colon at an end expands. */
  lemma TwoGapsRaise(t: string, i: nat, j: nat)
    requires i < j < |Split(t, ':')| && Split(t, ':')[i] == [] && Split(t, ':')[j] == []
    ensures Expand(t) == Err(ValueError)
  {
    TwoGapsFold(Split(t, ':'), i, j);
  }

  lemma TwoGapsFold(fields: seq<string>, i: nat, j: nat)
    requires i < j < |fields| && fields[i] == [] && fields[j] == []
    ensures ExpandFold(fields, |fields|) == Err(ValueError)
  {
    GapSpends(fields, i + 1);
    var k := i + 1;
    while k < j
      invariant i + 1 <= k <= j && Spent(ExpandFold(fields, k))
    {
      SpentStep(fields, k + 1);
      k := k + 1;
    }
    SpentGapFails(fields, j + 1);
    ExpandErrSticky(fields, j + 1, |fields|);
    ExpandErrIsValue(fields, |fields|);
  }

  /** An empty field leaves the expansion spent. */
  lemma GapSpends(fields: seq<string>, k: nat)
    requires 1 <= k <= |fields| && fields[k - 1] == []
    ensures Spent(ExpandFold(fields, k))
  {
    EmptyIsNotInt();
  }

  /** An empty field once the expansion is spent raises. */
  lemma SpentGapFails(fields: seq<string>, k: nat)
    requires 1 <= k <= |fields| && fields[k - 1] == [] && Spent(ExpandFold(fields, k - 1))
    ensures ExpandFold(fields, k).Err?
  {
    EmptyIsNotInt();
  }

  /** `int('', 16)` raises. */
  lemma EmptyIsNotInt()
    ensures ParseInt([], 16).None?
  {
  }

  /** A character other than `:` joins the first field and leaves the
      later ones alone. */
  lemma SplitLetter(c: char, s: string)
    requires c != ':'
    ensures |Split([c] + s, ':')| == |Split(s, ':')| && Split([c] + s, ':')[1..] == Split(s, ':')[1..]
  {
    assert ([c] + s)[1..] == s;
  }

  /** More than one field means a separator was there. */
  lemma {:induction false} SplitFields(t: string, sep: char)
    requires |Split(t, sep)| > 1
    ensures sep in t
  {
    if t != [] && t[0] != sep {
      SplitFields(t[1..], sep);
    }
  }

  /** A lower-case colon string with two empty fields does not convert. */
  lemma TwoGapsDoNotConvert(t: string, i: nat, j: nat)
    requires t != [] && ColonHex(t)
    requires i < j < |Split(t, ':')| && Split(t, ':')[i] == [] && Split(t, ':')[j] == []
    ensures Canonical(StrAddress(t)) == Err(ValueError)
  {
    NormalizeColonHex(t);
    SplitFields(t, ':');
    TwoGapsRaise(t, i, j);
  }

  /** The loopback `::1` of section 2.2 of RFC 4291 does not convert:
      `_convert` raises `ValueError`. */
  lemma LoopbackRaises()
    ensures Canonical(StrAddress("::1")) == Err(ValueError)
  {
    assert Split(":1", ':') == [[]] + Split("1", ':');
    assert Split("::1", ':') == [[], []] + Split("1", ':');
    TwoGapsDoNotConvert("::1", 0, 1);
  }

  /** Nor does the link-local prefix `fe80::`. */
  lemma LinkPrefixRaises()
    ensures Canonical(StrAddress("fe80::")) == Err(ValueError)
  {
    LinkPrefixFields();
    TwoGapsDoNotConvert("fe80::", 1, 2);
  }

  lemma LinkPrefixFields()
    ensures |Split("fe80::", ':')| == 3 && Split("fe80::", ':')[1] == [] && Split("fe80::", ':')[2] == []
  {
    assert Split(":", ':') == [[], []];
    assert Split("::", ':') == [[], [], []];
    SplitLetter('0', "::");
    assert ['0'] + "::" == "0::";
    SplitLetter('8', "0::");
    assert ['8'] + "0::" == "80::";
    SplitLetter('e', "80::");
    assert ['e'] + "80::" == "e80::";
    SplitLetter('f', "e80::");
    assert ['f'] + "e80::" == "fe80::";
    assert Split("fe80::", ':')[1..] == [[], []];
  }

  lemma GapFieldsHex(pre: seq<string>, post: seq<string>)
    requires AllGroups(pre) && AllGroups(post)
    ensures var fields := pre + [[]] + post;
      forall i :: 0 <= i < |fields| ==> AllLowerHex(fields[i])
  {
    var fields := pre + [[]] + post;
    forall i | 0 <= i < |fields| ensures AllLowerHex(fields[i]) {
      if i < |pre| {
        assert fields[i] == pre[i];
      } else if i > |pre| {
        assert fields[i] == post[i - |pre| - 1];
      }
    }
  }

  lemma GapPartsHex(pre: seq<string>, post: seq<string>)
    requires AllGroups(pre) && AllGroups(post) && |pre| + |post| <= 7
    ensures var parts := Padded(pre) + [Repeat("0000", 8 - |pre| - |post|)] + Padded(post);
      |parts[0]| >= 4 && forall i :: 0 <= i < |parts| ==> AllLowerHex(parts[i])
  {
    var parts := Padded(pre) + [Repeat("0000", 8 - |pre| - |post|)] + Padded(post);
    PaddedGroups(pre);
    PaddedGroups(post);
    RepeatZeros4(8 - |pre| - |post|);
    forall i | 0 <= i < |parts| ensures AllLowerHex(parts[i]) {
      if i < |pre| {
        assert parts[i] == Padded(pre)[i];
      } else if i > |pre| {
        assert parts[i] == Padded(post)[i - |pre| - 1];
      }
    }
  }

  /** `'0000' * k` is `4k` zero digits. */
  lemma {:induction false} RepeatZeros4(k: int)
    requires k >= 1
    ensures |Repeat("0000", k)| >= 4 && AllLowerHex(Repeat("0000", k))
    decreases k
  {
    if k > 1 {
      RepeatZeros4(k - 1);
    }
    var r := Repeat("0000", k - 1);
    assert Repeat("0000", k) == "0000" + r;
    if k == 1 {
      assert r == [];
    }
  }

  // What the colon expansion produces.

  /** A group as written in colon notation: one to four lower-case hex
      digits. */
  predicate IsGroup(f: string) {
    1 <= |f| <= 4 && AllLowerHex(f)
  }

  predicate AllGroups(fs: seq<string>) {
    forall i :: 0 <= i < |fs| ==> IsGroup(fs[i])
  }

  /** Each group zero-filled to four digits. */
  function Padded(fs: seq<string>): (r: seq<string>)
    ensures |r| == |fs|
  {
    seq(|fs|, i requires 0 <= i < |fs| => ZeroFill(fs[i], 4))
  }

  lemma ParseGroup(f: string)
    requires IsGroup(f)
    ensures AllDigits(f, 16) && ParseInt(f, 16) == Some(DigitsValue(f, 16))
    ensures Format04x(DigitsValue(f, 16)) == ZeroFill(f, 4)
  {
    AllLowerHexDigits(f);
    if |f| >= 2 {
      HexDigitNotX(f[1]);
    }
    ParseDigitString(f, 16);
    Format04xGroup(f);
  }

  lemma ExpandFieldGroup(e: Expansion, f: string)
    requires IsGroup(f)
    ensures ExpandField(e, f) == Ok(Expansion(e.parts + [ZeroFill(f, 4)], e.olen))
  {
    ParseGroup(f);
  }

  /** The fields as the first loop leaves them: field `g` (if any) is the
      empty field standing for `zeros`, every other one a zero-filled
      group. */
  function ExpandedRef(fields: seq<string>, g: nat, k: nat, zeros: string): (r: seq<string>)
    requires k <= |fields|
    ensures |r| == k
  {
    seq(k, j requires 0 <= j < k => if j == g then zeros else ZeroFill(fields[j], 4))
  }

  /** Fields that are groups, except possibly an empty field `g`. */
  predicate GroupsBut(fields: seq<string>, g: nat) {
    forall j :: 0 <= j < |fields| && j != g ==> IsGroup(fields[j])
  }

  lemma ExpandedRefSnoc(fields: seq<string>, g: nat, k: nat, zeros: string)
    requires 0 < k <= |fields|
    ensures ExpandedRef(fields, g, k, zeros)
      == ExpandedRef(fields, g, k - 1, zeros) + [if k - 1 == g then zeros else ZeroFill(fields[k - 1], 4)]
  {
    var a, b := ExpandedRef(fields, g, k, zeros), ExpandedRef(fields, g, k - 1, zeros);
    var c := b + [if k - 1 == g then zeros else ZeroFill(fields[k - 1], 4)];
    forall j | 0 <= j < k ensures a[j] == c[j] {
      if j < k - 1 {
        assert c[j] == b[j];
      }
    }
  }

  /** The first loop, field by field: groups are zero-filled, and the
      empty field `g` expands to the `0000` groups still owed. */
  lemma {:induction false} ExpandPrefix(fields: seq<string>, g: nat, k: nat, zeros: string)
    requires k <= |fields| && g <= |fields| && GroupsUpTo(fields, g, k)
    requires g < |fields| ==> fields[g] == [] && |fields| != 8
    requires zeros == Repeat("0000", 9 - |fields|)
    ensures ExpandFold(fields, k)
      == Ok(Expansion(ExpandedRef(fields, g, k, zeros), if k > g then 0 else 8 - |fields|))
    decreases k
  {
    if k > 0 {
      GroupsUpToDown(fields, g, k);
      ExpandPrefix(fields, g, k - 1, zeros);
      ExpandPrefixStep(fields, g, k, zeros);
    }
  }

  lemma GroupsUpToDown(fields: seq<string>, g: nat, k: nat)
    requires 0 < k <= |fields| && GroupsUpTo(fields, g, k)
    ensures GroupsUpTo(fields, g, k - 1) && (k - 1 != g ==> IsGroup(fields[k - 1]))
  {
  }

  /** The first `k` fields are groups, except possibly the field `g`. */
  predicate GroupsUpTo(fields: seq<string>, g: nat, k: nat)
    requires k <= |fields|
    decreases k
  {
    k == 0 || ((k - 1 == g || IsGroup(fields[k - 1])) && GroupsUpTo(fields, g, k - 1))
  }

  lemma {:induction false} GroupsButUpTo(fields: seq<string>, g: nat, k: nat)
    requires k <= |fields| && GroupsBut(fields, g)
    ensures GroupsUpTo(fields, g, k)
    decreases k
  {
    if k > 0 {
      GroupsButUpTo(fields, g, k - 1);
      if k - 1 != g {
        assert IsGroup(fields[k - 1]);
      }
    }
  }

  /** One field more of `ExpandPrefix`: field `k - 1` is folded in. */
  lemma ExpandPrefixStep(fields: seq<string>, g: nat, k: nat, zeros: string)
    requires 0 < k <= |fields| && g <= |fields| && GroupsUpTo(fields, g, k)
    requires g < |fields| ==> fields[g] == [] && |fields| != 8
    requires zeros == Repeat("0000", 9 - |fields|)
    requires ExpandFold(fields, k - 1)
      == Ok(Expansion(ExpandedRef(fields, g, k - 1, zeros), if k - 1 > g then 0 else 8 - |fields|))
    ensures ExpandFold(fields, k)
      == Ok(Expansion(ExpandedRef(fields, g, k, zeros), if k > g then 0 else 8 - |fields|))
  {
    GroupsUpToDown(fields, g, k);
    if k - 1 == g {
      ExpandPrefixGap(fields, g, k, zeros);
    } else {
      ExpandPrefixGroup(fields, g, k, zeros, if k - 1 > g then 0 else 8 - |fields|);
    }
  }

  lemma ExpandPrefixGroup(fields: seq<string>, g: nat, k: nat, zeros: string, olen: int)
    requires 0 < k <= |fields| && k - 1 != g && IsGroup(fields[k - 1])
    requires ExpandFold(fields, k - 1) == Ok(Expansion(ExpandedRef(fields, g, k - 1, zeros), olen))
    ensures ExpandFold(fields, k) == Ok(Expansion(ExpandedRef(fields, g, k, zeros), olen))
  {
    ExpandedRefSnoc(fields, g, k, zeros);
    ExpandGroupStep(fields, k, ExpandedRef(fields, g, k - 1, zeros), olen);
  }

  lemma ExpandPrefixGap(fields: seq<string>, g: nat, k: nat, zeros: string)
    requires 0 < k <= |fields| && k - 1 == g && fields[k - 1] == [] && |fields| != 8
    requires zeros == Repeat("0000", 9 - |fields|)
    requires ExpandFold(fields, k - 1) == Ok(Expansion(ExpandedRef(fields, g, k - 1, zeros), 8 - |fields|))
    ensures ExpandFold(fields, k) == Ok(Expansion(ExpandedRef(fields, g, k, zeros), 0))
  {
    ExpandedRefSnoc(fields, g, k, zeros);
    ExpandGapStep(fields, k, ExpandedRef(fields, g, k - 1, zeros), 8 - |fields|, 9 - |fields|, zeros);
  }

  lemma ExpandGroupStep(fields: seq<string>, k: nat, p: seq<string>, olen: int)
    requires 0 < k <= |fields| && ExpandFold(fields, k - 1) == Ok(Expansion(p, olen))
    requires IsGroup(fields[k - 1])
    ensures ExpandFold(fields, k) == Ok(Expansion(p + [ZeroFill(fields[k - 1], 4)], olen))
  {
    ExpandFieldGroup(Expansion(p, olen), fields[k - 1]);
  }

  /** The first empty field, `olen` groups still owed: it becomes the
      `n == olen + 1` groups `zeros`. */
  lemma ExpandGapStep(fields: seq<string>, k: nat, p: seq<string>, olen: int, n: int, zeros: string)
    requires 0 < k <= |fields| && ExpandFold(fields, k - 1) == Ok(Expansion(p, olen))
    requires fields[k - 1] == [] && olen != 0 && n == olen + 1 && zeros == Repeat("0000", n)
    ensures ExpandFold(fields, k) == Ok(Expansion(p + [zeros], 0))
  {
    ExpandFieldGap(Expansion(p, olen), n);
  }

  /** One field more folds it into the expansion so far. */
  lemma ExpandFoldNext(fields: seq<string>, i: nat, olist: seq<string>, olen: int)
    requires i < |fields| && ExpandFold(fields, i) == Ok(Expansion(olist, olen))
    ensures ExpandFold(fields, i + 1) == ExpandField(Expansion(olist, olen), fields[i])
  {
  }

  /** The first empty field stands for the `n` owed zero groups. */
  lemma ExpandFieldGap(e: Expansion, n: int)
    requires e.olen != 0 && n == e.olen + 1
    ensures ExpandField(e, []) == Ok(Expansion(e.parts + [Repeat("0000", n)], 0))
  {
  }

  lemma GroupsHaveNoColon(fs: seq<string>)
    requires AllGroups(fs)
    ensures forall i :: 0 <= i < |fs| ==> ':' !in fs[i]
  {
    forall i | 0 <= i < |fs| ensures ':' !in fs[i] {
      LowerHexIsLower(fs[i]);
    }
  }

  /** Eight groups joined by `:`: each group is zero-filled and the groups
      are run together. */
  lemma ExpandEightGroups(fs: seq<string>)
    requires |fs| == 8 && AllGroups(fs)
    ensures Expand(Join(fs, ":")) == Ok(Join(Padded(fs), ""))
  {
    GroupsHaveNoColon(fs);
    SplitJoin(fs, ':');
    GroupsButUpTo(fs, 8, 8);
    ExpandPrefix(fs, 8, 8, Repeat("0000", 1));
    assert ExpandedRef(fs, 8, 8, Repeat("0000", 1)) == Padded(fs);
    ExpandOf(Join(fs, ":"), fs, Padded(fs), 0);
  }

  /** `pre::post`: the gap stands for as many `0000` groups as make eight
      in all; the groups around it are zero-filled. */
  lemma ExpandOneGap(pre: seq<string>, post: seq<string>)
    requires AllGroups(pre) && AllGroups(post) && |pre| + |post| <= 6
    ensures Expand(Join(pre + [[]] + post, ":"))
      == Ok(Join(Padded(pre) + [Repeat("0000", 8 - |pre| - |post|)] + Padded(post), ""))
  {
    var fields := pre + [[]] + post;
    SplitGapFields(pre, post);
    ExpandFoldGap(pre, post);
    ExpandOf(Join(fields, ":"), fields, Padded(pre) + [Repeat("0000", 8 - |pre| - |post|)] + Padded(post), 0);
  }

  lemma SplitGapFields(pre: seq<string>, post: seq<string>)
    requires AllGroups(pre) && AllGroups(post)
    ensures Split(Join(pre + [[]] + post, ":"), ':') == pre + [[]] + post
  {
    var fields := pre + [[]] + post;
    var g := |pre|;
    GroupsHaveNoColon(pre);
    GroupsHaveNoColon(post);
    forall i | 0 <= i < |fields| ensures ':' !in fields[i] {
      if i < g {
        assert fields[i] == pre[i];
      } else if i > g {
        assert fields[i] == post[i - g - 1];
      }
    }
    SplitJoin(fields, ':');
  }

  lemma ExpandFoldGap(pre: seq<string>, post: seq<string>)
    requires AllGroups(pre) && AllGroups(post) && |pre| + |post| <= 6
    ensures var fields := pre + [[]] + post;
      ExpandFold(fields, |fields|) == Ok(Expansion(Padded(pre) + [Repeat("0000", 8 - |pre| - |post|)] + Padded(post), 0))
  {
    var fields := pre + [[]] + post;
    var g := |pre|;
    assert GroupsBut(fields, g) by {
      forall j | 0 <= j < |fields| && j != g ensures IsGroup(fields[j]) {
        if j < g {
          assert fields[j] == pre[j];
        } else {
          assert fields[j] == post[j - g - 1];
        }
      }
    }
    assert fields[g] == [];
    assert |fields| == |pre| + |post| + 1;
    var zeros := Repeat("0000", 9 - |fields|);
    assert zeros == Repeat("0000", 8 - |pre| - |post|);
    GroupsButUpTo(fields, g, |fields|);
    ExpandPrefix(fields, g, |fields|, zeros);
    assert ExpandFold(fields, |fields|) == Ok(Expansion(ExpandedRef(fields, g, |fields|, zeros), 0));
    GapRef(pre, post);
  }

  lemma GapRef(pre: seq<string>, post: seq<string>)
    ensures var fields := pre + [[]] + post;
      var zeros := Repeat("0000", 9 - |fields|);
      ExpandedRef(fields, |pre|, |fields|, zeros) == Padded(pre) + [zeros] + Padded(post)
  {
    var fields := pre + [[]] + post;
    var g := |pre|;
    var zeros := Repeat("0000", 9 - |fields|);
    var r := ExpandedRef(fields, g, |fields|, zeros);
    var t := Padded(pre) + [zeros] + Padded(post);
    forall j | 0 <= j < |fields| ensures r[j] == t[j] {
      if j < g {
        assert fields[j] == pre[j];
      } else if j > g {
        assert fields[j] == post[j - g - 1];
      }
    }
  }

  lemma ExpandOf(t: string, fields: seq<string>, parts: seq<string>, olen: int)
    requires Split(t, ':') == fields
    requires ExpandFold(fields, |fields|) == Ok(Expansion(parts, olen))
    ensures Expand(t) == Ok(Join(parts, ""))
  {
  }

  /** A field that fails fails the whole expansion. */
  lemma ExpandFails(t: string, fields: seq<string>, i: nat)
    requires Split(t, ':') == fields && i <= |fields| && ExpandFold(fields, i).Err?
    ensures Expand(t) == Err(ExpandFold(fields, i).error)
  {
    ExpandErrSticky(fields, i, |fields|);
  }

  // What the grouping produces.

  /** The groups that are printed: every nonzero value in `%x`. */
  function NonzeroText(vs: seq<int>): (r: seq<string>)
    ensures |r| <= |vs|
  {
    if vs == [] then []
    else
      var v := vs[|vs| - 1];
      NonzeroText(vs[..|vs| - 1]) + (if v != 0 then [FormatX(v)] else [])
  }

  /** The first zero group that comes after a nonzero group: where the
      `::` goes. */
  function FirstGap(vs: seq<int>): (r: Option<nat>)
    ensures r.Some? ==> r.value < |vs|
  {
    if vs == [] then None
    else
      var g := FirstGap(vs[..|vs| - 1]);
      if g.Some? then g
      else if vs[|vs| - 1] == 0 && NonzeroText(vs[..|vs| - 1]) != [] then Some(|vs| - 1)
      else None
  }

  /** The reference reading of the second loop: the nonzero groups in hex,
      with an empty field in place of the first zero that follows a nonzero
      group; every other zero group disappears. */
  function CollapsedParts(vs: seq<int>): seq<string> {
    match FirstGap(vs)
    case None => NonzeroText(vs)
    case Some(g) => NonzeroText(vs[..g]) + [[]] + NonzeroText(vs[g + 1..])
  }

  /** The value of each group of four characters. */
  predicate QuadValues(u: string, vs: seq<int>) {
    |vs| == |u| / 4 &&
    forall j :: 0 <= j < |vs| ==> 4 * j + 4 <= |u| && ParseInt(Quad(u, j), 16) == Some(vs[j])
  }

  lemma FormatXNonEmpty(n: int)
    ensures FormatX(n) != []
  {
  }

  /** One more group value: the loop's step agrees with the reference
      reading of the longer sequence. */
  lemma ReferenceSnoc(p: seq<int>, v: int)
    ensures CollapseGroup(Collapse(CollapsedParts(p), FirstGap(p).None?), v)
      == Collapse(CollapsedParts(p + [v]), FirstGap(p + [v]).None?)
  {
    var q := p + [v];
    assert q[..|q| - 1] == p && q[|q| - 1] == v;
    if FirstGap(p).Some? {
      SnocAfterGap(p, v, FirstGap(p).value);
    } else if v == 0 && NonzeroText(p) != [] {
      SnocOpensGap(p);
    } else {
      assert FirstGap(q).None?;
      assert NonzeroText(q) == NonzeroText(p) + (if v != 0 then [FormatX(v)] else []);
    }
  }

  /** Past the gap, zeros vanish and nonzero groups are appended. */
  lemma SnocAfterGap(p: seq<int>, v: int, g: nat)
    requires FirstGap(p) == Some(g)
    ensures FirstGap(p + [v]) == Some(g)
    ensures CollapsedParts(p + [v]) == CollapsedParts(p) + (if v != 0 then [FormatX(v)] else [])
  {
    var q := p + [v];
    SnocKeepsGap(p, v, g);
    GapSplit(p, g);
    GapSplit(q, g);
    var t := p[g + 1..];
    assert q[..g] == p[..g];
    assert q[g + 1..] == t + [v];
    NonzeroSnoc(t, v);
    var a, b, x := NonzeroText(p[..g]), NonzeroText(t), (if v != 0 then [FormatX(v)] else []);
    GapAssoc(a, b, x);
  }

  lemma GapAssoc(a: seq<string>, b: seq<string>, x: seq<string>)
    ensures a + [[]] + (b + x) == (a + [[]] + b) + x
  {
  }

  lemma SnocKeepsGap(p: seq<int>, v: int, g: nat)
    requires FirstGap(p) == Some(g)
    ensures FirstGap(p + [v]) == Some(g)
  {
    assert (p + [v])[..|p|] == p;
  }

  lemma GapSplit(vs: seq<int>, g: nat)
    requires FirstGap(vs) == Some(g)
    ensures g < |vs| && CollapsedParts(vs) == NonzeroText(vs[..g]) + [[]] + NonzeroText(vs[g + 1..])
  {
  }

  lemma NonzeroSnoc(t: seq<int>, v: int)
    ensures NonzeroText(t + [v]) == NonzeroText(t) + (if v != 0 then [FormatX(v)] else [])
  {
    assert (t + [v])[..|t|] == t;
  }

  /** The first zero after a nonzero group becomes the empty field. */
  lemma SnocOpensGap(p: seq<int>)
    requires FirstGap(p).None? && NonzeroText(p) != []
    ensures FirstGap(p + [0]) == Some(|p|)
    ensures CollapsedParts(p + [0]) == CollapsedParts(p) + [[]]
    ensures CollapsedParts(p)[|CollapsedParts(p)| - 1] != []
  {
    var q := p + [0];
    assert q[..|q| - 1] == p;
    NonzeroLast(p);
    assert q[..|p|] == p && q[|p| + 1..] == [];
  }

  /** The second loop's state after it has seen the group values `vs`. */
  function CollapseValues(vs: seq<int>): Collapse
    decreases |vs|
  {
    if vs == [] then Collapse([], true)
    else CollapseGroup(CollapseValues(vs[..|vs| - 1]), vs[|vs| - 1])
  }

  /** Folding the parsed groups goes through the same states as folding
      their values. */
  lemma {:induction false} FoldGroupsValues(gs: seq<Option<int>>, vs: seq<int>, k: nat)
    requires |gs| == |vs| && k <= |vs|
    requires forall j :: 0 <= j < |vs| ==> gs[j] == Some(vs[j])
    ensures FoldGroups(gs, k) == Ok(CollapseValues(vs[..k]))
    decreases k
  {
    if k > 0 {
      FoldGroupsValues(gs, vs, k - 1);
      FoldGroupsStep(gs, vs, k);
    }
  }

  lemma FoldGroupsStep(gs: seq<Option<int>>, vs: seq<int>, k: nat)
    requires 1 <= k <= |gs| && k <= |vs| && gs[k - 1] == Some(vs[k - 1])
    requires FoldGroups(gs, k - 1) == Ok(CollapseValues(vs[..k - 1]))
    ensures FoldGroups(gs, k) == Ok(CollapseValues(vs[..k]))
  {
    CollapseValuesLast(vs, k);
    FoldGroupsNext(gs, k, CollapseValues(vs[..k - 1]), vs[k - 1]);
  }

  /** A parsed group more collapses into the state so far. */
  lemma FoldGroupsNext(gs: seq<Option<int>>, k: nat, c: Collapse, n: int)
    requires 1 <= k <= |gs| && gs[k - 1] == Some(n) && FoldGroups(gs, k - 1) == Ok(c)
    ensures FoldGroups(gs, k) == Ok(CollapseGroup(c, n))
  {
  }

  /** The state after `k` values is the state after `k - 1` with the last
      one collapsed in. */
  lemma CollapseValuesLast(vs: seq<int>, k: nat)
    requires 1 <= k <= |vs|
    ensures CollapseValues(vs[..k]) == CollapseGroup(CollapseValues(vs[..k - 1]), vs[k - 1])
  {
    var q := vs[..k];
    assert q[..|q| - 1] == vs[..k - 1] && q[|q| - 1] == vs[k - 1];
  }

  /** Folding the group values gives the reference parts, and the
      collapse flag is still set exactly when no gap has been made. */
  lemma {:induction false} CollapseMatchesReference(vs: seq<int>)
    ensures CollapseValues(vs) == Collapse(CollapsedParts(vs), FirstGap(vs).None?)
    decreases |vs|
  {
    if vs != [] {
      var p := vs[..|vs| - 1];
      var v := vs[|vs| - 1];
      assert vs == p + [v];
      CollapseMatchesReference(p);
      ReferenceSnoc(p, v);
    }
  }

  lemma {:induction false} NonzeroLast(vs: seq<int>)
    requires NonzeroText(vs) != []
    ensures NonzeroText(vs)[|NonzeroText(vs)| - 1] != []
    decreases |vs|
  {
    var v := vs[|vs| - 1];
    if v == 0 {
      NonzeroLast(vs[..|vs| - 1]);
    } else {
      FormatXNonEmpty(v);
    }
  }

  /** The output of the second loop is the reference reading of the group
      values. */
  lemma GroupedReference(u: string, vs: seq<int>)
    requires QuadValues(u, vs)
    ensures Grouped(u) == Ok(Join(CollapsedParts(vs), ":"))
  {
    var gs := GroupParses(u);
    forall j | 0 <= j < |vs|
      ensures gs[j] == Some(vs[j])
    {
      assert gs[j] == QuadParse(u, j);
    }
    FoldGroupsValues(gs, vs, |vs|);
    assert vs[..|vs|] == vs;
    CollapseMatchesReference(vs);
  }

  /** The sixteen address bytes of an IPv6 header, as `encode('hex')`
      spells them, always convert; the result is the reference reading of
      their eight 16-bit groups. */
  lemma SixteenBytes(b: seq<byte>) returns (vs: seq<int>)
    requires |b| == 16
    ensures QuadValues(HexOfBytes(b), vs)
    ensures forall j :: 0 <= j < 8 ==> 0 <= vs[j] < 0x1_0000
    ensures CanonicalStr(HexOfBytes(b)) == Ok(Join(CollapsedParts(vs), ":"))
  {
    var u := HexOfBytes(b);
    NormalizeLowerHex(u);
    SixteenBytesInRange(b);
    vs := seq(8, j requires 0 <= j < 8 => QuadValue(u, j));
    forall j | 0 <= j < 8
      ensures ParseInt(Quad(u, j), 16) == Some(vs[j]) && 0 <= vs[j] < 0x1_0000
    {
      QuadParses(u, j);
    }
    GroupedReference(u, vs);
    LowerHexIsLower(u);
    CanonicalOfDigits(u);
  }

  lemma NormalizeLowerHex(u: string)
    requires u != [] && AllLowerHex(u)
    ensures Normalize(u) == u
  {
    LowerHexIsLower(u);
    assert IsLowerHex(u[|u| - 1]);
    assert RStrip(u, LSUFFIX) == u;
    Remove0xNoX(u);
  }

  /** The 32 digits spell a number within 128 bits. */
  lemma SixteenBytesInRange(b: seq<byte>)
    requires |b| == 16
    ensures var v := ParseInt(HexOfBytes(b), 16); v.Some? && v.value <= MAX_ADDR
  {
    var u := HexOfBytes(b);
    AllLowerHexDigits(u);
    HexDigitNotX(u[1]);
    ParseDigitString(u, 16);
    HexOfBytesDigits(b);
    Xdr.Pow256Sixteen();
  }

  /** A colon-free digit string within range goes straight to the second
      loop. */
  lemma CanonicalOfDigits(u: string)
    requires ':' !in u
    requires var v := ParseInt(u, 16); v.Some? && v.value <= MAX_ADDR
    ensures CanonicalOf(u) == Grouped(u)
  {
  }

  /** The value of group `j`, read as the loop reads it. */
  function QuadValue(u: string, j: nat): int
    requires 4 * j + 4 <= |u|
  {
    match ParseInt(Quad(u, j), 16)
    case Some(v) => v
    case None => 0
  }

  lemma QuadParses(u: string, j: nat)
    requires 4 * j + 4 <= |u| && AllLowerHex(u)
    ensures ParseInt(Quad(u, j), 16) == Some(QuadValue(u, j))
    ensures 0 <= QuadValue(u, j) < 0x1_0000
  {
    var q := Quad(u, j);
    assert AllLowerHex(q) by {
      assert forall i :: 0 <= i < 4 ==> q[i] == u[4 * j + i];
    }
    ParseGroup(q);
    DigitsValueBound(q, 16);
    assert PowB(16, 4) == 0x1_0000;
  }

  // Integers narrower than 128 bits.

  /** `hex()` does not zero-fill, so an integer address below `2^124`
      yields fewer than 32 digits and the groups of four are counted from
      the wrong end; with fewer than four digits no group is left.  The
      addresses 1 and 2 both convert to the empty string, as does 0. */
  lemma ShortIntegersCollide()
    ensures Canonical(IntAddress(0)) == Ok(Some(""))
    ensures Canonical(IntAddress(1)) == Ok(Some(""))
    ensures Canonical(IntAddress(2)) == Ok(Some(""))
  {
    ShortDigits(0);
    ShortDigits(1);
    ShortDigits(2);
  }

  lemma ShortDigits(n: nat)
    requires n < 16
    ensures Canonical(IntAddress(n)) == Ok(Some(""))
  {
    var h := HexDigits(n);
    assert h == [HexChar(n)];
    NormalizeHexDigits(n);
    ParseHexDigits(n);
    LowerHexIsLower(h);
    assert CanonicalOf(h) == Grouped(h);
    assert Grouped(h) == Ok("");
  }

  /** `_convert` with an integer zero-filled to 32 digits (`"%032x"`),
      which is how the sixteen bytes of a header spell it; a negative
      integer is no address. */
  function CanonicalFixed(ip: Arg): (r: Result<Option<string>>)
    ensures !ip.IntAddress? ==> r == Canonical(ip)
  {
    match ip
    case IntAddress(n) =>
      if n < 0 || n > MAX_ADDR then Err(ValueError)
      else
        var r :- CanonicalStr(ZeroFill(HexDigits(n), 32));
        Ok(Some(r))
    case _ => Canonical(ip)
  }

  /** `"%032x" % n` is the hex spelling of the sixteen big-endian bytes
      of `n`. */
  lemma ZeroFilledIsBytes(b: seq<byte>)
    requires |b| == 16
    ensures ZeroFill(HexDigits(Xdr.BigEndian(b)), 32) == HexOfBytes(b)
  {
    var n := Xdr.BigEndian(b);
    var h := HexDigits(n);
    HexDigitsSpec(n);
    PowB16Twice(16);
    HexDigitsLength(n, 32);
    ZeroFillHex(h, 32);
    HexOfBytesDigits(b);
    HexInjective(ZeroFill(h, 32), HexOfBytes(b));
  }

  /** With zero-filling, an integer address converts exactly as the same
      address read from a packet header does. */
  lemma FixedIntMatchesBytes(n: int)
    requires 0 <= n <= MAX_ADDR
    ensures CanonicalFixed(IntAddress(n)) == Canonical(StrAddress(HexOfBytes(Xdr.ToBigEndian(n, 16))))
  {
    var b := Xdr.ToBigEndian(n, 16);
    Xdr.Pow256Sixteen();
    Xdr.BigEndianOfToBigEndian(n, 16);
    assert Xdr.BigEndian(b) == n;
    ZeroFilledIsBytes(b);
    FixedIsSpelled(n, HexOfBytes(b));
  }

  lemma FixedIsSpelled(n: int, u: string)
    requires 0 <= n <= MAX_ADDR && ZeroFill(HexDigits(n), 32) == u
    ensures CanonicalFixed(IntAddress(n)) == Canonical(StrAddress(u))
  {
  }

  /** With zero-filling every integer within 128 bits converts. */
  lemma FixedIntConverts(n: int)
    requires 0 <= n <= MAX_ADDR
    ensures CanonicalFixed(IntAddress(n)).Ok?
  {
    FixedIntMatchesBytes(n);
    var vs := SixteenBytes(Xdr.ToBigEndian(n, 16));
  }

  // Comparing two addresses.

  /** `IPv6Addr` subclasses `str`, so `type(other) != str` holds for
      another address object and `hex()` is applied to it, which raises
      `TypeError`: no address compares equal to another address object,
      not even to a copy of itself. */
  lemma AddrObjectsNeverCompare(self: string)
    ensures Eq(self, AddrObject(self)) == Err(TypeError)
    ensures Ne(self, AddrObject(self)) == Err(TypeError)
  {
  }

  /** `__eq__` with another address object compared by its string, which
      is already canonical. */
  function EqFixed(self: string, other: Arg): (r: Result<bool>)
    ensures !other.AddrObject? ==> r == Eq(self, other)
  {
    match other
    case AddrObject(s) => Ok(s == self)
    case _ => Eq(self, other)
  }

  /** Address objects compare as an equivalence: reflexively, symmetrically
      and transitively. */
  lemma EqFixedIsEquivalence(a: string, b: string, c: string)
    ensures EqFixed(a, AddrObject(a)) == Ok(true)
    ensures EqFixed(a, AddrObject(b)) == EqFixed(b, AddrObject(a))
    ensures EqFixed(a, AddrObject(b)) == Ok(true) && EqFixed(b, AddrObject(c)) == Ok(true)
      ==> EqFixed(a, AddrObject(c)) == Ok(true)
  {
  }

  // The addresses of the class's self-test.

  /** Thirty-two lower-case hex digits go straight to the second loop. */
  lemma FullWidthDigits(u: string)
    requires |u| == 32 && AllLowerHex(u)
    ensures CanonicalStr(u) == Grouped(u)
  {
    NormalizeLowerHex(u);
    assert var v := ParseInt(u, 16); v.Some? && v.value <= MAX_ADDR by {
      AllLowerHexDigits(u);
      HexDigitNotX(u[1]);
      ParseDigitString(u, 16);
      DigitsValueBound(u, 16);
      PowB16Twice(16);
      Xdr.Pow256Sixteen();
    }
    LowerHexIsLower(u);
    CanonicalOfDigits(u);
  }

  /** The groups of the address the class documents,
      `fe80000000000000020c29fffe5409ef`. */
  const DOCUMENTED_GROUPS := [0xfe80, 0, 0, 0, 0x20c, 0x29ff, 0xfe54, 0x9ef]

  /** Thirty-two digits with the documented groups print as
      `fe80::20c:29ff:fe54:9ef`. */
  lemma DocumentedAddress(u: string)
    requires |u| == 32 && AllLowerHex(u) && QuadValues(u, DOCUMENTED_GROUPS)
    ensures Canonical(StrAddress(u)) == Ok(Some("fe80::20c:29ff:fe54:9ef"))
  {
    FullWidthDigits(u);
    GroupedReference(u, DOCUMENTED_GROUPS);
    DocumentedParts();
    DocumentedJoin();
  }

  /** One more digit after a nonzero value. */
  lemma HexDigitsAppend(a: nat, d: nat)
    requires a >= 1 && d < 16
    ensures HexDigits(16 * a + d) == HexDigits(a) + [HexChar(d)]
  {
    Bits.DivModUnique(16 * a + d, 16, a, d);
  }

  /** `"%x"` of the documented nonzero groups. */
  lemma DocumentedText()
    ensures FormatX(0xfe80) == "fe80" && FormatX(0x20c) == "20c" && FormatX(0x29ff) == "29ff"
    ensures FormatX(0xfe54) == "fe54" && FormatX(0x9ef) == "9ef"
  {
    HexDigitsAppend(0xf, 0xe);
    HexDigitsAppend(0xfe, 0x8);
    HexDigitsAppend(0xfe8, 0x0);
    HexDigitsAppend(0x2, 0x0);
    HexDigitsAppend(0x20, 0xc);
    HexDigitsAppend(0x2, 0x9);
    HexDigitsAppend(0x29, 0xf);
    HexDigitsAppend(0x29f, 0xf);
    HexDigitsAppend(0xfe, 0x5);
    HexDigitsAppend(0xfe5, 0x4);
    HexDigitsAppend(0x9, 0xe);
    HexDigitsAppend(0x9e, 0xf);
  }

  /** The documented groups collapse at the first zero after `fe80`. */
  lemma DocumentedParts()
    ensures CollapsedParts(DOCUMENTED_GROUPS) == ["fe80", "", "20c", "29ff", "fe54", "9ef"]
  {
    OneZeroRun(0xfe80, 0x20c, 0x29ff, 0xfe54, 0x9ef);
    DocumentedText();
  }

  /** A nonzero group, three zero groups and four nonzero groups: the zeros
      become one empty field. */
  lemma OneZeroRun(a: int, b: int, c: int, d: int, e: int)
    requires a != 0 && b != 0 && c != 0 && d != 0 && e != 0
    ensures CollapsedParts([a, 0, 0, 0, b, c, d, e])
      == [FormatX(a), "", FormatX(b), FormatX(c), FormatX(d), FormatX(e)]
  {
    HeadRun(a);
    SnocAfterGap([a, 0, 0, 0], b, 1);
    assert [a, 0, 0, 0] + [b] == [a, 0, 0, 0, b];
    SnocAfterGap([a, 0, 0, 0, b], c, 1);
    assert [a, 0, 0, 0, b] + [c] == [a, 0, 0, 0, b, c];
    SnocAfterGap([a, 0, 0, 0, b, c], d, 1);
    assert [a, 0, 0, 0, b, c] + [d] == [a, 0, 0, 0, b, c, d];
    SnocAfterGap([a, 0, 0, 0, b, c, d], e, 1);
    assert [a, 0, 0, 0, b, c, d] + [e] == [a, 0, 0, 0, b, c, d, e];
  }

  lemma HeadRun(a: int)
    requires a != 0
    ensures FirstGap([a, 0, 0, 0]) == Some(1) && CollapsedParts([a, 0, 0, 0]) == [FormatX(a), ""]
  {
    assert [a][..0] == [];
    assert FirstGap([a]).None? && NonzeroText([a]) == [FormatX(a)];
    SnocOpensGap([a]);
    assert [a] + [0] == [a, 0];
    SnocAfterGap([a, 0], 0, 1);
    assert [a, 0] + [0] == [a, 0, 0];
    SnocAfterGap([a, 0, 0], 0, 1);
    assert [a, 0, 0] + [0] == [a, 0, 0, 0];
  }

  lemma DocumentedJoin()
    ensures Join(["fe80", "", "20c", "29ff", "fe54", "9ef"], ":") == "fe80::20c:29ff:fe54:9ef"
  {
    JoinSix("fe80", "", "20c", "29ff", "fe54", "9ef", ":");
  }

  lemma JoinSix(a: string, b: string, c: string, d: string, e: string, f: string, sep: string)
    ensures Join([a, b, c, d, e, f], sep) == a + sep + (b + sep + (c + sep + (d + sep + (e + sep + f))))
  {
    var p := [a, b, c, d, e, f];
    assert p[1..] == [b, c, d, e, f] && p[1..][1..] == [c, d, e, f];
    assert p[1..][1..][1..] == [d, e, f] && p[1..][1..][1..][1..] == [e, f];
    assert Join([e, f], sep) == e + sep + f;
    assert Join([d, e, f], sep) == d + sep + (e + sep + f);
    assert Join([c, d, e, f], sep) == c + sep + (d + sep + (e + sep + f));
    assert Join([b, c, d, e, f], sep) == b + sep + Join([c, d, e, f], sep);
  }

  /** An all-ones integer: thirty-two `f` digits, eight `ffff` groups and
      no zero group to collapse. */
  lemma AllOnesAddress()
    ensures Canonical(IntAddress(MAX_ADDR)) == Ok(Some(ALL_ONES))
  {
    assert MAX_ADDR == PowB(16, 32) - 1 by {
      PowB16Twice(16);
      Xdr.Pow256Sixteen();
    }
    AllFDigits(32);
    IntSpelling(MAX_ADDR);
    AllFAddress(HexDigits(MAX_ADDR));
  }

  const ALL_ONES := "ffff:ffff:ffff:ffff:ffff:ffff:ffff:ffff"

  /** Thirty-two `f` digits make eight `ffff` groups. */
  lemma AllFAddress(u: string)
    requires |u| == 32 && forall i :: 0 <= i < 32 ==> u[i] == 'f'
    ensures Canonical(StrAddress(u)) == Ok(Some(ALL_ONES))
  {
    FullWidthDigits(u);
    var vs := seq(8, _ => 0xffff);
    AllFQuads(u);
    GroupedReference(u, vs);
    AllFParts();
    AllOnesJoin();
  }

  lemma AllFQuads(u: string)
    requires |u| == 32 && forall i :: 0 <= i < 32 ==> u[i] == 'f'
    ensures QuadValues(u, seq(8, _ => 0xffff))
  {
    FfffValue();
    forall j | 0 <= j < 8 ensures ParseInt(Quad(u, j), 16) == Some(0xffff) {
      assert Quad(u, j) == "ffff";
    }
  }

  lemma AllFParts()
    ensures CollapsedParts(seq(8, _ => 0xffff)) == seq(8, _ => "ffff")
  {
    var vs := seq(8, _ => 0xffff);
    FfffValue();
    NoZeroGroups(vs);
  }

  lemma FfffValue()
    ensures HexDigits(0xffff) == "ffff" && ParseInt("ffff", 16) == Some(0xffff)
  {
    HexDigitsAppend(15, 15);
    HexDigitsAppend(0xff, 15);
    HexDigitsAppend(0xfff, 15);
    ParseHexDigits(0xffff);
  }

  lemma AllOnesJoin()
    ensures Join(seq(8, _ => "ffff"), ":") == ALL_ONES
  {
    JoinEight("ffff", ":");
  }

  /** `16^k - 1` is spelled with `k` digits `f`. */
  lemma AllFDigits(k: nat)
    requires k >= 1
    ensures var h := HexDigits(PowB(16, k) - 1); |h| == k && forall i :: 0 <= i < k ==> h[i] == 'f'
  {
    AllFValue(k);
    AllFSpelled(k);
    FsLetters(k);
  }

  /** `k` digits `f`. */
  function Fs(k: nat): string {
    if k == 0 then [] else Fs(k - 1) + ['f']
  }

  lemma {:induction false} FsLetters(k: nat)
    ensures |Fs(k)| == k && forall i :: 0 <= i < k ==> Fs(k)[i] == 'f'
  {
    if k > 0 {
      FsLetters(k - 1);
    }
  }

  /** The number spelled with `k` digits `f`. */
  function AllF(k: nat): (r: nat)
    requires k >= 1
    ensures r >= 15
  {
    if k == 1 then 15 else 16 * AllF(k - 1) + 15
  }

  lemma {:induction false} AllFValue(k: nat)
    requires k >= 1
    ensures AllF(k) == PowB(16, k) - 1
  {
    if k > 1 {
      AllFValue(k - 1);
    }
  }

  lemma {:induction false} AllFSpelled(k: nat)
    requires k >= 1
    ensures HexDigits(AllF(k)) == Fs(k)
  {
    if k == 1 {
      SingleF();
    } else {
      AllFSpelled(k - 1);
      AllFStep(k);
    }
  }

  lemma SingleF()
    ensures HexDigits(AllF(1)) == Fs(1)
  {
    assert AllF(1) == 15;
    assert HexChar(15) == 'f';
    assert Fs(1) == ['f'];
  }

  lemma AllFStep(k: nat)
    requires k >= 2 && HexDigits(AllF(k - 1)) == Fs(k - 1)
    ensures HexDigits(AllF(k)) == Fs(k)
  {
    var a, n := AllF(k - 1), AllF(k);
    Bits.DivModUnique(n, 16, a, 15);
    HexDigitsSplit(n, a, 15);
    assert HexChar(15) == 'f';
  }

  /** The last digit of `n` and the digits before it. */
  lemma HexDigitsSplit(n: nat, a: nat, d: nat)
    requires a >= 1 && d < 16 && n / 16 == a && n % 16 == d
    ensures HexDigits(n) == HexDigits(a) + [HexChar(d)]
  {
  }

  /** Without a zero group nothing collapses: every group appears in hex. */
  lemma {:induction false} NoZeroGroups(vs: seq<int>)
    requires forall i :: 0 <= i < |vs| ==> vs[i] != 0
    ensures FirstGap(vs) == None && CollapsedParts(vs) == NonzeroText(vs)
    ensures NonzeroText(vs) == seq(|vs|, i requires 0 <= i < |vs| => FormatX(vs[i]))
  {
    if vs != [] {
      NoZeroGroups(vs[..|vs| - 1]);
    }
  }

  lemma JoinEight(a: string, sep: string)
    ensures Join(seq(8, _ => a), sep) == a + sep + (a + sep + (a + sep + (a + sep + (a + sep + (a + sep + (a + sep + a))))))
  {
    var p := seq(8, _ => a);
    assert p[1..] == seq(7, _ => a) && p[1..][1..] == seq(6, _ => a);
    JoinSix(a, a, a, a, a, a, sep);
    assert seq(6, _ => a) == [a, a, a, a, a, a];
  }
}
