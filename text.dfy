/** The Python 2 string operations the decoders and helpers rely on, on
    byte strings (`str`) seen as sequences of characters: `int(s, base)`,
    `"%x"`, `"%04x"`, `hex()`, `str()`, `lower()`, `replace('0x', '')`,
    `rstrip(chars)`, `split(sep)`, `sep.join(parts)`, repetition and
    `encode('hex')`. */
module Text {
  import opened Base
  import Xdr

  /** Python 2 `isspace` on one character of a byte string. */
  predicate IsSpace(c: char) {
    c == ' ' || '\t' <= c <= '\r'
  }

  /** Value of `c` as a digit in bases up to 36. */
  function DigitValue(c: char): (r: Option<nat>)
    ensures r.Some? ==> r.value < 36
  {
    if '0' <= c <= '9' then Some(c as int - '0' as int)
    else if 'a' <= c <= 'z' then Some(c as int - 'a' as int + 10)
    else if 'A' <= c <= 'Z' then Some(c as int - 'A' as int + 10)
    else None
  }

  predicate IsDigit(c: char, base: nat) {
    DigitValue(c).Some? && DigitValue(c).value < base
  }

  predicate AllDigits(s: string, base: nat) {
    forall i :: 0 <= i < |s| ==> IsDigit(s[i], base)
  }

  /** The number a string of digits spells, most significant first. */
  function DigitsValue(s: string, base: nat): nat
    requires AllDigits(s, base)
  {
    if s == [] then 0
    else DigitsValue(s[..|s| - 1], base) * base + DigitValue(s[|s| - 1]).value
  }

  function LStripSpace(s: string): (r: string)
    ensures |r| <= |s| && (r == [] || !IsSpace(r[0]))
  {
    if s != [] && IsSpace(s[0]) then LStripSpace(s[1..]) else s
  }

  function RStripSpace(s: string): (r: string)
    ensures |r| <= |s| && (r == [] || !IsSpace(r[|r| - 1]))
  {
    if s != [] && IsSpace(s[|s| - 1]) then RStripSpace(s[..|s| - 1]) else s
  }

  /** The digits that `int(s, base)` reads, once surrounding white space,
      the sign and (in base 16) a `0x`/`0X` prefix are taken off. */
  function DigitPart(s: string, base: nat): string {
    var t := RStripSpace(LStripSpace(s));
    var u := if t != [] && (t[0] == '-' || t[0] == '+') then LStripSpace(t[1..]) else t;
    if base == 16 && |u| >= 2 && u[0] == '0' && (u[1] == 'x' || u[1] == 'X') then u[2..] else u
  }

  /** Python 2 `int(s, base)`: `None` stands for the `ValueError` raised on
      anything but optional white space, an optional sign, optional white
      space, (in base 16) an optional `0x`, at least one digit and optional
      white space. */
  function ParseInt(s: string, base: nat): (r: Option<int>)
    requires 2 <= base <= 36
    ensures r.Some? <==> DigitPart(s, base) != [] && AllDigits(DigitPart(s, base), base)
  {
    var t := RStripSpace(LStripSpace(s));
    var d := DigitPart(s, base);
    if d == [] || !AllDigits(d, base) then None
    else
      var v: int := DigitsValue(d, base);
      Some(if t[0] == '-' then -v else v)
  }

  const HEXCHARS: string := "0123456789abcdef"

  /** A digit of `"%x"` output. */
  predicate IsLowerHex(c: char) {
    '0' <= c <= '9' || 'a' <= c <= 'f'
  }

  predicate AllLowerHex(s: string) {
    forall i :: 0 <= i < |s| ==> IsLowerHex(s[i])
  }

  function HexChar(d: nat): (c: char)
    requires d < 16
    ensures IsDigit(c, 16) && DigitValue(c) == Some(d) && IsLowerHex(c)
  {
    HEXCHARS[d]
  }

  /** `"%x" % n` for `n >= 0`: lower-case hex digits, no leading zero. */
  function HexDigits(n: nat): string
    decreases n
  {
    if n < 16 then [HexChar(n)] else HexDigits(n / 16) + [HexChar(n % 16)]
  }

  /** `"%x" % n` reads back as `n`, in lower case, with no leading zero. */
  lemma {:induction false} HexDigitsSpec(n: nat)
    ensures var r := HexDigits(n);
      1 <= |r| && AllDigits(r, 16) && DigitsValue(r, 16) == n && AllLowerHex(r) &&
      (r[0] == '0' ==> n == 0 && |r| == 1)
    decreases n
  {
    if n >= 16 {
      HexDigitsSpec(n / 16);
      var p := HexDigits(n / 16);
      var r := p + [HexChar(n % 16)];
      assert r[..|r| - 1] == p;
    }
  }

  /** `"%x" % n`, a minus sign in front of a negative value. */
  function FormatX(n: int): string {
    if n < 0 then "-" + HexDigits(-n) else HexDigits(n)
  }

  /** `count` copies of `s`; none when `count <= 0`, as in Python. */
  function Repeat(s: string, count: int): string
    decreases if count < 0 then 0 else count
  {
    if count <= 0 then [] else s + Repeat(s, count - 1)
  }

  lemma {:induction false} RepeatLength(s: string, count: int)
    ensures count >= 0 ==> |Repeat(s, count)| == count * |s|
    ensures count <= 0 ==> Repeat(s, count) == []
    decreases if count < 0 then 0 else count
  {
    if count > 0 {
      RepeatLength(s, count - 1);
    }
  }

  /** Zero-fill on the left up to `width` characters. */
  function ZeroFill(s: string, width: nat): string {
    Repeat("0", width - |s|) + s
  }

  /** `"%04x" % n`: the sign counts towards the width of four. */
  function Format04x(n: int): string {
    if n < 0 then "-" + ZeroFill(HexDigits(-n), 3) else ZeroFill(HexDigits(n), 4)
  }

  /** Python 2 `hex(n)`: `0x` (after a minus sign for a negative value),
      the digits, and an `L` for a value outside the machine word. */
  function PyHex(n: int): string {
    var body := if n < 0 then "-0x" + HexDigits(-n) else "0x" + HexDigits(n);
    if -0x8000_0000_0000_0000 <= n < 0x8000_0000_0000_0000 then body else body + "L"
  }

  /** Python 2 `str(n)` for an integer. */
  function DecDigits(n: nat): (r: string)
    ensures 1 <= |r| && AllDigits(r, 10) && DigitsValue(r, 10) == n
    ensures r[0] == '0' ==> n == 0
    decreases n
  {
    if n < 10 then [HexChar(n)]
    else
      var p := DecDigits(n / 10);
      var r := p + [HexChar(n % 10)];
      assert r[..|r| - 1] == p;
      r
  }

  function Decimal(n: int): string {
    if n < 0 then "-" + DecDigits(-n) else DecDigits(n)
  }

  function LowerChar(c: char): char {
    if 'A' <= c <= 'Z' then (c as int + 32) as char else c
  }

  /** `s.lower()` on a byte string: ASCII letters only. */
  function Lower(s: string): (r: string)
    ensures |r| == |s|
  {
    seq(|s|, i requires 0 <= i < |s| => LowerChar(s[i]))
  }

  /** `s.rstrip(chars)`. */
  function RStrip(s: string, chars: set<char>): (r: string)
    ensures |r| <= |s| && r == s[..|r|]
    ensures r == [] || r[|r| - 1] !in chars
  {
    if s != [] && s[|s| - 1] in chars then RStrip(s[..|s| - 1], chars) else s
  }

  /** `s.replace('0x', '')`: every occurrence, scanning left to right. */
  function Remove0x(s: string): (r: string)
    ensures |r| <= |s|
  {
    if |s| >= 2 && s[0] == '0' && s[1] == 'x' then Remove0x(s[2..])
    else if s == [] then []
    else [s[0]] + Remove0x(s[1..])
  }

  /** `s.split(sep)` for a one-character separator. */
  function Split(s: string, sep: char): (r: seq<string>)
    ensures |r| >= 1
  {
    if s == [] then [[]]
    else
      var rest := Split(s[1..], sep);
      if s[0] == sep then [[]] + rest
      else [[s[0]] + rest[0]] + rest[1..]
  }

  /** `sep.join(parts)`. */
  function Join(parts: seq<string>, sep: string): string {
    if parts == [] then []
    else if |parts| == 1 then parts[0]
    else parts[0] + sep + Join(parts[1..], sep)
  }

  /** Two lower-case hex digits per byte: `s.encode('hex')`. */
  function HexOfBytes(b: seq<byte>): (r: string)
    ensures |r| == 2 * |b| && AllLowerHex(r)
  {
    if b == [] then []
    else HexOfBytes(b[..|b| - 1]) + [HexChar(b[|b| - 1] / 16), HexChar(b[|b| - 1] % 16)]
  }

  // Properties.

  lemma {:induction false} JoinSplit(s: string, sep: char)
    ensures Join(Split(s, sep), [sep]) == s
    decreases |s|
  {
    if s != [] {
      var rest := Split(s[1..], sep);
      JoinSplit(s[1..], sep);
      if s[0] != sep {
        if |rest| > 1 {
          assert Join(rest, [sep]) == rest[0] + [sep] + Join(rest[1..], [sep]);
        }
      }
    }
  }

  /** Splitting a join gives the parts back when no part holds the separator. */
  lemma {:induction false} SplitJoin(parts: seq<string>, sep: char)
    requires |parts| >= 1
    requires forall i :: 0 <= i < |parts| ==> sep !in parts[i]
    ensures Split(Join(parts, [sep]), sep) == parts
    decreases |parts|
  {
    if |parts| == 1 {
      SplitNoSep(parts[0], sep);
    } else {
      SplitJoin(parts[1..], sep);
      SplitPrefix(parts[0], sep, Join(parts[1..], [sep]));
    }
  }

  lemma {:induction false} SplitNoSep(s: string, sep: char)
    requires sep !in s
    ensures Split(s, sep) == [s]
    decreases |s|
  {
    if s != [] {
      SplitNoSep(s[1..], sep);
      assert [s[0]] + s[1..] == s;
    }
  }

  lemma {:induction false} SplitPrefix(p: string, sep: char, t: string)
    requires sep !in p
    ensures Split(p + [sep] + t, sep) == [p] + Split(t, sep)
    decreases |p|
  {
    if p == [] {
      assert p + [sep] + t == [sep] + t;
      assert ([sep] + t)[1..] == t;
    } else {
      assert (p + [sep] + t)[1..] == p[1..] + [sep] + t;
      SplitPrefix(p[1..], sep, t);
      assert [p[0]] + p[1..] == p;
    }
  }

  lemma {:induction false} Remove0xNoX(s: string)
    requires 'x' !in s
    ensures Remove0x(s) == s
    decreases |s|
  {
    if s != [] {
      assert 'x' !in s[1..] by {
        forall i | 0 <= i < |s[1..]| ensures s[1..][i] != 'x' {
          assert s[1..][i] == s[i + 1];
        }
      }
      Remove0xNoX(s[1..]);
      assert [s[0]] + s[1..] == s;
    }
  }

  lemma LowerNoUpper(s: string)
    requires forall i :: 0 <= i < |s| ==> !('A' <= s[i] <= 'Z')
    ensures Lower(s) == s
  {
  }

  lemma LowerHexIsLower(s: string)
    requires AllLowerHex(s)
    ensures Lower(s) == s && 'x' !in s && 'X' !in s && ':' !in s
  {
    assert forall i :: 0 <= i < |s| ==> s[i] != 'x' && s[i] != 'X' && s[i] != ':';
  }

  lemma AllLowerHexDigits(s: string)
    requires AllLowerHex(s)
    ensures AllDigits(s, 16)
  {
    forall i | 0 <= i < |s| ensures IsDigit(s[i], 16) {
      assert IsLowerHex(s[i]);
    }
  }

  lemma {:induction false} LStripNoSpace(s: string)
    requires s == [] || !IsSpace(s[0])
    ensures LStripSpace(s) == s
  {
  }

  /** A string of nothing but digits reads back as the number it spells. */
  lemma ParseDigitString(s: string, base: nat)
    requires 2 <= base <= 36 && s != [] && AllDigits(s, base)
    requires base == 16 ==> |s| < 2 || (s[1] != 'x' && s[1] != 'X')
    ensures ParseInt(s, base) == Some(DigitsValue(s, base))
  {
    assert !IsSpace(s[0]) && !IsSpace(s[|s| - 1]);
    assert s[0] != '-' && s[0] != '+';
  }

  lemma HexDigitNotX(c: char)
    requires IsDigit(c, 16)
    ensures c != 'x' && c != 'X'
  {
  }

  lemma ParseHexDigits(n: nat)
    ensures ParseInt(HexDigits(n), 16) == Some(n)
  {
    var h := HexDigits(n);
    HexDigitsSpec(n);
    if |h| >= 2 {
      HexDigitNotX(h[1]);
    }
    ParseDigitString(h, 16);
  }

  /** `int(str(n))` is `n`. */
  lemma ParseDecimal(n: int)
    ensures ParseInt(Decimal(n), 10) == Some(n)
  {
    var d := DecDigits(if n < 0 then -n else n);
    if n >= 0 {
      ParseDigitString(d, 10);
    } else {
      var s := "-" + d;
      assert !IsSpace(s[0]) && !IsSpace(s[|s| - 1]);
      assert s[1..] == d;
      assert DigitPart(s, 10) == d;
    }
  }

  lemma {:induction false} HexOfBytesDigits(b: seq<byte>)
    ensures AllDigits(HexOfBytes(b), 16)
    ensures DigitsValue(HexOfBytes(b), 16) == Xdr.BigEndian(b)
    decreases |b|
  {
    if b != [] {
      var p := b[..|b| - 1];
      var x := b[|b| - 1];
      HexOfBytesDigits(p);
      var h := HexOfBytes(p);
      assert HexOfBytes(b) == h + [HexChar(x / 16), HexChar(x % 16)];
      DigitsValuePair(h, x / 16, x % 16);
      ByteAsDigits(DigitsValue(h, 16), x);
    }
  }

  /** Two more hex digits after `h`. */
  lemma DigitsValuePair(h: string, d: nat, e: nat)
    requires AllDigits(h, 16) && d < 16 && e < 16
    ensures var r := h + [HexChar(d), HexChar(e)];
      AllDigits(r, 16) && DigitsValue(r, 16) == (DigitsValue(h, 16) * 16 + d) * 16 + e
  {
    var r := h + [HexChar(d), HexChar(e)];
    assert r[..|r| - 1] == h + [HexChar(d)];
    assert (h + [HexChar(d)])[..|h|] == h;
  }

  lemma ByteAsDigits(v: nat, x: byte)
    ensures (v * 16 + x / 16) * 16 + x % 16 == v * 256 + x
  {
  }

  function UpperChar(c: char): char {
    if 'a' <= c <= 'z' then (c as int - 32) as char else c
  }

  /** `s.upper()` on a byte string: ASCII letters only. */
  function Upper(s: string): (r: string)
    ensures |r| == |s|
  {
    seq(|s|, i requires 0 <= i < |s| => UpperChar(s[i]))
  }

  lemma LowerUpper(s: string)
    ensures Lower(Upper(s)) == Lower(s)
  {
    forall i | 0 <= i < |s| ensures Lower(Upper(s))[i] == Lower(s)[i] {
      assert Upper(s)[i] == UpperChar(s[i]);
    }
  }

  /** Upper-casing commutes with stripping a set of characters closed
      under upper-casing. */
  lemma {:induction false} RStripUpper(s: string, chars: set<char>)
    requires forall c :: c in chars <==> UpperChar(c) in chars
    ensures RStrip(Upper(s), chars) == Upper(RStrip(s, chars))
    decreases |s|
  {
    if s != [] {
      assert Upper(s)[|s| - 1] == UpperChar(s[|s| - 1]);
      assert Upper(s)[..|s| - 1] == Upper(s[..|s| - 1]);
      RStripUpper(s[..|s| - 1], chars);
    }
  }

  lemma UpperNoX(s: string)
    requires 'x' !in s
    ensures 'x' !in Upper(s)
  {
    forall i | 0 <= i < |s| ensures Upper(s)[i] != 'x' {
      assert Upper(s)[i] == UpperChar(s[i]);
    }
  }

  /** Stripping the end of `p + s` strips into `p` only once `s` is gone. */
  lemma {:induction false} RStripAppend(p: string, s: string, chars: set<char>)
    ensures RStrip(p + s, chars) == if RStrip(s, chars) == [] then RStrip(p, chars) else p + RStrip(s, chars)
    decreases |s|
  {
    if s == [] {
      assert p + s == p;
    } else {
      assert (p + s)[..|p + s| - 1] == p + s[..|s| - 1];
      RStripAppend(p, s[..|s| - 1], chars);
    }
  }

  lemma RStripKeeps(s: string, chars: set<char>)
    requires s != [] && s[|s| - 1] !in chars
    ensures RStrip(s, chars) == s
  {
  }

  lemma RStripDrops(s: string, c: char, chars: set<char>)
    requires c in chars
    ensures RStrip(s + [c], chars) == RStrip(s, chars)
  {
    assert (s + [c])[..|s|] == s;
  }

  lemma Remove0xPrefix(t: string)
    ensures Remove0x("0x" + t) == Remove0x(t)
  {
    assert ("0x" + t)[2..] == t;
  }

  function PowB(base: nat, k: nat): (r: nat)
    ensures base >= 1 ==> r >= 1
  {
    if k == 0 then 1 else base * PowB(base, k - 1)
  }

  lemma {:induction false} PowBMono(base: nat, i: nat, k: nat)
    requires base >= 1 && i <= k
    ensures PowB(base, i) <= PowB(base, k)
    decreases k
  {
    if i < k {
      PowBMono(base, i, k - 1);
      MulAtLeastOne(base, PowB(base, k - 1));
    }
  }

  /** Two hex digits per byte: `16^(2k) == 256^k`. */
  lemma {:induction false} PowB16Twice(k: nat)
    ensures PowB(16, 2 * k) == Xdr.Pow256(k)
    decreases k
  {
    if k > 0 {
      PowB16Twice(k - 1);
      assert PowB(16, 2 * k) == 16 * (16 * PowB(16, 2 * (k - 1)));
    }
  }

  /** The exponent order follows from the order of the powers. */
  lemma PowBLess(base: nat, j: nat, k: nat)
    requires base >= 1 && PowB(base, j) < PowB(base, k)
    ensures j < k
  {
    if k <= j {
      PowBMono(base, k, j);
    }
  }

  lemma AllDigitsPrefix(s: string, n: nat, base: nat)
    requires AllDigits(s, base) && n <= |s|
    ensures AllDigits(s[..n], base) && AllDigits(s[n..], base)
  {
    assert forall i :: 0 <= i < n ==> s[..n][i] == s[i];
    assert forall i :: 0 <= i < |s| - n ==> s[n..][i] == s[n + i];
  }

  lemma AllDigitsAppend(a: string, b: string, base: nat)
    requires AllDigits(a, base) && AllDigits(b, base)
    ensures AllDigits(a + b, base)
  {
    forall i | 0 <= i < |a + b| ensures IsDigit((a + b)[i], base) {
      if i < |a| {
        assert (a + b)[i] == a[i];
      } else {
        assert (a + b)[i] == b[i - |a|];
      }
    }
  }

  /** The value of two digit strings written one after the other. */
  lemma {:induction false} DigitsValueAppend(a: string, b: string, base: nat)
    requires AllDigits(a, base) && AllDigits(b, base)
    ensures AllDigits(a + b, base)
    ensures DigitsValue(a + b, base) == DigitsValue(a, base) * PowB(base, |b|) + DigitsValue(b, base)
    decreases |b|
  {
    AllDigitsAppend(a, b, base);
    if b == [] {
      assert a + b == a;
    } else {
      var b0 := b[..|b| - 1];
      AllDigitsPrefix(b, |b| - 1, base);
      assert (a + b)[..|a + b| - 1] == a + b0;
      DigitsValueAppend(a, b0, base);
      var x, y, p := DigitsValue(a, base), DigitsValue(b0, base), PowB(base, |b0|);
      var d := DigitValue(b[|b| - 1]).value;
      assert DigitsValue(a + b, base) == (x * p + y) * base + d;
      assert DigitsValue(b, base) == y * base + d;
      MulStep(x, p, y, base, d);
    }
  }

  lemma MulStep(x: int, p: int, y: int, base: int, d: int)
    ensures (x * p + y) * base + d == x * (base * p) + (y * base + d)
  {
  }

  lemma BoundStep(v: int, d: int, p: int, base: int)
    requires 0 <= v <= p - 1 && 0 <= d <= base - 1
    ensures v * base + d < base * p
  {
    assert v * base <= (p - 1) * base;
  }

  /** `k` digits spell less than `base^k`. */
  lemma {:induction false} DigitsValueBound(s: string, base: nat)
    requires AllDigits(s, base)
    ensures DigitsValue(s, base) < PowB(base, |s|)
    decreases |s|
  {
    if s != [] {
      var s0 := s[..|s| - 1];
      AllDigitsPrefix(s, |s| - 1, base);
      DigitsValueBound(s0, base);
      var v, d, p := DigitsValue(s0, base), DigitValue(s[|s| - 1]).value, PowB(base, |s0|);
      BoundStep(v, d, p, base);
    }
  }

  /** Leading zeros do not change the value. */
  lemma {:induction false} ZerosValue(k: int, base: nat)
    requires base >= 2
    ensures AllDigits(Repeat("0", k), base) && DigitsValue(Repeat("0", k), base) == 0
    decreases if k < 0 then 0 else k
  {
    if k > 0 {
      var z := Repeat("0", k - 1);
      ZerosValue(k - 1, base);
      assert Repeat("0", k) == "0" + z;
      assert AllDigits("0", base) && DigitsValue("0", base) == 0;
      DigitsValueAppend("0", z, base);
      assert DigitsValue("0" + z, base) == 0 * PowB(base, |z|) + 0;
    }
  }

  lemma ZeroFillHex(h: string, w: nat)
    requires |h| <= w && AllLowerHex(h) && AllDigits(h, 16)
    ensures |ZeroFill(h, w)| == w && AllLowerHex(ZeroFill(h, w)) && AllDigits(ZeroFill(h, w), 16)
    ensures DigitsValue(ZeroFill(h, w), 16) == DigitsValue(h, 16)
  {
    var z := Repeat("0", w - |h|);
    RepeatLength("0", w - |h|);
    ZerosValue(w - |h|, 16);
    DigitsValueAppend(z, h, 16);
    assert forall i :: 0 <= i < |z| ==> z[i] == '0' by {
      RepeatZeros(w - |h|);
    }
    assert forall i :: 0 <= i < |z + h| ==> IsLowerHex((z + h)[i]) by {
      forall i | 0 <= i < |z + h| ensures IsLowerHex((z + h)[i]) {
        if i < |z| {
          assert (z + h)[i] == z[i];
        } else {
          assert (z + h)[i] == h[i - |z|];
        }
      }
    }
  }

  lemma {:induction false} RepeatZeros(k: int)
    ensures forall i :: 0 <= i < |Repeat("0", k)| ==> Repeat("0", k)[i] == '0'
    decreases if k < 0 then 0 else k
  {
    if k > 0 {
      RepeatZeros(k - 1);
    }
  }

  /** Lower-case hex digit strings of one length are equal when they spell
      the same number. */
  lemma {:induction false} HexInjective(a: string, b: string)
    requires |a| == |b| && AllLowerHex(a) && AllLowerHex(b)
    requires AllDigits(a, 16) && AllDigits(b, 16)
    requires DigitsValue(a, 16) == DigitsValue(b, 16)
    ensures a == b
    decreases |a|
  {
    if a != [] {
      var n := |a| - 1;
      AllDigitsPrefix(a, n, 16);
      AllDigitsPrefix(b, n, 16);
      var x, y := DigitsValue(a[..n], 16), DigitsValue(b[..n], 16);
      var c, d := DigitValue(a[n]).value, DigitValue(b[n]).value;
      assert x * 16 + c == y * 16 + d;
      assert c == d && x == y;
      assert IsLowerHex(a[n]) && IsLowerHex(b[n]);
      assert a[..n] == b[..n] by {
        assert AllLowerHex(a[..n]) by {
          assert forall i :: 0 <= i < n ==> a[..n][i] == a[i];
        }
        assert AllLowerHex(b[..n]) by {
          assert forall i :: 0 <= i < n ==> b[..n][i] == b[i];
        }
        HexInjective(a[..n], b[..n]);
      }
      assert a == a[..n] + [a[n]] && b == b[..n] + [b[n]];
    }
  }

  /** `"%x" % n` has at most `k` digits when `n < 16^k`. */
  lemma HexDigitsLength(n: nat, k: nat)
    requires 1 <= k && n < PowB(16, k)
    ensures |HexDigits(n)| <= k
  {
    var r := HexDigits(n);
    HexDigitsSpec(n);
    if n != 0 {
      assert r[0] != '0' && IsLowerHex(r[0]);
      LeadingDigitBound(r, 16);
      PowBLess(16, |r| - 1, k);
    }
  }

  /** A digit string that does not start with a zero is worth at least
      `base^(|r| - 1)`. */
  lemma LeadingDigitBound(r: string, base: nat)
    requires r != [] && AllDigits(r, base) && DigitValue(r[0]).value >= 1
    ensures DigitsValue(r, base) >= PowB(base, |r| - 1)
  {
    var t := r[1..];
    AllDigitsPrefix(r, 1, base);
    DigitsValueAppend([r[0]], t, base);
    assert [r[0]] + t == r;
    assert DigitsValue([r[0]], base) == DigitValue(r[0]).value by {
      assert [r[0]][..0] == [];
    }
    MulAtLeastOne(DigitValue(r[0]).value, PowB(base, |t|));
  }

  lemma MulAtLeastOne(d: nat, p: nat)
    requires d >= 1
    ensures d * p >= p
  {
  }

  /** `"%04x" % int(f, 16)` pads a group of one to four lower-case hex
      digits with leading zeros. */
  lemma Format04xGroup(f: string)
    requires 1 <= |f| <= 4 && AllLowerHex(f)
    ensures AllDigits(f, 16) && Format04x(DigitsValue(f, 16)) == ZeroFill(f, 4)
  {
    AllLowerHexDigits(f);
    var v := DigitsValue(f, 16);
    ShortHexDigits(f);
    var h := HexDigits(v);
    HexDigitsSpec(v);
    assert Format04x(v) == ZeroFill(h, 4);
    ZeroFillHex(h, 4);
    ZeroFillHex(f, 4);
    HexInjective(ZeroFill(h, 4), ZeroFill(f, 4));
  }

  lemma ShortHexDigits(f: string)
    requires |f| <= 4 && AllDigits(f, 16)
    ensures |HexDigits(DigitsValue(f, 16))| <= 4
  {
    DigitsValueBound(f, 16);
    PowBMono(16, |f|, 4);
    assert PowB(16, 4) == 65536;
    HexDigitsLength(DigitsValue(f, 16), 4);
  }

  /** Zero-filling keeps the value; a string already as wide as the width
      is left alone. */
  lemma ZeroFillAny(h: string, w: nat)
    requires h != [] && AllLowerHex(h)
    ensures var z := ZeroFill(h, w);
      && |z| == (if |h| <= w then w else |h|) && AllLowerHex(z) && AllDigits(z, 16)
      && AllDigits(h, 16) && DigitsValue(z, 16) == DigitsValue(h, 16)
  {
    AllLowerHexDigits(h);
    if |h| <= w {
      ZeroFillHex(h, w);
    } else {
      RepeatLength("0", w - |h|);
      assert Repeat("0", w - |h|) == [];
      assert ZeroFill(h, w) == h;
    }
  }

  lemma RStripNoSpace(s: string)
    requires s == [] || !IsSpace(s[|s| - 1])
    ensures RStripSpace(s) == s
  {
  }

  /** The digit part of `0x` followed by digits is those digits. */
  lemma DigitPartHex(s: string)
    requires |s| >= 3 && s[0] == '0' && s[1] == 'x' && !IsSpace(s[|s| - 1])
    ensures RStripSpace(LStripSpace(s)) == s && DigitPart(s, 16) == s[2..]
  {
    LStripNoSpace(s);
    RStripNoSpace(s);
  }

  /** The same after a minus sign. */
  lemma DigitPartNegHex(n: string)
    requires |n| >= 4 && n[0] == '-' && n[1] == '0' && n[2] == 'x' && !IsSpace(n[|n| - 1])
    ensures RStripSpace(LStripSpace(n)) == n && DigitPart(n, 16) == n[3..]
  {
    LStripNoSpace(n);
    RStripNoSpace(n);
    var s := n[1..];
    LStripNoSpace(s);
    DigitPartHex(s);
    assert s[2..] == n[3..];
  }

  /** `int(s, base)` of a string with nothing to strip around it and no
      minus sign. */
  lemma ParseStrippedPlain(s: string, base: nat, d: string)
    requires 2 <= base <= 36 && RStripSpace(LStripSpace(s)) == s && s != [] && s[0] != '-'
    requires DigitPart(s, base) == d && d != [] && AllDigits(d, base)
    ensures ParseInt(s, base) == Some(DigitsValue(d, base) as int)
  {
  }

  /** The same with a minus sign. */
  lemma ParseStrippedMinus(s: string, base: nat, d: string)
    requires 2 <= base <= 36 && RStripSpace(LStripSpace(s)) == s && s != [] && s[0] == '-'
    requires DigitPart(s, base) == d && d != [] && AllDigits(d, base)
    ensures ParseInt(s, base) == Some(-(DigitsValue(d, base) as int))
  {
  }

  /** `int(s, 16)` reads back the `0x` and `-0x` spellings of lower-case
      digits. */
  lemma ParseHexPrefixed(d: string)
    requires d != [] && AllLowerHex(d)
    ensures AllDigits(d, 16)
    ensures ParseInt("0x" + d, 16) == Some(DigitsValue(d, 16) as int)
    ensures ParseInt("-0x" + d, 16) == Some(-(DigitsValue(d, 16) as int))
  {
    AllLowerHexDigits(d);
    ParseHexPlain(d);
    ParseHexMinus(d);
  }

  lemma ParseHexPlain(d: string)
    requires d != [] && AllLowerHex(d) && AllDigits(d, 16)
    ensures ParseInt("0x" + d, 16) == Some(DigitsValue(d, 16) as int)
  {
    var s := "0x" + d;
    assert IsLowerHex(d[|d| - 1]);
    assert s[|s| - 1] == d[|d| - 1];
    DigitPartHex(s);
    assert s[2..] == d;
    assert s[0] == '0';
    ParseStrippedPlain(s, 16, d);
  }

  lemma ParseHexMinus(d: string)
    requires d != [] && AllLowerHex(d) && AllDigits(d, 16)
    ensures ParseInt("-0x" + d, 16) == Some(-(DigitsValue(d, 16) as int))
  {
    var n := "-0x" + d;
    assert IsLowerHex(d[|d| - 1]);
    assert n[|n| - 1] == d[|d| - 1];
    DigitPartNegHex(n);
    assert n[3..] == d;
    assert n[0] == '-';
    ParseStrippedMinus(n, 16, d);
  }
}
