/** The names `access(2)` modes and `open(2)` flags print with
    (`params.py`), with the values of Linux (`posix` on x86-64). */
module Params {
  import opened Base
  import opened Text
  import opened Bits

  const F_OK: nat := 0
  const X_OK: nat := 1
  const W_OK: nat := 2
  const R_OK: nat := 4

  /** `access_names`. */
  const ACCESS_NAMES: map<nat, string> := map[F_OK := "F_OK", R_OK := "R_OK", W_OK := "W_OK", X_OK := "X_OK"]

  /** The order `for perm in access_names` visits the keys: a Python 2
      dictionary of small integers yields them by value. */
  const ACCESS_ORDER: seq<nat> := [F_OK, X_OK, W_OK, R_OK]

  /** `perm & mode` for a permission below 8 and any integer mode: only the
      three low bits of the mode's two's-complement form take part. */
  function PermAnd(perm: nat, mode: int): nat
    requires perm < 8
  {
    And(perm, mode % 8)
  }

  /** The names the loop of `access_str` collects from the first `i` keys. */
  function AccessNames(mode: int, i: nat): seq<string>
    requires i <= |ACCESS_ORDER|
  {
    if i == 0 then []
    else
      var perm := ACCESS_ORDER[i - 1];
      AccessNames(mode, i - 1) + (if PermAnd(perm, mode) != 0 then [ACCESS_NAMES[perm]] else [])
  }

  /** The names `access_str` joins: `F_OK` when nothing was collected. */
  function AccessList(mode: int): seq<string> {
    var l := AccessNames(mode, |ACCESS_ORDER|);
    if l == [] then [ACCESS_NAMES[F_OK]] else l
  }

  /** `access_str(mode)`. */
  method AccessStr(mode: int) returns (r: string)
    ensures r == Join(AccessList(mode), "|")
  {
    var list: seq<string> := [];
    for i := 0 to |ACCESS_ORDER|
      invariant list == AccessNames(mode, i)
    {
      var perm := ACCESS_ORDER[i];
      if PermAnd(perm, mode) != 0 {
        list := list + [ACCESS_NAMES[perm]];
      }
    }
    if |list| == 0 {
      list := list + [ACCESS_NAMES[F_OK]];
    }
    r := Join(list, "|");
  }

  lemma LowBit(mode: int, k: nat)
    requires k < 3
    ensures Bit(mode % 8, k) == Bit(mode, k)
  {
    var q := mode / 8;
    var m := mode % 8;
    assert mode == 8 * q + m;
    if k == 0 {
      assert Pow2(0) == 1;
      DivModUnique(mode, 2, 4 * q + m / 2, m % 2);
    } else if k == 1 {
      assert Pow2(1) == 2;
      DivModUnique(mode, 2, 4 * q + m / 2, m % 2);
      DivModUnique(mode / 2, 2, 2 * q + m / 4, (m / 2) % 2);
    } else {
      assert Pow2(2) == 4;
      DivModUnique(mode, 4, 2 * q + m / 4, m % 4);
      DivModUnique(mode / 4, 2, q + m / 8, (m / 4) % 2);
    }
  }

  /** `perm & mode` for one permission bit tests that bit of the mode. */
  lemma PermBit(mode: int, k: nat, perm: nat)
    requires k < 3 && perm == Pow2(k) && perm < 8
    ensures PermAnd(perm, mode) != 0 <==> Bit(mode, k) == 1
  {
    AndComm(perm, mode % 8);
    AndPow2Cases(mode % 8, k);
    LowBit(mode, k);
  }

  /** The names of the set permission bits, execute first. */
  function SetPerms(mode: int): seq<string> {
    (if Bit(mode, 0) == 1 then ["X_OK"] else [])
      + (if Bit(mode, 1) == 1 then ["W_OK"] else [])
      + (if Bit(mode, 2) == 1 then ["R_OK"] else [])
  }

  /** What `access_str` prints: `F_OK` alone when none of the three low
      bits is set, otherwise the set ones among `X_OK`, `W_OK`, `R_OK` in
      that order. */
  lemma AccessListBits(mode: int)
    ensures AccessList(mode) == (if SetPerms(mode) == [] then ["F_OK"] else SetPerms(mode))
  {
    assert Pow2(0) == 1 && Pow2(1) == 2 && Pow2(2) == 4;
    PermBit(mode, 0, 1);
    PermBit(mode, 1, 2);
    PermBit(mode, 2, 4);
    assert PermAnd(0, mode) == 0;
    var x: seq<string> := if Bit(mode, 0) == 1 then ["X_OK"] else [];
    var w: seq<string> := if Bit(mode, 1) == 1 then ["W_OK"] else [];
    var r: seq<string> := if Bit(mode, 2) == 1 then ["R_OK"] else [];
    assert AccessNames(mode, 1) == [];
    assert AccessNames(mode, 2) == x;
    assert AccessNames(mode, 3) == x + w;
    assert AccessNames(mode, 4) == x + w + r;
  }

  /** `F_OK` is printed exactly when the mode has none of the three
      permission bits, and then alone; each of the others is printed
      exactly when its bit is set. */
  lemma AccessStrNames(mode: int)
    ensures "F_OK" in AccessList(mode) <==> mode % 8 == 0
    ensures "F_OK" in AccessList(mode) ==> AccessList(mode) == ["F_OK"]
    ensures "X_OK" in AccessList(mode) <==> Bit(mode, 0) == 1
    ensures "W_OK" in AccessList(mode) <==> Bit(mode, 1) == 1
    ensures "R_OK" in AccessList(mode) <==> Bit(mode, 2) == 1
  {
    AccessListBits(mode);
    LowBit(mode, 0);
    LowBit(mode, 1);
    LowBit(mode, 2);
    var m := mode % 8;
    assert Pow2(0) == 1 && Pow2(1) == 2 && Pow2(2) == 4;
    assert m == 0 <==> Bit(m, 0) == 0 && Bit(m, 1) == 0 && Bit(m, 2) == 0;
  }

  /** The printed string splits back into the names. */
  lemma AccessStrSplits(mode: int)
    ensures Split(Join(AccessList(mode), "|"), '|') == AccessList(mode)
  {
    AccessListBits(mode);
    var l := AccessList(mode);
    assert forall i :: 0 <= i < |l| ==> l[i] in ["F_OK", "X_OK", "W_OK", "R_OK"];
    SplitJoin(l, '|');
  }

  // Open flags.

  const O_RDONLY: int := 0
  const O_WRONLY: int := 1
  const O_RDWR: int := 2
  const O_CREAT: int := 64
  const O_EXCL: int := 128
  const O_NOCTTY: int := 256
  const O_TRUNC: int := 512
  const O_APPEND: int := 1024
  const O_ASYNC: int := 8192
  const O_DIRECTORY: int := 65536
  const O_NOFOLLOW: int := 131072
  const O_NOATIME: int := 262144

  /** `access_flag_list`. */
  const ACCESS_FLAGS: seq<int> := [O_RDONLY, O_WRONLY, O_RDWR]

  /** `open_flag_map`. */
  const OPEN_FLAG_MAP: map<int, string> := map[
    O_RDONLY := "O_RDONLY", O_WRONLY := "O_WRONLY", O_RDWR := "O_RDWR",
    O_CREAT := "O_CREAT", O_EXCL := "O_EXCL", O_NOCTTY := "O_NOCTTY",
    O_TRUNC := "O_TRUNC", O_APPEND := "O_APPEND", O_ASYNC := "O_ASYNC",
    O_DIRECTORY := "O_DIRECTORY", O_NOATIME := "O_NOATIME", O_NOFOLLOW := "O_NOFOLLOW"]

  /** Some access flag is among `flags`. */
  predicate HasAccessFlag(flags: seq<int>) {
    exists i :: 0 <= i < |ACCESS_FLAGS| && ACCESS_FLAGS[i] in flags
  }

  /** The flags `oflag_str` names: the given ones, behind `O_RDONLY` (the
      flag with no bit set) when no access flag is given. */
  function FlagList(flags: seq<int>): seq<int> {
    if 0 in ACCESS_FLAGS && !HasAccessFlag(flags) then [0] + flags else flags
  }

  /** The names of `fl`, in order; the lookup of a flag `open_flag_map`
      lacks raises `KeyError`. */
  function FlagNames(fl: seq<int>): Result<seq<string>> {
    if fl == [] then Ok([])
    else if fl[|fl| - 1] !in OPEN_FLAG_MAP then Err(KeyError)
    else
      var front :- FlagNames(fl[..|fl| - 1]);
      Ok(front + [OPEN_FLAG_MAP[fl[|fl| - 1]]])
  }

  /** The string `oflag_str` returns, or the error it raises. */
  function OflagResult(flags: seq<int>): Result<string> {
    var names :- FlagNames(FlagList(flags));
    Ok(Join(names, "|"))
  }

  /** `oflag_str(flags)`. */
  method OflagStr(flags: seq<int>) returns (r: Result<string>)
    ensures r == OflagResult(flags)
  {
    var flist: seq<string> := [];
    var flagList := flags;
    if 0 in ACCESS_FLAGS {
      var found := false;
      var j := 0;
      while j < |ACCESS_FLAGS|
        invariant 0 <= j <= |ACCESS_FLAGS|
        invariant found <==> exists i :: 0 <= i < j && ACCESS_FLAGS[i] in flags
        invariant found ==> HasAccessFlag(flags)
      {
        if ACCESS_FLAGS[j] in flags {
          found := true;
          break;
        }
        j := j + 1;
      }
      if !found {
        flagList := [0] + flagList;
      }
    }
    assert flagList == FlagList(flags);
    for i := 0 to |flagList|
      invariant FlagNames(flagList[..i]) == Ok(flist)
    {
      assert flagList[..i + 1][..i] == flagList[..i];
      if flagList[i] !in OPEN_FLAG_MAP {
        ErrSticky(flagList, i + 1);
        return Err(KeyError);
      }
      flist := flist + [OPEN_FLAG_MAP[flagList[i]]];
    }
    assert flagList[..|flagList|] == flagList;
    r := Ok(Join(flist, "|"));
  }

  /** Once a flag is missing, the names of any longer list fail too. */
  lemma {:induction false} ErrSticky(fl: seq<int>, i: nat)
    requires 1 <= i <= |fl| && FlagNames(fl[..i]).Err?
    ensures FlagNames(fl).Err? && FlagNames(fl).error == KeyError
    decreases |fl| - i
  {
    FlagNamesErr(fl[..i]);
    if i < |fl| {
      assert fl[..i + 1][..i] == fl[..i];
      ErrSticky(fl, i + 1);
    } else {
      assert fl[..i] == fl;
    }
  }

  lemma {:induction false} FlagNamesErr(fl: seq<int>)
    ensures FlagNames(fl).Err? ==> FlagNames(fl).error == KeyError
    decreases |fl|
  {
    if fl != [] {
      FlagNamesErr(fl[..|fl| - 1]);
    }
  }

  /** The names are those of the flags one for one, in the same order, and
      the lookup fails exactly when some flag has no name. */
  lemma {:induction false} FlagNamesSpec(fl: seq<int>)
    ensures FlagNames(fl).Ok? <==> forall i :: 0 <= i < |fl| ==> fl[i] in OPEN_FLAG_MAP
    ensures FlagNames(fl).Ok? ==> |FlagNames(fl).value| == |fl|
    ensures FlagNames(fl).Ok? ==> forall i :: 0 <= i < |fl| ==> FlagNames(fl).value[i] == OPEN_FLAG_MAP[fl[i]]
    ensures FlagNames(fl).Err? ==> FlagNames(fl).error == KeyError
    decreases |fl|
  {
    FlagNamesErr(fl);
    if fl != [] {
      var front := fl[..|fl| - 1];
      FlagNamesSpec(front);
      assert forall i :: 0 <= i < |front| ==> front[i] == fl[i];
    }
  }

  /** `O_RDONLY` is put in front exactly when none of `O_RDONLY`, `O_WRONLY`,
      `O_RDWR` is given; the given flags follow in their own order. */
  lemma FlagListSpec(flags: seq<int>)
    ensures var fl := FlagList(flags);
      (!(O_RDONLY in flags || O_WRONLY in flags || O_RDWR in flags) ==> fl == [O_RDONLY] + flags)
      && ((O_RDONLY in flags || O_WRONLY in flags || O_RDWR in flags) ==> fl == flags)
  {
    if O_RDONLY in flags {
      assert ACCESS_FLAGS[0] in flags;
    } else if O_WRONLY in flags {
      assert ACCESS_FLAGS[1] in flags;
    } else if O_RDWR in flags {
      assert ACCESS_FLAGS[2] in flags;
    }
    assert 0 in ACCESS_FLAGS;
  }

  /** A flag without a name is among the given ones, not the `O_RDONLY`
      put in front. */
  lemma FlagListUnnamed(flags: seq<int>)
    ensures (exists i :: 0 <= i < |FlagList(flags)| && FlagList(flags)[i] !in OPEN_FLAG_MAP)
      <==> exists i :: 0 <= i < |flags| && flags[i] !in OPEN_FLAG_MAP
  {
    var fl := FlagList(flags);
    FlagListSpec(flags);
    if fl != flags {
      assert fl == [0] + flags;
      assert forall i :: 0 <= i < |flags| ==> fl[i + 1] == flags[i];
      assert fl[0] in OPEN_FLAG_MAP;
      assert forall i :: 1 <= i < |fl| ==> fl[i] == flags[i - 1];
    }
  }

  /** `oflag_str` raises `KeyError` exactly when it is given a flag with no
      name. */
  lemma OflagStrErrors(flags: seq<int>)
    ensures OflagResult(flags).Err? <==> exists i :: 0 <= i < |flags| && flags[i] !in OPEN_FLAG_MAP
    ensures OflagResult(flags).Err? ==> OflagResult(flags).error == KeyError
  {
    FlagNamesSpec(FlagList(flags));
    FlagListUnnamed(flags);
  }

  /** Otherwise it prints the names of the flags (after `O_RDONLY` when no
      access flag is given) so that splitting at `|` gives them back. */
  lemma OflagStrSplits(flags: seq<int>)
    requires OflagResult(flags).Ok? && FlagList(flags) != []
    ensures FlagNames(FlagList(flags)).Ok?
    ensures Split(OflagResult(flags).value, '|') == FlagNames(FlagList(flags)).value
  {
    var fl := FlagList(flags);
    FlagNamesSpec(fl);
    var names := FlagNames(fl).value;
    NamesHaveNoBar();
    forall i | 0 <= i < |names| ensures '|' !in names[i] {
      assert names[i] == OPEN_FLAG_MAP[fl[i]];
    }
    SplitJoin(names, '|');
  }

  /** No flag name holds a `|`. */
  lemma NamesHaveNoBar()
    ensures forall f :: f in OPEN_FLAG_MAP ==> '|' !in OPEN_FLAG_MAP[f]
  {
  }
}
