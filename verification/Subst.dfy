/** cld_subst: replacement in a string the allocator owns, growing the block first.

    The block size the allocator reports counts its own overhead of HEADER + 1 bytes, so a string block of
    `n` usable bytes is reported as n + OVERHEAD; the constant empty string is reported as 0. */
module Subst {
  import opened CStrings

  const OVERHEAD := 17

  datatype Outcome = Replaced(bufLen: int) | InternalError

  ghost predicate Reported(str: seq<char>, blockSize: nat) {
    && IsCStr(str)
    && (blockSize == |str| + OVERHEAD || (blockSize == 0 && Text(str) == ""))
  }

  /** What the caller asks for with `all`: cld_replace_string takes any non-zero value as "all". */
  function Wanted(s: string, search: string, all: int): nat
    requires search != ""
  {
    if all != 0 || Count(s, search) == 0 then Count(s, search) else 1
  }

  /** The usable size cld_subst asks the allocator for. */
  function NewSize(s: string, search: string, subst: string, all: int, blockSize: nat): int
    requires search != ""
  {
    var n: nat := if all == 1 then Count(s, search) else if IndexOf(s, search) >= 0 then 1 else 0;
    Size(blockSize, |subst| - |search|, n)
  }

  /** The replacement runs out of the memory that was provided for it. */
  predicate Overruns(s: string, search: string, subst: string, all: int, blockSize: nat)
    requires search != ""
  {
    && |search| < |subst|
    && all != 0 && all != 1
    && Size(|s|, |subst| - |search|, Count(s, search)) >= NewSize(s, search, subst, all, blockSize)
    && Count(s, search) > 0
  }

  /** cld_subst; `out` is where *src points on return. */
  method Subst(src: array<char>, blockSize: nat, search: string, subst: string, all: int)
    returns (r: Outcome, out: array<char>)
    requires Reported(src[..], blockSize) && search != "" && NUL !in subst
    modifies src
    ensures var s := old(Text(src[..]));
            && (r.InternalError? <==> Overruns(s, search, subst, all, blockSize))
            && (r.Replaced? ==> IsCStr(out[..]) && Text(out[..]) == ReplaceN(s, search, subst, Wanted(s, search, all)))
    ensures r.Replaced? ==> r.bufLen == blockSize || r.bufLen == out.Length
  {
    hide IsCStr, ReplaceN, Count, Fitting, Size, Done;
    ghost var s := Text(src[..]);
    ghost var g := |subst| - |search|;
    ghost var m := Wanted(s, search, all);
    out := src;
    CountFound(s, search);
    FittingAll(|s|, g, m, blockSize);
    assert s[..0] == "" && s[0..] == s && "" + ReplaceN(s, search, subst, m) == ReplaceN(s, search, subst, m);
    if |search| >= |subst| {
      NoGrowth(|s|, g, m);
      var occ, last := ReplaceString(src, 0, blockSize, search, subst, all != 0);
      return (if occ == -1 then InternalError else Replaced(blockSize)), src;
    }
    var countSearch: nat;
    if all == 1 {
      countSearch := CountSubstring(Text(src[..]), search);
    } else {
      countSearch := if IndexOf(Text(src[..]), search) >= 0 then 1 else 0;
    }
    if countSearch == 0 {
      NothingToReplace(s, search, subst);
      return Replaced(blockSize), src;
    }
    var newLen := Size(blockSize, |subst| - |search|, countSearch);
    Growth(|s|, g, m, blockSize, countSearch);
    FittingAll(|s|, g, m, newLen);
    out := NewCString(Text(src[..]), newLen);
    var occ, last := ReplaceString(out, 0, newLen, search, subst, all != 0);
    r := if occ == -1 then InternalError else Replaced(newLen);
  }

  lemma NoGrowth(len: nat, g: int, m: nat)
    requires g <= 0
    ensures g == 0 ==> Size(len, g, m) == len
  {
  }

  lemma Growth(len: nat, g: int, m: nat, blockSize: nat, n: nat)
    requires g > 0 && n > 0 && len < blockSize
    ensures len < Size(blockSize, g, n)
    ensures m == n ==> Size(len, g, m) < Size(blockSize, g, n)
  {
    assert n * g >= 0;
  }

  lemma NothingToReplace(s: string, p: string, t: string)
    requires p != "" && Count(s, p) == 0
    ensures ReplaceN(s, p, t, 0) == s
  {
  }

  lemma CountFound(s: string, p: string)
    requires p != ""
    ensures IndexOf(s, p) >= 0 <==> Count(s, p) > 0
  {
  }

  /** `s` is in a block of just its size, and replacing in it overruns. */
  predicate OverrunsTight(s: string, search: string, subst: string, all: int) {
    search != "" && Overruns(s, search, subst, all, |s| + 1 + OVERHEAD)
  }

  const LONG := "bbbbbbbbbbbbbbbbbbbbbbbbbbbbbbb"

  /** The internal error can be reached exactly when `all` is neither 0 nor 1: the size computation takes
      such a value as "first occurrence only", the replacement as "all occurrences". */
  lemma InternalErrorIff(all: int)
    ensures (exists s, search, subst :: OverrunsTight(s, search, subst, all)) <==> all != 0 && all != 1
  {
    if all != 0 && all != 1 {
      assert |LONG| == 31;
      assert At("aa", 0, "a") && At("aa", 1, "a");
      assert "aa"[1..] == "a" && "a"[1..] == "";
      assert At("a", 0, "a");
      assert IndexOf("aa", "a") == 0 && IndexOf("a", "a") == 0 && IndexOf("", "a") == -1;
      assert Count("aa", "a") == 1 + Count("a", "a");
      assert Count("a", "a") == 1 + Count("", "a");
      assert OverrunsTight("aa", "a", LONG, all);
    }
  }
}
