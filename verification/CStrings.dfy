/** C strings in character buffers, and the string kernel of cldrtc.c.

    A buffer is an `array<char>`; the string that starts at `base` in it is `TextAt(buf[..], base)`,
    the characters up to the first NUL.  `strstr` is `IndexOf`, `strlen` is the length of that text. */
module CStrings {

  const NUL: char := '\0'

  // ----- Searching

  predicate At(s: string, k: int, p: string) {
    0 <= k && k + |p| <= |s| && s[k..k + |p|] == p
  }

  lemma AtShift(s: string, d: nat, k: nat, p: string)
    requires d <= |s|
    ensures At(s[d..], k, p) <==> At(s, d + k, p)
  {
    if d + k + |p| <= |s| {
      assert s[d..][k..k + |p|] == s[d + k..d + k + |p|];
    }
  }

  lemma AtLeft(a: string, b: string, k: nat, p: string)
    requires k + |p| <= |a|
    ensures At(a + b, k, p) <==> At(a, k, p)
  {
    assert (a + b)[k..k + |p|] == a[k..k + |p|];
  }

  lemma AtRight(a: string, b: string, k: nat, p: string)
    ensures At(a + b, |a| + k, p) <==> At(b, k, p)
  {
    assert (a + b)[|a|..] == b;
    AtShift(a + b, |a|, k, p);
  }

  function Scan(s: string, p: string, from: nat): (r: int)
    requires from <= |s|
    ensures r == -1 || (from <= r <= |s| && At(s, r, p))
    ensures forall k :: from <= k < (if r < 0 then |s| + 1 else r) ==> !At(s, k, p)
    decreases |s| - from
  {
    if At(s, from, p) then from
    else if from == |s| then -1
    else Scan(s, p, from + 1)
  }

  /** `strstr`: the leftmost position at which `p` occurs, or -1. */
  function IndexOf(s: string, p: string): (r: int)
    ensures r == -1 || (0 <= r <= |s| - |p| && At(s, r, p))
    ensures forall k :: 0 <= k < (if r < 0 then |s| + 1 else r) ==> !At(s, k, p)
  {
    Scan(s, p, 0)
  }

  lemma AtSplit(s: string, k: int, a: string, b: string)
    ensures At(s, k, a + b) <==> At(s, k, a) && At(s, k + |a|, b)
  {
    if 0 <= k && k + |a| + |b| <= |s| {
      var x := s[k..k + |a| + |b|];
      assert x == s[k..k + |a|] + s[k + |a|..k + |a| + |b|];
      if x == a + b {
        assert x[..|a|] == a && x[|a|..] == b;
      }
    }
  }

  lemma AtChar(s: string, k: int, p: string, j: nat)
    requires At(s, k, p) && j < |p|
    ensures s[k + j] == p[j]
  {
    assert s[k..k + |p|][j] == p[j];
  }

  /** When no occurrence starts inside `a`, the search goes on in `b`. */
  lemma IndexSkip(a: string, b: string, p: string)
    requires forall k :: 0 <= k < |a| ==> !At(a + b, k, p)
    ensures IndexOf(a + b, p) == if IndexOf(b, p) < 0 then -1 else |a| + IndexOf(b, p)
  {
    var r, q := IndexOf(a + b, p), IndexOf(b, p);
    if r >= 0 {
      assert At(a + b, r, p);
      AtRight(a, b, r - |a|, p);
    }
    if q >= 0 {
      AtRight(a, b, q, p);
    }
  }

  // ----- Counting and replacing, on values

  function Count(s: string, p: string): nat
    requires p != ""
    decreases |s|
  {
    var i := IndexOf(s, p);
    if i < 0 then 0 else 1 + Count(s[i + |p|..], p)
  }

  /** Every leftmost, non-overlapping occurrence of `p` becomes `t`; inserted text is not searched again. */
  function ReplaceAll(s: string, p: string, t: string): string
    requires p != ""
    decreases |s|
  {
    var i := IndexOf(s, p);
    if i < 0 then s else s[..i] + t + ReplaceAll(s[i + |p|..], p, t)
  }

  /** What is still to be searched after the first `n` occurrences. */
  function Rest(s: string, p: string, n: nat): string
    requires p != ""
  {
    if n == 0 then s else
      var r := Rest(s, p, n - 1);
      var i := IndexOf(r, p);
      if i < 0 then r else r[i + |p|..]
  }

  /** The finished part after the first `n` replacements: it ends with the last inserted text. */
  function Done(s: string, p: string, t: string, n: nat): string
    requires p != ""
  {
    if n == 0 then "" else
      var r := Rest(s, p, n - 1);
      var i := IndexOf(r, p);
      if i < 0 then Done(s, p, t, n - 1) else Done(s, p, t, n - 1) + r[..i] + t
  }

  function ReplaceN(s: string, p: string, t: string, n: nat): string
    requires p != ""
  {
    Done(s, p, t, n) + Rest(s, p, n)
  }

  lemma CountOnce(r: string, p: string)
    requires p != ""
    ensures IndexOf(r, p) < 0 <==> Count(r, p) == 0
    ensures IndexOf(r, p) >= 0 ==>
              IndexOf(r, p) + |p| <= |r| && Count(r, p) == 1 + Count(r[IndexOf(r, p) + |p|..], p)
  {
  }

  lemma RestOnce(s: string, p: string, n: nat)
    requires p != "" && n > 0
    ensures var r := Rest(s, p, n - 1);
            Rest(s, p, n) == if IndexOf(r, p) < 0 then r else r[IndexOf(r, p) + |p|..]
  {
  }

  lemma {:induction false} CountProgress(s: string, p: string, n: nat)
    requires p != "" && n <= Count(s, p)
    ensures Count(s, p) == n + Count(Rest(s, p, n), p)
    ensures n > 0 ==> IndexOf(Rest(s, p, n - 1), p) >= 0
  {
    hide IndexOf, At, Count;
    if n > 0 {
      CountProgress(s, p, n - 1);
      CountOnce(Rest(s, p, n - 1), p);
      RestOnce(s, p, n);
    }
  }

  lemma Assoc(a: string, b: string, c: string)
    ensures a + (b + c) == a + b + c
  {
  }

  lemma Regroup(d: string, x: string, t: string, y: string)
    ensures d + (x + t + y) == d + x + t + y
  {
  }

  lemma ReplaceOnce(d: string, r: string, p: string, t: string)
    requires p != "" && IndexOf(r, p) >= 0
    ensures IndexOf(r, p) + |p| <= |r|
    ensures d + ReplaceAll(r, p, t) == d + r[..IndexOf(r, p)] + t + ReplaceAll(r[IndexOf(r, p) + |p|..], p, t)
  {
    hide IndexOf, At;
    var i := IndexOf(r, p);
    Regroup(d, r[..i], t, ReplaceAll(r[i + |p|..], p, t));
  }

  lemma {:induction false} ReplaceProgress(s: string, p: string, t: string, n: nat)
    requires p != "" && n <= Count(s, p)
    ensures ReplaceAll(s, p, t) == Done(s, p, t, n) + ReplaceAll(Rest(s, p, n), p, t)
  {
    hide IndexOf, At, Count, ReplaceAll;
    if n > 0 {
      ReplaceProgress(s, p, t, n - 1);
      CountProgress(s, p, n);
      ReplaceOnce(Done(s, p, t, n - 1), Rest(s, p, n - 1), p, t);
    } else {
      assert "" + ReplaceAll(s, p, t) == ReplaceAll(s, p, t);
    }
  }

  lemma {:induction false} LengthProgress(s: string, p: string, t: string, n: nat)
    requires p != "" && n <= Count(s, p)
    ensures |Done(s, p, t, n)| + |Rest(s, p, n)| == |s| + n * (|t| - |p|)
  {
    hide IndexOf, Count;
    if n > 0 {
      LengthProgress(s, p, t, n - 1);
      CountProgress(s, p, n);
      MulStep(n - 1, |t| - |p|);
    }
  }

  lemma MulStep(n: nat, g: int)
    ensures (n + 1) * g == n * g + g
  {
  }

  /** After `Count` replacements nothing is left to replace, and the result is `ReplaceAll`. */
  lemma ReplaceNAll(s: string, p: string, t: string)
    requires p != ""
    ensures ReplaceN(s, p, t, Count(s, p)) == ReplaceAll(s, p, t)
    ensures |ReplaceAll(s, p, t)| == Size(|s|, |t| - |p|, Count(s, p))
  {
    hide At, Scan;
    CountProgress(s, p, Count(s, p));
    ReplaceProgress(s, p, t, Count(s, p));
    LengthProgress(s, p, t, Count(s, p));
  }

  lemma CutView(pre: string, d: string, r: string)
    ensures (pre + (d + r))[|pre| + |d|..] == r
  {
  }

  lemma CutConcat(pre: string, d: string, r: string, i: nat, n: nat, t: string)
    requires i + n <= |r|
    ensures var x := pre + (d + r);
            var f := |pre| + |d| + i;
            pre + ((d + r[..i] + t) + r[i + n..]) == x[..f] + t + x[f + n..]
  {
    var x := pre + (d + r);
    var f := |pre| + |d| + i;
    assert x[..f] == pre + d + r[..i];
    assert x[f + n..] == r[i + n..];
  }

  /** The text after `n` replacements behind `pre`. */
  function Partly(pre: string, s: string, p: string, t: string, n: nat): string
    requires p != ""
  {
    pre + ReplaceN(s, p, t, n)
  }

  lemma ReplaceView(pre: string, s: string, p: string, t: string, n: nat)
    requires p != "" && n <= Count(s, p)
    ensures IndexOf(Rest(s, p, n), p) < 0 <==> n == Count(s, p)
    ensures |Partly(pre, s, p, t, n)| == |pre| + Size(|s|, |t| - |p|, n)
    ensures |pre| + |Done(s, p, t, n)| <= |Partly(pre, s, p, t, n)|
    ensures Partly(pre, s, p, t, n)[|pre| + |Done(s, p, t, n)|..] == Rest(s, p, n)
  {
    hide At, IndexOf, Done, Rest;
    LengthProgress(s, p, t, n);
    CountProgress(s, p, n);
    CutView(pre, Done(s, p, t, n), Rest(s, p, n));
  }

  /** The next replacement, as a cut in the text made so far. */
  lemma ReplaceStep(pre: string, s: string, p: string, t: string, n: nat)
    requires p != "" && n < Count(s, p)
    ensures var x := Partly(pre, s, p, t, n);
            var f := |pre| + |Done(s, p, t, n)| + IndexOf(Rest(s, p, n), p);
            && IndexOf(Rest(s, p, n), p) >= 0
            && f + |p| <= |x|
            && Partly(pre, s, p, t, n + 1) == x[..f] + t + x[f + |p|..]
            && |pre| + |Done(s, p, t, n + 1)| == f + |t|
  {
    hide At, Count, IndexOf, Done, Rest;
    DoneStep(s, p, t, n);
    CutConcat(pre, Done(s, p, t, n), Rest(s, p, n), IndexOf(Rest(s, p, n), p), |p|, t);
  }

  lemma DoneStep(s: string, p: string, t: string, n: nat)
    requires p != "" && n < Count(s, p)
    ensures var r := Rest(s, p, n);
            var i := IndexOf(r, p);
            && 0 <= i <= |r| - |p|
            && Rest(s, p, n + 1) == r[i + |p|..]
            && Done(s, p, t, n + 1) == Done(s, p, t, n) + r[..i] + t
  {
    hide At;
    CountProgress(s, p, n + 1);
  }

  /** The length after `n` replacements that each change it by `g`. */
  function Size(len: int, g: int, n: nat): int {
    len + n * g
  }

  /** How many of `m` replacements, each changing the length by `g`, fit when `cap` bytes (with the
      NUL) are available. */
  function Fitting(len: int, g: int, m: nat, cap: int): (k: nat)
    ensures k <= m
    decreases m
  {
    if m == 0 || len + g + 1 > cap then 0 else 1 + Fitting(len + g, g, m - 1, cap)
  }

  lemma {:induction false} FittingAll(len: int, g: int, m: nat, cap: int)
    ensures Fitting(len, g, m, cap) == m <==>
            m == 0 || (if g >= 0 then Size(len, g, m) < cap else len + g < cap)
    ensures g >= 0 ==> len <= Size(len, g, m)
    decreases m
  {
    if m > 0 && len + g + 1 <= cap {
      FittingAll(len + g, g, m - 1, cap);
      MulStep(m - 1, g);
    } else if m > 0 && g >= 0 {
      MulStep(m - 1, g);
      assert (m - 1) * g >= 0;
    }
  }

  lemma StartPartly(text: string, start: nat, p: string, t: string)
    requires p != "" && start <= |text|
    ensures var pre, s := text[..start], text[start..];
            Done(s, p, t, 0) == "" && Partly(pre, s, p, t, 0) == text && Size(|s|, |t| - |p|, 0) == |s|
  {
  }

  lemma StartReplace(s: string, p: string, t: string)
    requires p != ""
    ensures Done(s, p, t, 0) == "" && ReplaceN(s, p, t, 0) == s && Size(|s|, |t| - |p|, 0) == |s|
  {
  }

  /** When all occurrences are to be replaced, -1 comes exactly when the final text (or, for a shrinking
      replacement, the first intermediate one) exceeds the buffer; otherwise the result is `ReplaceAll`. */
  lemma WholeReplace(s: string, p: string, t: string, cap: int)
    requires p != ""
    ensures Fitting(|s|, |t| - |p|, Count(s, p), cap) == Count(s, p) <==>
            || Count(s, p) == 0
            || (if |t| >= |p| then |ReplaceAll(s, p, t)| < cap else |s| + |t| - |p| < cap)
    ensures "" + ReplaceN(s, p, t, Count(s, p)) == ReplaceAll(s, p, t)
    ensures Count(s, p) == 0 ==> ReplaceAll(s, p, t) == s
    ensures |t| >= |p| ==> |s| <= |ReplaceAll(s, p, t)|
  {
    hide ReplaceAll, ReplaceN, Fitting, Size, Count;
    FittingAll(|s|, |t| - |p|, Count(s, p), cap);
    ReplaceNAll(s, p, t);
    if Count(s, p) == 0 {
      StartReplace(s, p, t);
    }
  }

  lemma {:induction false} FittingStep(len: int, g: int, m: nat, cap: int, k: nat)
    requires k <= Fitting(len, g, m, cap)
    ensures k < Fitting(len, g, m, cap) <==> k < m && Size(len, g, k) + g + 1 <= cap
    ensures Size(len, g, k + 1) == Size(len, g, k) + g
    decreases m
  {
    MulStep(k, g);
    if k > 0 {
      FittingStep(len + g, g, m - 1, cap, k - 1);
      MulStep(k - 1, g);
    }
  }

  // ----- Texts in buffers

  function NulIndex(a: seq<char>, k: nat): (r: nat)
    requires k <= |a|
    ensures k <= r <= |a| && (r < |a| ==> a[r] == NUL)
    ensures forall j :: k <= j < r ==> a[j] != NUL
    decreases |a| - k
  {
    if k == |a| || a[k] == NUL then k else NulIndex(a, k + 1)
  }

  predicate IsCStr(a: seq<char>) {
    NulIndex(a, 0) < |a|
  }

  /** The C string at the start of a buffer: the characters before the first NUL. */
  function Text(a: seq<char>): (s: string)
    ensures |s| <= |a| && NUL !in s
    ensures forall k :: 0 <= k < |s| ==> s[k] == a[k] != NUL
    ensures IsCStr(a) ==> |s| < |a| && a[|s|] == NUL
  {
    a[..NulIndex(a, 0)]
  }

  lemma TextIs(a: seq<char>, s: string)
    requires |s| < |a| && NUL !in s && a[|s|] == NUL
    requires forall k :: 0 <= k < |s| ==> a[k] == s[k]
    ensures IsCStr(a) && Text(a) == s
  {
    var r := NulIndex(a, 0);
    assert forall k :: 0 <= k < |s| ==> a[k] == s[k] && s[k] in s;
    assert a[..|s|] == s;
  }

  lemma CopiedText(b: seq<char>, s: string)
    requires |s| < |b| && NUL !in s
    ensures IsCStr(Copied(b, 0, s + [NUL])) && Text(Copied(b, 0, s + [NUL])) == s
  {
    hide IsCStr, Text;
    TextIs(Copied(b, 0, s + [NUL]), s);
  }

  function Moved(b: seq<char>, dst: nat, src: nat, n: nat): (c: seq<char>)
    requires dst + n <= |b| && src + n <= |b|
    ensures |c| == |b|
    ensures forall k :: 0 <= k < |b| ==> c[k] == if dst <= k < dst + n then b[src + k - dst] else b[k]
  {
    b[..dst] + b[src..src + n] + b[dst + n..]
  }

  function Copied(b: seq<char>, dst: nat, s: string): (c: seq<char>)
    requires dst + |s| <= |b|
    ensures |c| == |b|
    ensures forall k :: 0 <= k < |b| ==> c[k] == if dst <= k < dst + |s| then s[k - dst] else b[k]
  {
    b[..dst] + s + b[dst + |s|..]
  }

  method Memmove(a: array<char>, dst: nat, src: nat, n: nat)
    requires dst + n <= a.Length && src + n <= a.Length
    modifies a
    ensures a[..] == Moved(old(a[..]), dst, src, n)
  {
    forall k | 0 <= k < n { a[dst + k] := a[src + k]; }
  }

  method Memcpy(a: array<char>, dst: nat, s: string)
    requires dst + |s| <= a.Length
    modifies a
    ensures a[..] == Copied(old(a[..]), dst, s)
  {
    forall k | 0 <= k < |s| { a[dst + k] := s[k]; }
  }

  /** A fresh buffer of `size` bytes holding `s` (strcpy into new memory). */
  method NewCString(s: string, size: nat) returns (a: array<char>)
    requires |s| < size && NUL !in s
    ensures fresh(a) && a.Length == size && IsCStr(a[..]) && Text(a[..]) == s
  {
    hide IsCStr, Text;
    a := new char[size](_ => NUL);
    Memcpy(a, 0, s);
    TextIs(a[..], s);
  }

  method CountSubstring(str: string, find: string) returns (count: nat)
    requires find != ""
    ensures count == Count(str, find)
  {
    count := 0;
    var tmp := str;
    var i := IndexOf(tmp, find);
    while i >= 0
      invariant i == IndexOf(tmp, find)
      invariant Count(str, find) == count + Count(tmp, find)
      decreases |tmp|
    {
      count := count + 1;
      tmp := tmp[i + |find|..];
      i := IndexOf(tmp, find);
    }
  }

  /** One cut-and-install step: `text` becomes text[..f] + subst + text[f + lenf..]. */
  method Splice(buf: array<char>, f: nat, lenf: nat, subst: string)
    requires IsCStr(buf[..]) && f + lenf <= |Text(buf[..])| && NUL !in subst
    requires |Text(buf[..])| - lenf + |subst| < buf.Length
    modifies buf
    ensures IsCStr(buf[..])
    ensures Text(buf[..]) == old(Text(buf[..]))[..f] + subst + old(Text(buf[..]))[f + lenf..]
  {
    hide IsCStr, Moved, Copied;
    var len := |Text(buf[..])|;
    SplicedText(buf[..], f, lenf, subst);
    Memmove(buf, f + |subst|, f + lenf, len - (f + lenf) + 1);
    Memcpy(buf, f, subst);
  }

  lemma SplicedText(b: seq<char>, f: nat, lenf: nat, subst: string)
    requires IsCStr(b) && f + lenf <= |Text(b)| && NUL !in subst && |Text(b)| - lenf + |subst| < |b|
    ensures var d := Copied(Moved(b, f + |subst|, f + lenf, |Text(b)| - (f + lenf) + 1), f, subst);
            IsCStr(d) && Text(d) == Text(b)[..f] + subst + Text(b)[f + lenf..]
  {
    hide IsCStr;
    var s := Text(b);
    var c := Moved(b, f + |subst|, f + lenf, |s| - (f + lenf) + 1);
    var d := Copied(c, f, subst);
    var r := s[..f] + subst + s[f + lenf..];
    assert d[|r|] == c[|r|] == b[|s|];
    TextIs(d, r);
  }

  /** cld_replace_string on the string that starts at `start` in the buffer's text: `last` is the position
      just past the last inserted text, -1 for a null pointer.  On -1 the text holds exactly the
      replacements that fitted before the first one that did not. */
  method ReplaceString(buf: array<char>, start: nat, strsize: int, find: string, subst: string, all: bool)
    returns (occ: int, last: int)
    requires IsCStr(buf[..]) && start <= |Text(buf[..])|
    requires start + strsize <= buf.Length || |subst| <= |find|
    requires find != "" && NUL !in subst
    modifies buf
    ensures IsCStr(buf[..])
    ensures var pre, s := old(Text(buf[..]))[..start], old(Text(buf[..]))[start..];
            var m := if all || Count(s, find) == 0 then Count(s, find) else 1;
            var k := Fitting(|s|, |subst| - |find|, m, strsize);
            && occ == (if k == m then m else -1)
            && Text(buf[..]) == Partly(pre, s, find, subst, k)
            && last == (if k == 0 then -1 else start + |Done(s, find, subst, k)|)
  {
    hide IsCStr, Text, IndexOf, At, Count, Done, Rest, Partly, Fitting, Size;
    ghost var pre, s := Text(buf[..])[..start], Text(buf[..])[start..];
    ghost var m := if all || Count(s, find) == 0 then Count(s, find) else 1;
    ghost var g := |subst| - |find|;
    var currsize := |Text(buf[..])| - start + 1;
    occ := 0;
    last := -1;
    var curr := start;
    StartPartly(Text(buf[..]), start, find, subst);
    while true
      invariant 0 <= occ <= Fitting(|s|, g, m, strsize)
      invariant IsCStr(buf[..]) && |Text(buf[..])| + 1 == start + currsize
      invariant currsize == Size(|s|, g, occ) + 1
      invariant Text(buf[..]) == Partly(pre, s, find, subst, occ)
      invariant curr == start + |Done(s, find, subst, occ)|
      invariant last == if occ == 0 then -1 else curr
      invariant all || occ == 0
      decreases m - occ
    {
      ReplaceView(pre, s, find, subst, occ);
      FittingStep(|s|, g, m, strsize, occ);
      var i := IndexOf(Text(buf[..])[curr..], find);
      if i < 0 { break; }
      ReplaceStep(pre, s, find, subst, occ);
      currsize := currsize - |find| + |subst|;
      if currsize > strsize {
        return -1, last;
      }
      Splice(buf, curr + i, |find|, subst);
      curr := curr + i + |subst|;
      last := curr;
      occ := occ + 1;
      if !all { break; }
    }
  }

  // ----- Whitespace

  predicate IsSpace(c: char) {
    c == ' ' || ('\t' <= c && c <= '\r')
  }

  /** The space and the five control characters from the tab on. */
  lemma SpaceCodes(c: char)
    ensures IsSpace(c) <==> c as int == 32 || c as int in [9, 10, 11, 12, 13]
  {
  }

  function TrimLeft(s: string): (r: string)
    ensures |r| <= |s| && r == s[|s| - |r|..]
    ensures forall k :: 0 <= k < |s| - |r| ==> IsSpace(s[k])
    ensures r != "" ==> !IsSpace(r[0])
  {
    if s != "" && IsSpace(s[0]) then TrimLeft(s[1..]) else s
  }

  function TrimRight(s: string): (r: string)
    ensures |r| <= |s| && r == s[..|r|]
    ensures forall k :: |r| <= k < |s| ==> IsSpace(s[k])
    ensures r != "" ==> !IsSpace(r[|r| - 1])
  {
    if s != "" && IsSpace(s[|s| - 1]) then TrimRight(s[..|s| - 1]) else s
  }

  function Trim(s: string): string {
    TrimRight(TrimLeft(s))
  }

  /** The trimmed string is the one block of `s` outside which all is whitespace and which neither
      begins nor ends with whitespace. */
  lemma TrimUnique(s: string, i: nat, j: nat)
    requires i <= j <= |s|
    requires forall k :: 0 <= k < i || j <= k < |s| ==> IsSpace(s[k])
    requires i < j ==> !IsSpace(s[i]) && !IsSpace(s[j - 1])
    ensures Trim(s) == s[i..j]
  {
    hide TrimLeft, TrimRight;
    if i < j {
      TrimLeftIs(s, i);
      TrimRightIs(s[i..], j - i);
      assert s[i..][..j - i] == s[i..j];
    } else {
      TrimLeftIs(s, |s|);
      TrimRightIs(s[|s|..], 0);
    }
  }

  lemma {:induction false} TrimLeftIs(s: string, i: nat)
    requires i <= |s| && forall k :: 0 <= k < i ==> IsSpace(s[k])
    requires i < |s| ==> !IsSpace(s[i])
    ensures TrimLeft(s) == s[i..]
  {
    if i > 0 {
      assert forall k :: 0 <= k < |s[1..]| ==> s[1..][k] == s[k + 1];
      TrimLeftIs(s[1..], i - 1);
    }
  }

  lemma {:induction false} TrimRightIs(s: string, n: nat)
    requires n <= |s| && forall k :: n <= k < |s| ==> IsSpace(s[k])
    requires n > 0 ==> !IsSpace(s[n - 1])
    ensures TrimRight(s) == s[..n]
    decreases |s|
  {
    if n < |s| {
      TrimRightIs(s[..|s| - 1], n);
    }
  }

  /** cld_trim. */
  method TrimBuffer(str: array<char>, len: nat) returns (newLen: nat)
    requires IsCStr(str[..]) && len == |Text(str[..])|
    modifies str
    ensures IsCStr(str[..])
    ensures Text(str[..]) == Trim(old(Text(str[..])))
    ensures newLen == |Text(str[..])|
  {
    hide IsCStr, Trim, Text, Moved;
    ghost var s := Text(str[..]);
    var i := LeadingSpaces(str, len);
    TrimMoved(str[..], i);
    Memmove(str, 0, i, len - i + 1);
    newLen := TrimEnd(str, len - i);
    TrimParts(s, i, newLen);
  }

  method LeadingSpaces(str: array<char>, len: nat) returns (i: nat)
    requires IsCStr(str[..]) && len == |Text(str[..])|
    ensures i <= len < str.Length && forall k :: 0 <= k < i ==> IsSpace(Text(str[..])[k])
    ensures i < len ==> !IsSpace(Text(str[..])[i])
  {
    hide IsCStr;
    i := 0;
    while IsSpace(str[i])
      invariant 0 <= i <= len
      invariant forall k :: 0 <= k < i ==> IsSpace(Text(str[..])[k])
      decreases len - i
    {
      i := i + 1;
    }
  }

  lemma TrimParts(s: string, first: nat, n: nat)
    requires first + n <= |s|
    requires forall k :: 0 <= k < first ==> IsSpace(s[k])
    requires forall k :: n <= k < |s| - first ==> IsSpace(s[first..][k])
    requires first < |s| ==> !IsSpace(s[first])
    requires n > 0 ==> !IsSpace(s[first..][n - 1])
    ensures Trim(s) == s[first..][..n]
  {
    forall k | first + n <= k < |s| ensures IsSpace(s[k]) {
      assert s[k] == s[first..][k - first];
    }
    TrimUnique(s, first, first + n);
  }

  lemma TrimMoved(b: seq<char>, first: nat)
    requires IsCStr(b) && first <= |Text(b)|
    ensures |Text(b)| < |b|
    ensures var c := Moved(b, 0, first, |Text(b)| - first + 1);
            IsCStr(c) && Text(c) == Text(b)[first..]
  {
    hide IsCStr;
    var s := Text(b);
    var c := Moved(b, 0, first, |s| - first + 1);
    assert c[|s| - first] == b[|s|];
    TextIs(c, s[first..]);
  }

  /** The second half of cld_trim: the NUL goes after the last character that is no whitespace. */
  method TrimEnd(str: array<char>, len: nat) returns (newLen: nat)
    requires IsCStr(str[..]) && len == |Text(str[..])|
    modifies str
    ensures IsCStr(str[..]) && newLen <= len
    ensures Text(str[..]) == old(Text(str[..]))[..newLen]
    ensures forall k :: newLen <= k < len ==> IsSpace(old(Text(str[..]))[k])
    ensures newLen > 0 ==> !IsSpace(old(Text(str[..]))[newLen - 1])
  {
    hide IsCStr;
    ghost var b := str[..];
    var i: int := len - 1;
    while i >= 0 && IsSpace(str[i])
      invariant -1 <= i < len
      invariant forall k :: i < k < len ==> IsSpace(Text(b)[k])
    {
      i := i - 1;
    }
    str[i + 1] := NUL;
    newLen := i + 1;
    assert str[..] == b[newLen := NUL];
    TextIs(str[..], Text(b)[..newLen]);
  }
}
