/** Parameter lists with whitespace between their parts, and the lists that are refused (cld.c). */
module ParamSpacing {
  import opened CStrings
  import opened CharMaps
  import opened ParamList

  predicate Spaces(w: string) {
    forall k :: 0 <= k < |w| ==> IsSpace(w[k])
  }

  /** Text that holds neither an unescaped quote nor an unescaped comma, and does not escape what follows. */
  predicate Inert(t: string) {
    AllEscaped(t) && !Escaped(t, |t|)
  }

  // ----- Where a parameter ends

  /** The first unescaped quote or comma. */
  lemma FirstMark(pre: string, t: string, post: string)
    requires !Escaped(pre, |pre|) && Inert(t) && (post != "" ==> post[0] in "\",")
    ensures FindUnescaped(pre + t + post, |pre|, "\",") == |pre| + |t|
  {
    var s := pre + t + post;
    forall k | |pre| <= k < |pre| + |t| && s[k] in "\"," ensures Escaped(s, k) {
      assert t[k - |pre|] == s[k];
      assert Escaped(t, k - |pre|);
    }
    assert t != "" ==> s[|pre| + |t| - 1] == t[|t| - 1];
    FindIs(s, |pre|, "\",", |pre| + |t|);
  }

  lemma SkippedSpace(s: string, i: nat, w: string)
    requires i + |w| <= |s| && s[i..i + |w|] == w && Spaces(w) && (i + |w| < |s| ==> !IsSpace(s[i + |w|]))
    ensures SkipSpace(s, i) == i + |w|
    decreases |w|
  {
    if w != "" {
      assert s[i] == w[0];
      assert s[i + 1..i + 1 + |w[1..]|] == w[1..];
      SkippedSpace(s, i + 1, w[1..]);
    }
  }

  function Quoted(lead: string, v: string): string {
    lead + ("\"" + (v + "\""))
  }

  lemma QuotedParts(pre: string, lead: string, v: string, w: string, post: string)
    ensures var s := pre + Quoted(lead, v) + (w + post);
            var m, q := |pre| + |lead|, |pre| + |lead| + |v| + 1;
            && s == pre + lead + ("\"" + (v + "\"" + (w + post))) && s[m] == '"' && s[m + 1..q] == v && s[q] == '"'
            && s[q + 1..q + 1 + |w|] == w && |s| == q + 1 + |w| + |post|
            && (post != "" ==> s[q + 1 + |w|] == post[0])
  {
  }

  /** Behind a quoted parameter and whitespace comes a comma or the end; anything else is an error. */
  lemma QuotedEnds(pre: string, lead: string, v: string, w: string, post: string)
    requires !Escaped(pre, |pre|) && Inert(lead) && QuotesEscaped(v) && !Escaped(v, |v|)
    requires Spaces(w) && (post != "" ==> !IsSpace(post[0]))
    ensures var stop := |pre| + |Quoted(lead, v)|;
            BoundsAt(pre + Quoted(lead, v) + (w + post), |pre|) ==
            if post == "" then Bounds(stop, stop + |w|)
            else if post[0] == ',' then Bounds(stop, stop + |w| + 1)
            else NoBounds(ExpectedComma)
  {
    hide FindUnescaped, QuotesEscaped, AllEscaped, Quoted, SkipSpace;
    var s := pre + Quoted(lead, v) + (w + post);
    QuotedParts(pre, lead, v, w, post);
    QuotedSize(lead, v);
    FirstMark(pre, lead, "\"" + (v + "\"" + (w + post)));
    ClosingQuote(s, |pre| + |lead| + 1, v);
    SkippedSpace(s, |pre| + |lead| + |v| + 2, w);
  }

  lemma QuotedSize(lead: string, v: string)
    ensures |Quoted(lead, v)| == |lead| + |v| + 2
  {
  }

  /** A quote that is opened and not closed is an error. */
  lemma QuoteUnclosed(pre: string, lead: string, v: string)
    requires !Escaped(pre, |pre|) && Inert(lead) && QuotesEscaped(v)
    ensures BoundsAt(pre + lead + ("\"" + v), |pre|) == NoBounds(Unterminated)
  {
    hide AllEscaped, FindUnescaped;
    var s, m := pre + lead + ("\"" + v), |pre| + |lead|;
    FirstMark(pre, lead, "\"" + v);
    forall k | m + 1 <= k < |s| && s[k] in "\"" ensures Escaped(s, k) {
      assert v[k - m - 1] == s[k];
      assert Escaped(v, k - m - 1);
    }
    FindIs(s, m + 1, "\"", |s|);
  }

  /** A plain parameter ends at the comma, and the whitespace behind that is skipped. */
  lemma PlainEnds(pre: string, t: string, w: string, post: string)
    requires !Escaped(pre, |pre|) && Inert(t) && Spaces(w) && (post != "" ==> !IsSpace(post[0]))
    ensures var stop := |pre| + |t|;
            && BoundsAt(pre + t + ("," + (w + post)), |pre|) == Bounds(stop, stop + 1 + |w|)
            && BoundsAt(pre + t, |pre|) == Bounds(stop, stop)
  {
    hide AllEscaped, FindUnescaped, SkipSpace;
    var s := pre + t + ("," + (w + post));
    FirstMark(pre, t, "," + (w + post));
    FirstMark(pre, t, "");
    assert pre + t + "" == pre + t;
    var m := |pre| + |t|;
    assert s[m] == ',' && s[m + 1..m + 1 + |w|] == w && (post != "" ==> s[m + 1 + |w|] == post[0]);
    SkippedSpace(s, m + 1, w);
  }

  // ----- Lists that are refused

  /** The errors, in the first parameter of what is left of a list. */
  lemma Refused(pre: string, lead: string, v: string, w: string, post: string)
    requires !Escaped(pre, |pre|) && Inert(lead) && QuotesEscaped(v)
    ensures ParseFrom(pre + lead + ("\"" + v), |pre|) == Rejected(Unterminated)
    ensures !Escaped(v, |v|) && Spaces(w) && post != "" && !IsSpace(post[0]) && post[0] != ',' ==>
              ParseFrom(pre + Quoted(lead, v) + (w + post), |pre|) == Rejected(ExpectedComma)
    ensures !Escaped(v, |v|) && Spaces(w) && (post == "" || post[0] == ',') && |lead| + |v| + 2 >= 250 ==>
              ParseFrom(pre + Quoted(lead, v) + (w + post), |pre|) == Rejected(TooLong)
    ensures Spaces(w) && (post != "" ==> !IsSpace(post[0])) && |lead| >= 250 ==>
              ParseFrom(pre + lead, |pre|) == ParseFrom(pre + lead + ("," + (w + post)), |pre|) == Rejected(TooLong)
  {
    hide BoundsAt, Stored, Quoted, AllEscaped, QuotesEscaped, Escaped, Spaces;
    QuoteUnclosed(pre, lead, v);
    QuotedSize(lead, v);
    if !Escaped(v, |v|) && Spaces(w) && (post == "" || !IsSpace(post[0])) { QuotedEnds(pre, lead, v, w, post); }
    if Spaces(w) && (post == "" || !IsSpace(post[0])) { PlainEnds(pre, lead, w, post); }
  }

  // ----- Lists with whitespace

  /** A parameter as it may be written, with whitespace around it. */
  datatype Spaced = Spaced(before: string, p: Param, behind: string)

  predicate Neat(x: Spaced) {
    && Spaces(x.before) && Spaces(x.behind) && Printable(x.p)
    && |x.before| + |Printed(x.p)| + |x.behind| <= CLD_MAX_QUERY_INPUT_LEN - 1
  }

  function Spelled(x: Spaced): string {
    x.before + (Printed(x.p) + x.behind)
  }

  function SpelledList(xs: seq<Spaced>): string
    requires xs != []
  {
    if |xs| == 1 then Spelled(xs[0]) else Spelled(xs[0]) + ("," + SpelledList(xs[1..]))
  }

  function KeptAll(xs: seq<Spaced>): seq<Param> {
    if xs == [] then [] else [Kept(xs[0].p)] + KeptAll(xs[1..])
  }

  lemma SpacesInert(w: string)
    requires Spaces(w)
    ensures Inert(w)
  {
  }

  lemma InertConcat(a: string, b: string)
    requires Inert(a) && Inert(b)
    ensures Inert(a + b)
  {
    var s := a + b;
    forall k | 0 <= k < |s| && s[k] in "\"," ensures Escaped(s, k) {
      if k < |a| {
        assert Escaped(a, k);
      } else {
        assert b[k - |a|] == s[k];
        assert Escaped(b, k - |a|);
      }
    }
  }

  /** Whitespace around a parameter is not stored. */
  lemma StoredSpaced(x: Spaced, behind: string)
    requires Neat(x) && Spaces(behind)
    ensures Stored(x.before + (Printed(x.p) + behind)) == Kept(x.p)
  {
    hide Trim, MapChars, Deescape;
    var t := Printed(x.p);
    StoredPrinted(x.p);
    TrimPrinted(x.p);
    TrimMiddle(x.before, t, behind);
    assert x.before + (t + behind) == x.before + t + behind;
  }

  lemma TrimPrinted(p: Param)
    requires Printable(p)
    ensures var t := Printed(p); Trim(t) == t && (t != "" ==> !IsSpace(t[0]) && !IsSpace(t[|t| - 1]))
  {
    hide TrimLeft, TrimRight, MapChars, QuotesEscaped;
    var t := Printed(p);
    if p.isStr {
      TrimUnique(t, 0, |t|);
      assert t[0..|t|] == t;
    } else {
      PlainPrinted(p.value);
      if t != "" { TrimEnds(t); }
    }
  }

  lemma TrimEnds(t: string)
    requires Trim(t) == t && t != ""
    ensures !IsSpace(t[0]) && !IsSpace(t[|t| - 1])
  {
    hide TrimLeft, TrimRight;
  }

  lemma PlainInert(x: Spaced)
    requires Neat(x) && !x.p.isStr
    ensures Inert(Spelled(x))
  {
    hide AllEscaped, Escaped, MapChars, Trim, Spaces;
    SpacesInert(x.before);
    SpacesInert(x.behind);
    CommasEscaped(x.p.value);
    InertConcat(Printed(x.p), x.behind);
    InertConcat(x.before, Printed(x.p) + x.behind);
  }

  /** What is left of a parameter whose leading whitespace is skipped. */
  function Skipped(x: Spaced): Spaced {
    if Printed(x.p) == "" then Spaced("", x.p, "") else x.(before := "")
  }

  /** The whitespace that is skipped then. */
  function Skip(x: Spaced): string {
    if Printed(x.p) == "" then x.before + x.behind else x.before
  }

  lemma SkippedIs(x: Spaced)
    requires Neat(x)
    ensures Neat(Skipped(x)) && Skipped(x).p == x.p && Spaces(Skip(x)) && Spelled(x) == Skip(x) + Spelled(Skipped(x))
    ensures Spelled(Skipped(x)) != "" ==> !IsSpace(Spelled(Skipped(x))[0])
    ensures Spelled(Skipped(x)) == "" <==> Printed(x.p) == ""
  {
    hide Printed, Printable, Spaces;
    var t := Printed(x.p);
    TrimPrinted(x.p);
    NoSpaces();
    SkippedText(x.before, t, x.behind);
    if t == "" { SpacesConcat(x.before, x.behind); }
  }

  lemma SkippedText(a: string, t: string, b: string)
    ensures "" + ("" + "") == "" && "" + (t + b) == t + b
    ensures t == "" ==> a + (t + b) == (a + b) + ""
    ensures t != "" ==> t + b != "" && (t + b)[0] == t[0]
  {
  }

  lemma SpacesConcat(a: string, b: string)
    requires Spaces(a) && Spaces(b)
    ensures Spaces(a + b)
  {
  }

  function SkippedList(xs: seq<Spaced>): seq<Spaced>
    requires xs != []
  {
    [Skipped(xs[0])] + xs[1..]
  }

  lemma SpelledFirst(xs: seq<Spaced>)
    requires xs != [] && Neat(xs[0])
    ensures var ys := SkippedList(xs);
            && ys[1..] == xs[1..] && Spaces(Skip(xs[0])) && SpelledList(xs) == Skip(xs[0]) + SpelledList(ys)
            && (SpelledList(ys) == "" ==> |xs| == 1 && Printed(xs[0].p) == "")
            && (SpelledList(ys) != "" ==> !IsSpace(SpelledList(ys)[0]))
  {
    hide Spelled, Printed, Neat, Skipped, Skip, Spaces;
    SkippedIs(xs[0]);
    if |xs| > 1 { Assoc(Skip(xs[0]), Spelled(Skipped(xs[0])), "," + SpelledList(xs[1..])); }
  }

  /** One parameter in front of others. */
  lemma PieceSpaced(pre: string, x: Spaced, w: string, post: string)
    requires !Escaped(pre, |pre|) && Neat(x) && Spaces(w) && (post != "" ==> !IsSpace(post[0]))
    ensures var s, stop := pre + Spelled(x), |pre| + |Spelled(x)| - (if x.p.isStr then |x.behind| else 0);
            && BoundsAt(s, |pre|) == Bounds(stop, |s|) && stop - |pre| <= CLD_MAX_QUERY_INPUT_LEN - 1
            && Stored(s[|pre|..stop]) == Kept(x.p)
    ensures var s, stop := pre + Spelled(x) + ("," + (w + post)), |pre| + |Spelled(x)| - (if x.p.isStr then |x.behind| else 0);
            && BoundsAt(s, |pre|) == Bounds(stop, |pre| + |Spelled(x)| + 1 + (if x.p.isStr then 0 else |w|))
            && stop - |pre| <= CLD_MAX_QUERY_INPUT_LEN - 1 && Stored(s[|pre|..stop]) == Kept(x.p)
  {
    hide BoundsAt, Stored, Trim, AllEscaped, QuotesEscaped, MapChars, Escaped, Spaces, Inert;
    var more := "," + (w + post);
    if x.p.isStr {
      SpacesInert(x.before);
      QuotedSpelled(pre, x, "");
      QuotedSpelled(pre, x, more);
      QuotedEnds(pre, x.before, x.p.value, x.behind, "");
      QuotedEnds(pre, x.before, x.p.value, x.behind, more);
      QuotedSize(x.before, x.p.value);
      NoSpaces();
      StoredSpaced(x, "");
    } else {
      PlainInert(x);
      PlainEnds(pre, Spelled(x), w, post);
      StoredSpaced(x, x.behind);
      assert (pre + Spelled(x))[|pre|..|pre + Spelled(x)|] == Spelled(x);
      assert (pre + Spelled(x) + more)[|pre|..|pre| + |Spelled(x)|] == Spelled(x);
    }
  }

  lemma NoSpaces()
    ensures Spaces("")
  {
  }

  lemma QuotedSpelled(pre: string, x: Spaced, more: string)
    requires x.p.isStr
    ensures var q := Quoted(x.before, x.p.value);
            && pre + Spelled(x) + more == pre + q + (x.behind + more) && pre + Spelled(x) + "" == pre + Spelled(x)
            && |Spelled(x)| == |q| + |x.behind| && q == x.before + (Printed(x.p) + "")
            && (pre + Spelled(x) + more)[|pre|..|pre| + |q|] == q
  {
  }

  /** However much whitespace is around its parameters, a list is parsed as its parameters, unless an empty plain one is
      its last of several. */
  lemma {:induction false} SpacedIsParsed(pre: string, xs: seq<Spaced>)
    requires xs != [] && !Escaped(pre, |pre|) && forall k :: 0 <= k < |xs| ==> Neat(xs[k])
    requires |xs| > 1 ==> xs[|xs| - 1].p != Param(false, "")
    ensures ParseFrom(pre + SpelledList(xs), |pre|) == Accepted(KeptAll(xs))
    decreases |xs|
  {
    hide BoundsAt, Stored, Spelled, Printed, Neat, Kept, Skipped, Skip, Escaped, Spaces;
    var x := xs[0];
    NoSpaces();
    if |xs| == 1 {
      PieceSpaced(pre, x, "", "");
      assert KeptAll(xs[1..]) == [];
    } else {
      var rest := xs[1..];
      var ys := SkippedList(rest);
      SpelledFirst(rest);
      PrintedEmpty(rest[0].p);
      SkippedIs(rest[0]);
      var w, post := Skip(rest[0]), SpelledList(ys);
      PieceSpaced(pre, x, w, post);
      AfterComma(pre, Spelled(x), w, post);
      if x.p.isStr {
        SpacedIsParsed(pre + Spelled(x) + ",", rest);
      } else {
        SpacedIsParsed(pre + Spelled(x) + "," + w, ys);
      }
    }
  }

  lemma PrintedEmpty(p: Param)
    ensures Printed(p) == "" ==> p == Param(false, "")
  {
    hide Image;
    if !p.isStr && p.value != "" { MapGrows(p.value, COMMA); }
  }

  lemma AfterComma(pre: string, t: string, w: string, post: string)
    requires Spaces(w)
    ensures var a, s := pre + t + ",", pre + t + ("," + (w + post));
            && s == a + (w + post) == a + w + post == pre + (t + ("," + (w + post)))
            && !Escaped(a, |a|) && !Escaped(a + w, |a + w|)
  {
  }
}
