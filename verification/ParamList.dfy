/** Comma-separated parameter lists of run-query and exec-program (cld.c): how the compiler takes one apart,
    and which lists survive being written down and parsed again. */
module ParamList {
  import opened CStrings
  import opened CharMaps

  const CLD_MAX_QUERY_INPUT_LEN := 250

  datatype Param = Param(isStr: bool, value: string)

  datatype ParseError = Unterminated | ExpectedComma | TooLong

  datatype Parsed = Accepted(params: seq<Param>) | Rejected(error: ParseError)

  // ----- Searching

  /** The character before is a backslash. */
  predicate Escaped(s: string, k: int) {
    0 < k <= |s| && s[k - 1] == '\\'
  }

  /** The first character of `cs` from `i` on that is not escaped, or the end. */
  function FindUnescaped(s: string, i: nat, cs: string): (m: nat)
    requires i <= |s|
    ensures i <= m <= |s| && (m < |s| ==> s[m] in cs && !Escaped(s, m))
    ensures forall k :: i <= k < m && s[k] in cs ==> Escaped(s, k)
    decreases |s| - i
  {
    if i == |s| || (s[i] in cs && !Escaped(s, i)) then i else FindUnescaped(s, i + 1, cs)
  }

  lemma FindIs(s: string, i: nat, cs: string, m: nat)
    requires i <= m <= |s| && (m < |s| ==> s[m] in cs && !Escaped(s, m))
    requires forall k :: i <= k < m && s[k] in cs ==> Escaped(s, k)
    ensures FindUnescaped(s, i, cs) == m
  {
  }

  /** strcspn */
  function Span(s: string, i: nat, cs: string): (m: nat)
    requires i <= |s|
    ensures i <= m <= |s| && (m < |s| ==> s[m] in cs)
    ensures forall k :: i <= k < m ==> s[k] !in cs
    decreases |s| - i
  {
    if i == |s| || s[i] in cs then i else Span(s, i + 1, cs)
  }

  /** find_unescaped_chars */
  method FindUnescapedChars(s: string, i: nat, cs: string) returns (e: nat)
    requires i <= |s|
    ensures e == FindUnescaped(s, i, cs)
  {
    hide FindUnescaped;
    var start := i;
    while true
      invariant i <= start <= |s|
      invariant forall k :: i <= k < start && s[k] in cs ==> Escaped(s, k)
      decreases |s| - start
    {
      e := Span(s, start, cs);
      if e == |s| || !Escaped(s, e) { break; }
      start := e + 1;
    }
    FindIs(s, i, cs, e);
  }

  function SkipSpace(s: string, i: nat): (j: nat)
    requires i <= |s|
    ensures i <= j <= |s| && (j < |s| ==> !IsSpace(s[j]))
    ensures i < |s| && !IsSpace(s[i]) ==> j == i
    decreases |s| - i
  {
    if i < |s| && IsSpace(s[i]) then SkipSpace(s, i + 1) else i
  }

  // ----- One parameter

  /** Where a parameter ends and where the next one begins. */
  datatype Bounds = Bounds(stop: nat, next: nat) | NoBounds(error: ParseError)

  function BoundsAt(s: string, i: nat): (b: Bounds)
    requires i <= |s|
    ensures b.Bounds? ==> i <= b.stop <= b.next <= |s| && (b.next < |s| ==> i < b.next)
  {
    var m := FindUnescaped(s, i, "\",");
    if m == |s| then Bounds(m, m)
    else if s[m] == '"' then
      var q := FindUnescaped(s, m + 1, "\"");
      if q == |s| then NoBounds(Unterminated) else
        var e := SkipSpace(s, q + 1);
        if e == |s| then Bounds(q + 1, e)
        else if s[e] == ',' then Bounds(q + 1, e + 1)
        else NoBounds(ExpectedComma)
    else Bounds(m, SkipSpace(s, m + 1))
  }

  /** handle_quotes_in_input_param */
  function Unquote(t: string): Param {
    if t != "" && t[0] == '"' then Param(true, if |t| == 1 then "" else t[1..|t| - 1]) else Param(false, t)
  }

  function Deescape(t: string): string {
    ReplaceAll(t, "\\,", ",")
  }

  function Stored(piece: string): Param {
    Unquote(Deescape(Trim(piece)))
  }

  /** What parse_param_list stores for the list that starts at `i`. */
  function ParseFrom(s: string, i: nat): Parsed
    requires i <= |s|
    decreases |s| - i
  {
    var b := BoundsAt(s, i);
    if b.NoBounds? then Rejected(b.error)
    else if b.stop - i > CLD_MAX_QUERY_INPUT_LEN - 1 then Rejected(TooLong)
    else
      var p := Stored(s[i..b.stop]);
      if b.next == |s| then Accepted([p]) else Onto([p], ParseFrom(s, b.next))
  }

  function Onto(stored: seq<Param>, rest: Parsed): Parsed {
    if rest.Rejected? then rest else Accepted(stored + rest.params)
  }

  lemma OntoOnto(stored: seq<Param>, p: Param, rest: Parsed)
    ensures Onto(stored, Onto([p], rest)) == Onto(stored + [p], rest)
    ensures Onto([], rest) == rest
  {
    if rest.Accepted? {
      assert stored + ([p] + rest.params) == stored + [p] + rest.params;
    }
  }

  /** The parameter between two positions: copied out, trimmed, commas de-escaped and quotes removed, all in
      a buffer of its own. */
  method StoreParam(s: string, i: nat, stop: nat) returns (p: Param)
    requires i <= stop <= |s| && NUL !in s && stop - i <= CLD_MAX_QUERY_INPUT_LEN - 1
    ensures p == Stored(s[i..stop])
  {
    hide IsCStr, Text, Trim, ReplaceAll, Count, Fitting, Done, Rest, Size, Partly;
    var inpPar := NewCString(s[i..stop], CLD_MAX_QUERY_INPUT_LEN + 1);
    var parLen := TrimBuffer(inpPar, stop - i);
    ghost var t := Text(inpPar[..]);
    var occ, last := ReplaceString(inpPar, 0, parLen + 1, "\\,", ",", true);
    Shrinks(t);
    assert t[0..] == t && t[..0] == "";
    p := Unquote(Text(inpPar[..]));
  }

  /** De-escaping never needs more room than there is. */
  lemma Shrinks(t: string)
    ensures var m := Count(t, "\\,");
            && Fitting(|t|, -1, m, |t| + 1) == m
            && Partly("", t, "\\,", ",", m) == Deescape(t)
  {
    WholeReplace(t, "\\,", ",", |t| + 1);
    FittingAll(|t|, -1, Count(t, "\\,"), |t| + 1);
  }

  /** The part of parse_param_list that looks for the end of a parameter. */
  method FindBounds(s: string, i: nat) returns (b: Bounds)
    requires i <= |s|
    ensures b == BoundsAt(s, i)
  {
    var milestone := FindUnescapedChars(s, i, "\",");
    var next;
    if milestone < |s| && s[milestone] == '"' {
      milestone := FindUnescapedChars(s, milestone + 1, "\"");
      if milestone == |s| { return NoBounds(Unterminated); }
      milestone := milestone + 1;
      next := SkipSpace(s, milestone);
      if next < |s| {
        if s[next] != ',' { return NoBounds(ExpectedComma); }
        next := next + 1;
      }
    } else if milestone == |s| {
      next := milestone;
    } else {
      next := SkipSpace(s, milestone + 1);
    }
    b := Bounds(milestone, next);
  }

  /** parse_param_list, for the list that starts at `start` in the text of a line. */
  method ParseParamList(s: string, start: nat) returns (r: Parsed)
    requires start <= |s| && NUL !in s
    ensures r == ParseFrom(s, start)
  {
    hide Stored, BoundsAt;
    var params := [];
    var i := start;
    OntoOnto([], Param(false, ""), ParseFrom(s, start));
    while true
      invariant 0 <= i <= |s|
      invariant ParseFrom(s, start) == Onto(params, ParseFrom(s, i))
      decreases |s| - i
    {
      var b := FindBounds(s, i);
      if b.NoBounds? { r := Rejected(b.error); break; }
      if b.stop - i > CLD_MAX_QUERY_INPUT_LEN - 1 { r := Rejected(TooLong); break; }
      var p := StoreParam(s, i, b.stop);
      if b.next == |s| { r := Accepted(params + [p]); break; }
      OntoOnto(params, p, ParseFrom(s, b.next));
      params := params + [p];
      i := b.next;
    }
  }

  // ----- Writing a list down

  const COMMA: Table := map[',' := "\\,"]

  function Printed(p: Param): string {
    if p.isStr then "\"" + p.value + "\"" else MapChars(p.value, COMMA)
  }

  function PrintList(ps: seq<Param>): string
    requires ps != []
  {
    if |ps| == 1 then Printed(ps[0]) else Printed(ps[0]) + "," + PrintList(ps[1..])
  }

  /** Inner quotes escaped, no backslash at the end, plain text without outer whitespace, and not too long. */
  predicate Printable(p: Param) {
    && QuotesEscaped(p.value)
    && !Escaped(p.value, |p.value|)
    && |Printed(p)| <= CLD_MAX_QUERY_INPUT_LEN - 1
    && (!p.isStr ==> Trim(p.value) == p.value)
  }

  predicate QuotesEscaped(v: string) {
    forall k :: 0 <= k < |v| && v[k] == '"' ==> Escaped(v, k)
  }

  /** Every quote and comma is escaped. */
  predicate AllEscaped(t: string) {
    forall k :: 0 <= k < |t| && t[k] in "\"," ==> Escaped(t, k)
  }

  // ----- De-escaping

  lemma NoMatch(c: char, t: string)
    requires t == "" || !(c == '\\' && t[0] == ',')
    ensures !At([c] + t, 0, "\\,")
  {
    var s := [c] + t;
    assert t != "" ==> s[0..2] == [c, t[0]];
  }

  lemma Unmatched(c: char, t: string)
    requires t == "" || !(c == '\\' && t[0] == ',')
    ensures Deescape([c] + t) == [c] + Deescape(t)
  {
    hide At;
    var s := [c] + t;
    NoMatch(c, t);
    IndexSkip([c], t, "\\,");
    var i := IndexOf(t, "\\,");
    if i >= 0 {
      assert s[..i + 1] == [c] + t[..i];
      assert s[i + 3..] == t[i + 2..];
      assert [c] + (t[..i] + "," + Deescape(t[i + 2..])) == [c] + t[..i] + "," + Deescape(t[i + 2..]);
    }
  }

  lemma Matched(t: string)
    ensures Deescape("\\," + t) == "," + Deescape(t)
  {
    var s := "\\," + t;
    assert s[..2] == "\\," && s[2..] == t;
    assert IndexOf(s, "\\,") == 0 by { assert At(s, 0, "\\,"); }
    assert s[..0] + "," == ",";
  }

  lemma DeescapeEmpty()
    ensures Deescape("") == ""
  {
    assert IndexOf("", "\\,") < 0;
  }

  /** De-escaping undoes the escape of commas in any text. */
  lemma {:induction false} DeescapeEscaped(v: string)
    ensures Deescape(MapChars(v, COMMA)) == v
    ensures v != "" ==> MapChars(v, COMMA) != "" && MapChars(v, COMMA)[0] != ','
  {
    hide Deescape;
    if v == "" {
      DeescapeEmpty();
    } else {
      DeescapeEscaped(v[1..]);
      if v[0] == ',' {
        Matched(MapChars(v[1..], COMMA));
      } else {
        Unmatched(v[0], MapChars(v[1..], COMMA));
      }
    }
  }

  // ----- Pieces, one by one

  /** What is stored for a printed parameter. */
  function Kept(p: Param): Param {
    if p.isStr then Param(true, Deescape(p.value)) else p
  }

  /** A quoted value comes back between its quotes. */
  lemma {:induction false} DeescapeQuoted(v: string)
    ensures Deescape(v + "\"") == Deescape(v) + "\""
  {
    hide Deescape;
    if v == "" {
      assert "" + "\"" == ['"'] + "";
      DeescapeEmpty();
      Unmatched('"', "");
    } else if |v| >= 2 && v[..2] == "\\," {
      DeescapeQuoted(v[2..]);
      Matched(v[2..]);
      Matched(v[2..] + "\"");
      assert v == "\\," + v[2..];
      assert v + "\"" == "\\," + (v[2..] + "\"");
    } else {
      DeescapeQuoted(v[1..]);
      assert v == [v[0]] + v[1..];
      assert v + "\"" == [v[0]] + (v[1..] + "\"");
      assert |v| >= 2 ==> v[..2] == [v[0], v[1]];
      Unmatched(v[0], v[1..]);
      Unmatched(v[0], v[1..] + "\"");
    }
  }

  lemma StoredPrinted(p: Param)
    requires Printable(p)
    ensures Stored(Printed(p)) == Kept(p) && |Printed(p)| <= CLD_MAX_QUERY_INPUT_LEN - 1
  {
    hide Deescape, Trim, MapChars;
    var t := Printed(p);
    if p.isStr {
      assert t == ['"'] + (p.value + "\"");
      TrimUnique(t, 0, |t|);
      assert t[0..|t|] == t;
      Unmatched('"', p.value + "\"");
      DeescapeQuoted(p.value);
      var d := Deescape(t);
      assert d == "\"" + Deescape(p.value) + "\"";
      assert d[1..|d| - 1] == Deescape(p.value) && d[0] == '"' && |d| >= 2;
    } else {
      PlainPrinted(p.value);
      DeescapeEscaped(p.value);
      assert !(p.value != "" && p.value[0] == '"') by {
        assert QuotesEscaped(p.value);
      }
    }
  }

  lemma NothingEscaped()
    ensures AllEscaped("")
  {
  }

  lemma AppendEscaped(t: string, c: char)
    requires AllEscaped(t) && (c == '"' ==> Escaped(t, |t|))
    ensures AllEscaped(t + Image(COMMA, c))
    ensures Escaped(t + Image(COMMA, c), |t + Image(COMMA, c)|) <==> c == '\\'
  {
  }

  /** A plain parameter, printed: every quote and comma in it is escaped, and it ends as its value does. */
  lemma {:induction false} CommasEscaped(v: string)
    requires QuotesEscaped(v)
    ensures AllEscaped(MapChars(v, COMMA))
    ensures Escaped(MapChars(v, COMMA), |MapChars(v, COMMA)|) <==> Escaped(v, |v|)
  {
    hide AllEscaped;
    if v == "" {
      NothingEscaped();
    } else {
      var u, c := v[..|v| - 1], v[|v| - 1];
      CommasEscaped(u);
      assert v == u + [c];
      MapConcat(u, [c], COMMA);
      assert MapChars([c], COMMA) == Image(COMMA, c) by { assert [c][1..] == "" && MapChars("", COMMA) == ""; }
      assert c == '"' ==> Escaped(u, |u|);
      AppendEscaped(MapChars(u, COMMA), c);
    }
  }

  lemma PlainPrinted(v: string)
    requires Trim(v) == v
    ensures Trim(MapChars(v, COMMA)) == MapChars(v, COMMA)
  {
    hide Trim, MapChars;
    TrimCommutes(v, COMMA);
  }

  // ----- Pieces in their list

  lemma PlainMilestone(pre: string, t: string, post: string)
    requires !Escaped(pre, |pre|) && AllEscaped(t) && !Escaped(t, |t|)
    requires post == "" || post[0] == ','
    ensures FindUnescaped(pre + t + post, |pre|, "\",") == |pre| + |t|
  {
    var s := pre + t + post;
    forall k | |pre| <= k < |pre| + |t| && s[k] in "\"," ensures Escaped(s, k) {
      assert t[k - |pre|] == s[k];
      assert Escaped(t, k - |pre|);
    }
    FindIs(s, |pre|, "\",", |pre| + |t|);
  }

  lemma OpeningQuote(pre: string, rest: string)
    requires !Escaped(pre, |pre|)
    ensures FindUnescaped(pre + ("\"" + rest), |pre|, "\",") == |pre|
  {
    FindIs(pre + ("\"" + rest), |pre|, "\",", |pre|);
  }

  lemma ClosingQuote(s: string, i: nat, v: string)
    requires i + |v| < |s| && s[i..i + |v|] == v && s[i + |v|] == '"'
    requires !Escaped(s, i) && QuotesEscaped(v) && !Escaped(v, |v|)
    ensures FindUnescaped(s, i, "\"") == i + |v|
  {
    hide QuotesEscaped;
    forall k | i <= k < i + |v| && s[k] == '"' ensures Escaped(s, k) {
      assert v[k - i] == s[k];
      QuoteAt(v, k - i);
    }
    assert v != "" ==> s[i + |v| - 1] == v[|v| - 1];
    FindIs(s, i, "\"", i + |v|);
  }

  lemma QuoteAt(v: string, k: nat)
    requires QuotesEscaped(v) && k < |v| && v[k] == '"'
    ensures Escaped(v, k)
  {
  }

  /** A printed parameter is found from its first character to its last; the next one begins after the comma. */
  lemma PieceBounds(pre: string, p: Param, post: string)
    requires !Escaped(pre, |pre|) && Printable(p)
    requires post == "" || (post[0] == ',' && (|post| >= 2 ==> !IsSpace(post[1])))
    ensures var stop := |pre| + |Printed(p)|;
            BoundsAt(pre + Printed(p) + post, |pre|) == Bounds(stop, if post == "" then stop else stop + 1)
  {
    hide FindUnescaped, QuotesEscaped, AllEscaped, MapChars, Trim, BoundsAt, Escaped;
    if p.isStr {
      QuotedBounds(pre, p.value, post);
    } else {
      CommasEscaped(p.value);
      PlainBounds(pre, Printed(p), post);
    }
  }

  lemma PlainBounds(pre: string, t: string, post: string)
    requires !Escaped(pre, |pre|) && AllEscaped(t) && !Escaped(t, |t|)
    requires post == "" || (post[0] == ',' && (|post| >= 2 ==> !IsSpace(post[1])))
    ensures var stop := |pre| + |t|;
            BoundsAt(pre + t + post, |pre|) == Bounds(stop, if post == "" then stop else stop + 1)
  {
    hide FindUnescaped, AllEscaped, Escaped;
    PlainMilestone(pre, t, post);
  }

  lemma QuotedBounds(pre: string, v: string, post: string)
    requires !Escaped(pre, |pre|) && QuotesEscaped(v) && !Escaped(v, |v|)
    requires post == "" || post[0] == ','
    ensures var t := "\"" + v + "\"";
            var stop := |pre| + |t|;
            BoundsAt(pre + t + post, |pre|) == Bounds(stop, if post == "" then stop else stop + 1)
  {
    hide FindUnescaped, QuotesEscaped;
    var t := "\"" + v + "\"";
    var s := pre + t + post;
    QuotedText(pre, v, post);
    OpeningQuote(pre, v + "\"" + post);
    ClosingQuote(s, |pre| + 1, v);
  }

  lemma QuotedText(pre: string, v: string, post: string)
    ensures pre + ("\"" + v + "\"") + post == pre + ("\"" + (v + "\"" + post))
    ensures (pre + ("\"" + v + "\"") + post)[|pre| + 1..|pre| + 1 + |v|] == v
  {
  }

  // ----- Lists

  /** What is stored for a printed list: an empty plain parameter at the end of a longer list is lost. */
  function KeptList(ps: seq<Param>): seq<Param>
    requires ps != []
  {
    if |ps| == 1 || (|ps| == 2 && ps[1] == Param(false, "")) then [Kept(ps[0])]
    else [Kept(ps[0])] + KeptList(ps[1..])
  }

  lemma FirstKept(v: string)
    requires Trim(v) == v && v != ""
    ensures !IsSpace(v[0])
  {
    hide TrimLeft, TrimRight;
  }

  lemma PrintStart(ps: seq<Param>)
    requires ps != [] && Printable(ps[0])
    ensures PrintList(ps) == "" <==> ps == [Param(false, "")]
    ensures PrintList(ps) != "" ==> !IsSpace(PrintList(ps)[0])
  {
    hide QuotesEscaped, Trim;
    var p := ps[0];
    if !p.isStr && p.value != "" {
      FirstKept(p.value);
      assert Printed(p) == Image(COMMA, p.value[0]) + MapChars(p.value[1..], COMMA);
    }
  }

  lemma {:induction false} ParsePrinted(pre: string, ps: seq<Param>)
    requires ps != [] && !Escaped(pre, |pre|)
    requires forall k :: 0 <= k < |ps| ==> Printable(ps[k])
    ensures ParseFrom(pre + PrintList(ps), |pre|) == Accepted(KeptList(ps))
    decreases |ps|
  {
    hide BoundsAt, Printable, Stored, Printed, Kept;
    var p, t := ps[0], Printed(ps[0]);
    var post := if |ps| == 1 then "" else "," + PrintList(ps[1..]);
    var s := pre + t + post;
    assert s == pre + PrintList(ps);
    if |ps| > 1 { PrintStart(ps[1..]); }
    PieceBounds(pre, p, post);
    assert s[|pre|..|pre| + |t|] == t;
    StoredPrinted(p);
    if |ps| > 1 && PrintList(ps[1..]) != "" {
      var pre1 := pre + t + ",";
      assert s == pre1 + PrintList(ps[1..]);
      ParsePrinted(pre1, ps[1..]);
    }
  }

  /** For every list of parameters that can be written down, behind anything that does not end in a backslash, what
      is parsed is the list, exactly when no quoted value holds an escaped comma and no empty plain parameter ends a
      longer list. */
  lemma RoundTripIff(pre: string, ps: seq<Param>)
    requires !Escaped(pre, |pre|)
    requires ps != [] && forall k :: 0 <= k < |ps| ==> Printable(ps[k])
    ensures ParseFrom(pre + PrintList(ps), |pre|) == Accepted(ps) <==>
            && (forall k :: 0 <= k < |ps| && ps[k].isStr ==> IndexOf(ps[k].value, "\\,") < 0)
            && (|ps| > 1 ==> ps[|ps| - 1] != Param(false, ""))
  {
    hide ParseFrom, PrintList, Printable;
    ParsePrinted(pre, ps);
    KeptListIff(ps);
  }

  lemma {:induction false} KeptListIff(ps: seq<Param>)
    requires ps != []
    ensures KeptList(ps) == ps <==>
            && (forall k :: 0 <= k < |ps| && ps[k].isStr ==> IndexOf(ps[k].value, "\\,") < 0)
            && (|ps| > 1 ==> ps[|ps| - 1] != Param(false, ""))
  {
    hide IndexOf, Kept;
    KeptIff(ps[0]);
    if |ps| > 1 {
      var qs := ps[1..];
      KeptListIff(qs);
      assert ps == [ps[0]] + qs;
      assert forall k :: 0 < k < |ps| ==> ps[k] == qs[k - 1];
      assert forall k :: 0 <= k < |qs| ==> qs[k] == ps[k + 1];
    }
  }

  lemma KeptIff(p: Param)
    ensures Kept(p) == p <==> (p.isStr ==> IndexOf(p.value, "\\,") < 0)
  {
    hide IndexOf, ReplaceAll, ReplaceN;
    var n := Count(p.value, "\\,");
    CountOnce(p.value, "\\,");
    ReplaceNAll(p.value, "\\,", ",");
    WholeReplace(p.value, "\\,", ",", 0);
    assert Size(|p.value|, -1, n) == |p.value| - n;
  }

  /** The two ways in which a list that can be written down comes back as another: a quoted value that holds an escaped
      comma, and an empty plain parameter at the end. */
  lemma LostInParsing()
    ensures ParseFrom(PrintList([Param(true, "a\\,b")]), 0) == Accepted([Param(true, "a,b")])
    ensures ParseFrom(PrintList([Param(false, "a"), Param(false, "")]), 0) == Accepted([Param(false, "a")])
  {
    hide ParseFrom, PrintList, Deescape, Printed, Trim;
    var quoted, plain := [Param(true, "a\\,b")], [Param(false, "a"), Param(false, "")];
    LostArePrintable();
    ParsePrinted("", quoted);
    ParsePrinted("", plain);
    assert "" + PrintList(quoted) == PrintList(quoted) && "" + PrintList(plain) == PrintList(plain);
    CommaDeescaped();
  }

  lemma LostArePrintable()
    ensures Printable(Param(true, "a\\,b")) && Printable(Param(false, "a")) && Printable(Param(false, ""))
  {
    hide Trim;
    TrimUnique("a", 0, 1);
    TrimUnique("", 0, 0);
    assert "a"[0..1] == "a" && ""[0..0] == "";
    assert MapChars("a", COMMA) == "a" && MapChars("", COMMA) == "" by { assert "a"[1..] == ""; }
  }

  lemma CommaDeescaped()
    ensures Deescape("a\\,b") == "a,b"
  {
    hide At;
    var v := "a\\,b";
    CommaPlaces();
    assert v[..1] == "a" && v[3..] == "b";
    assert !At("b", IndexOf("b", "\\,"), "\\,");
  }

  lemma CommaPlaces()
    ensures At("a\\,b", 1, "\\,") && !At("a\\,b", 0, "\\,") && forall i :: !At("b", i, "\\,")
  {
    assert "a\\,b"[1..3] == "\\,";
    assert "a\\,b"[0..2][0] == 'a';
  }
}
