/** Escaping as a single pass over the characters, and why chains of whole-string replacements
    (SQL arguments, HTML error text) amount to such a pass. */
module CharMaps {
  import opened CStrings

  type Table = map<char, string>

  function Image(m: Table, c: char): string {
    if c in m then m[c] else [c]
  }

  /** Every character of `s` replaced by its image, in one pass. */
  function MapChars(s: string, m: Table): string {
    if s == "" then "" else Image(m, s[0]) + MapChars(s[1..], m)
  }

  lemma {:induction false} MapConcat(a: string, b: string, m: Table)
    ensures MapChars(a + b, m) == MapChars(a, m) + MapChars(b, m)
  {
    if a == "" {
      assert a + b == b;
    } else {
      assert (a + b)[1..] == a[1..] + b;
      MapConcat(a[1..], b, m);
    }
  }

  lemma {:induction false} MapNothing(s: string, m: Table)
    requires forall k :: 0 <= k < |s| ==> s[k] !in m
    ensures MapChars(s, m) == s
  {
    if s != "" {
      MapNothing(s[1..], m);
    }
  }

  lemma {:induction false} MapGrows(s: string, m: Table)
    requires forall c :: c in m ==> m[c] != ""
    ensures |s| <= |MapChars(s, m)|
  {
    if s != "" {
      MapGrows(s[1..], m);
    }
  }

  lemma {:induction false} MapClean(s: string, m: Table, x: char)
    requires forall c :: c in m ==> x !in m[c]
    requires x !in s
    ensures x !in MapChars(s, m)
  {
    if s != "" {
      MapClean(s[1..], m, x);
    }
  }

  /** Replacing one character everywhere is a one-entry character map. */
  lemma {:induction false} ReplaceIsMap(s: string, c: char, t: string)
    ensures ReplaceAll(s, [c], t) == MapChars(s, map[c := t])
    decreases |s|
  {
    hide IndexOf, MapChars, At;
    var m := map[c := t];
    var i := IndexOf(s, [c]);
    AtOne(s, c);
    if i < 0 {
      MapNothing(s, m);
    } else {
      MapNothing(s[..i], m);
      MapCut(s, i, m);
      ReplaceIsMap(s[i + 1..], c, t);
    }
  }

  lemma AtOne(s: string, c: char)
    ensures forall k :: 0 <= k < |s| ==> (At(s, k, [c]) <==> s[k] == c)
  {
  }

  lemma MapCut(s: string, i: nat, m: Table)
    requires i < |s|
    ensures MapChars(s, m) == MapChars(s[..i], m) + Image(m, s[i]) + MapChars(s[i + 1..], m)
  {
    var r := s[i + 1..];
    assert s == s[..i] + ([s[i]] + r);
    MapConcat(s[..i], [s[i]] + r, m);
    assert ([s[i]] + r)[1..] == r;
    Assoc(MapChars(s[..i], m), Image(m, s[i]), MapChars(r, m));
  }

  /** Two passes are one pass when the tables compose. */
  lemma {:induction false} MapCompose(s: string, m1: Table, m2: Table, m: Table)
    requires forall c :: MapChars(Image(m1, c), m2) == Image(m, c)
    ensures MapChars(MapChars(s, m1), m2) == MapChars(s, m)
  {
    if s != "" {
      MapCompose(s[1..], m1, m2, m);
      MapConcat(Image(m1, s[0]), MapChars(s[1..], m1), m2);
      assert MapChars(Image(m1, s[0]), m2) == Image(m, s[0]);
    }
  }

  // ----- The SQL escape

  const BACKSLASH: Table := map['\\' := "\\\\"]
  const QUOTE: Table := map['\'' := "''"]
  const SQL: Table := map['\\' := "\\\\", '\'' := "''"]

  lemma SqlComposes(c: char)
    ensures MapChars(Image(BACKSLASH, c), QUOTE) == Image(SQL, c)
  {
    if c == '\\' {
      MapNothing("\\\\", QUOTE);
    } else if c == '\'' {
      assert ['\''][1..] == "";
      assert MapChars("", QUOTE) == "";
      assert MapChars(['\''], QUOTE) == Image(QUOTE, '\'') + MapChars("", QUOTE);
    } else {
      MapNothing([c], QUOTE);
    }
  }

  /** Doubling backslashes in the whole argument and then single quotes is one pass over it. */
  lemma SqlEscapeIsOnePass(s: string)
    ensures ReplaceAll(ReplaceAll(s, "\\", "\\\\"), "'", "''") == MapChars(s, SQL)
  {
    forall c ensures MapChars(Image(BACKSLASH, c), QUOTE) == Image(SQL, c) { SqlComposes(c); }
    assert "\\" == ['\\'] && "'" == ['\''];
    ReplaceIsMap(s, '\\', "\\\\");
    ReplaceIsMap(MapChars(s, BACKSLASH), '\'', "''");
    MapCompose(s, BACKSLASH, QUOTE, SQL);
  }

  // ----- The HTML escape of error text

  const AMP: Table := map['&' := "&amp;"]
  const AMPLT: Table := map['&' := "&amp;", '<' := "&lt;"]
  const AMPLTGT: Table := map['&' := "&amp;", '<' := "&lt;", '>' := "&gt;"]
  const HTML: Table := map['&' := "&amp;", '<' := "&lt;", '>' := "&gt;", '\n' := "<br/>"]

  /** Adding a replacement for `x` after the passes of `m` is one more table entry, provided no
      inserted text contains `x`. */
  lemma MapExtend(s: string, m: Table, x: char, t: string)
    requires x !in m && forall c :: c in m ==> x !in m[c]
    ensures ReplaceAll(MapChars(s, m), [x], t) == MapChars(s, m[x := t])
  {
    var one := map[x := t];
    forall c ensures MapChars(Image(m, c), one) == Image(m[x := t], c) {
      if c == x {
        assert Image(m, c) == [x] && [x][1..] == "";
        assert MapChars([x], one) == t + MapChars("", one);
      } else {
        MapNothing(Image(m, c), one);
      }
    }
    ReplaceIsMap(MapChars(s, m), x, t);
    MapCompose(s, m, one, m[x := t]);
  }

  function HtmlPasses(s: string): string {
    ReplaceAll(ReplaceAll(ReplaceAll(ReplaceAll(s, "&", "&amp;"), "<", "&lt;"), ">", "&gt;"), "\n", "<br/>")
  }

  /** The four whole-string replacements of the error page are one pass: the markup that one
      replacement inserts is never escaped by a later one. */
  lemma HtmlEscapeIsOnePass(s: string)
    ensures HtmlPasses(s) == MapChars(s, HTML)
  {
    hide ReplaceAll, MapChars;
    ReplaceIsMap(s, '&', "&amp;");
    MapExtend(s, AMP, '<', "&lt;");
    MapExtend(s, AMPLT, '>', "&gt;");
    MapExtend(s, AMPLTGT, '\n', "<br/>");
    assert AMP['<' := "&lt;"] == AMPLT && AMPLT['>' := "&gt;"] == AMPLTGT && AMPLTGT['\n' := "<br/>"] == HTML;
  }

  /** What an HTML page shows for a text with these entities and line breaks. */
  function Shown(e: string): string {
    if e == "" then ""
    else if "&amp;" <= e then "&" + Shown(e[5..])
    else if "&lt;" <= e then "<" + Shown(e[4..])
    else if "&gt;" <= e then ">" + Shown(e[4..])
    else if "<br/>" <= e then "\n" + Shown(e[5..])
    else [e[0]] + Shown(e[1..])
  }

  /** The page shows the text as it was. */
  lemma {:induction false} EscapeIsShown(s: string)
    ensures Shown(MapChars(s, HTML)) == s
  {
    if s != "" {
      EscapeIsShown(s[1..]);
      ShownFirst(s[0], MapChars(s[1..], HTML));
    }
  }

  lemma ShownFirst(c: char, e: string)
    ensures Shown(Image(HTML, c) + e) == [c] + Shown(e)
  {
    var x := Image(HTML, c) + e;
    assert x[|Image(HTML, c)|..] == e;
    assert c !in HTML ==> x[0] == c;
    if c in HTML {
      assert x[1] == Image(HTML, c)[1];
    }
  }

  predicate IsMarkup(e: string, k: int) {
    At(e, k, "&amp;") || At(e, k, "&lt;") || At(e, k, "&gt;") || At(e, k, "<br/>") || At(e, k - 4, "<br/>")
  }

  /** No markup of the text itself is left: whatever could be some is part of an entity or a line break. */
  lemma {:induction false} HtmlSafe(s: string)
    ensures forall k :: 0 <= k < |MapChars(s, HTML)| && MapChars(s, HTML)[k] in "<>&\n" ==>
              MapChars(s, HTML)[k] != '\n' && IsMarkup(MapChars(s, HTML), k)
  {
    hide At;
    if s != "" {
      var x, y, e := Image(HTML, s[0]), MapChars(s[1..], HTML), MapChars(s, HTML);
      HtmlSafe(s[1..]);
      assert e == x + y;
      forall k | 0 <= k < |e| && e[k] in "<>&\n" ensures e[k] != '\n' && IsMarkup(e, k) {
        if k >= |x| {
          MarkupBehind(x, y, k - |x|);
        } else {
          AtStart(x, y);
        }
      }
    }
  }

  lemma AtStart(x: string, y: string)
    ensures At(x + y, 0, x)
  {
  }

  lemma MarkupBehind(x: string, y: string, k: nat)
    requires IsMarkup(y, k)
    ensures IsMarkup(x + y, |x| + k)
  {
    hide At;
    AtRight(x, y, k, "&amp;");
    AtRight(x, y, k, "&lt;");
    AtRight(x, y, k, "&gt;");
    AtRight(x, y, k, "<br/>");
    if k >= 4 { AtRight(x, y, k - 4, "<br/>"); } else { NotBefore(y, k); }
  }

  lemma NotBefore(y: string, k: int)
    requires k < 4
    ensures !At(y, k - 4, "<br/>")
  {
  }

  // ----- Escaping and trimming

  /** Tables that neither touch whitespace nor put any at the ends of an image. */
  ghost predicate SpaceSafe(m: Table) {
    forall c :: c in m ==> !IsSpace(c) && m[c] != "" && !IsSpace(m[c][0]) && !IsSpace(m[c][|m[c]| - 1])
  }

  lemma {:induction false} MapEnds(s: string, m: Table)
    requires SpaceSafe(m) && s != "" && !IsSpace(s[0]) && !IsSpace(s[|s| - 1])
    ensures MapChars(s, m) != ""
    ensures !IsSpace(MapChars(s, m)[0]) && !IsSpace(MapChars(s, m)[|MapChars(s, m)| - 1])
  {
    var n := |s| - 1;
    assert s == s[..n] + [s[n]];
    MapConcat(s[..n], [s[n]], m);
    assert MapChars([s[n]], m) == Image(m, s[n]) + MapChars("", m) by { assert [s[n]][1..] == ""; }
    assert MapChars("", m) == "";
    var last := Image(m, s[n]);
    assert last != "" && !IsSpace(last[|last| - 1]);
    assert MapChars(s, m) == MapChars(s[..n], m) + last;
    assert MapChars(s, m) == Image(m, s[0]) + MapChars(s[1..], m);
  }

  /** Trimming before or after escaping is the same. */
  lemma TrimCommutes(s: string, m: Table)
    requires SpaceSafe(m)
    ensures Trim(MapChars(s, m)) == MapChars(Trim(s), m)
  {
    hide Trim, MapChars;
    var i, j := TrimBounds(s);
    var a, b, c := s[..i], s[i..j], s[j..];
    assert s == a + b + c;
    MapConcat(a + b, c, m);
    MapConcat(a, b, m);
    MapNothing(a, m);
    MapNothing(c, m);
    var x := MapChars(b, m);
    if b != "" {
      MapEnds(b, m);
    } else {
      MapNothing(b, m);
    }
    TrimMiddle(a, x, c);
  }

  lemma TrimBounds(s: string) returns (i: nat, j: nat)
    ensures i <= j <= |s| && Trim(s) == s[i..j]
    ensures forall k :: 0 <= k < i || j <= k < |s| ==> IsSpace(s[k])
    ensures i < j ==> !IsSpace(s[i]) && !IsSpace(s[j - 1])
  {
    hide TrimLeft, TrimRight;
    var l := TrimLeft(s);
    i := |s| - |l|;
    j := i + |TrimRight(l)|;
    TrimTail(s, l);
  }

  lemma TrimTail(s: string, l: string)
    requires |l| <= |s| && l == s[|s| - |l|..]
    ensures TrimRight(l) == s[|s| - |l|..|s| - |l| + |TrimRight(l)|]
    ensures forall k :: |s| - |l| + |TrimRight(l)| <= k < |s| ==> IsSpace(s[k])
  {
    forall k | |s| - |l| + |TrimRight(l)| <= k < |s| ensures IsSpace(s[k]) {
      assert s[k] == l[k - (|s| - |l|)];
    }
  }

  lemma TrimMiddle(a: string, x: string, c: string)
    requires forall k :: 0 <= k < |a| ==> IsSpace(a[k])
    requires forall k :: 0 <= k < |c| ==> IsSpace(c[k])
    requires x != "" ==> !IsSpace(x[0]) && !IsSpace(x[|x| - 1])
    ensures Trim(a + x + c) == x
  {
    hide Trim;
    TrimUnique(a + x + c, |a|, |a + x|);
  }

  /** One replacement leaves a text that fits or the text it found. */
  lemma Settles(s: string, p: string, t: string, cap: int)
    requires p != ""
    ensures var k := Fitting(|s|, |t| - |p|, Count(s, p), cap);
            k <= Count(s, p) && (|ReplaceN(s, p, t, k)| < cap || ReplaceN(s, p, t, k) == s)
  {
    hide Count, ReplaceN;
    var k := Fitting(|s|, |t| - |p|, Count(s, p), cap);
    if k == 0 {
      StartReplace(s, p, t);
    } else {
      hide Fitting;
      LengthProgress(s, p, t, k);
      ReplaceNIs(s, p, t, k);
      FittingStep(|s|, |t| - |p|, Count(s, p), cap, k - 1);
    }
  }

  lemma ReplaceNIs(s: string, p: string, t: string, n: nat)
    requires p != ""
    ensures |ReplaceN(s, p, t, n)| == |Done(s, p, t, n)| + |Rest(s, p, n)|
  {
  }

  /** When no character of the text is to be escaped, there is nothing to replace. */
  lemma {:induction false} MapSame(s: string, m: Table)
    requires (forall c :: c in m ==> |m[c]| > 1) && MapChars(s, m) == s
    ensures forall k :: 0 <= k < |s| ==> s[k] !in m
  {
    if s != "" {
      MapGrows(s[1..], m);
      assert |Image(m, s[0])| + |MapChars(s[1..], m)| == |s|;
      assert s[0] !in m;
      assert MapChars(s[1..], m) == s[1..];
      MapSame(s[1..], m);
    }
  }

  lemma NothingToReplace(s: string, c: char)
    requires c !in s
    ensures Count(s, [c]) == 0
  {
    assert forall k :: 0 <= k < |s| ==> (At(s, k, [c]) <==> s[k] == c);
  }

  /** The text after one replacement in a buffer of `cap` bytes, whether all of it fits or not. */
  function Pass(s: string, p: string, t: string, cap: int): string
    requires p != ""
  {
    ReplaceN(s, p, t, Fitting(|s|, |t| - |p|, Count(s, p), cap))
  }

  function HtmlBuffer(s: string, cap: int): string {
    Pass(Pass(Pass(Pass(s, "&", "&amp;", cap), "<", "&lt;", cap), ">", "&gt;", cap), "\n", "<br/>", cap)
  }

  lemma PassFits(s: string, p: string, t: string, cap: int)
    requires p != "" && |t| >= |p| && |ReplaceAll(s, p, t)| < cap
    ensures Pass(s, p, t, cap) == ReplaceAll(s, p, t) && |s| < cap
  {
    hide ReplaceAll, ReplaceN, Fitting, Count;
    WholeReplace(s, p, t, cap);
    ReplaceNAll(s, p, t);
  }

  lemma PassSettles(s: string, p: string, t: string, cap: int)
    requires p != ""
    ensures |Pass(s, p, t, cap)| < cap || Pass(s, p, t, cap) == s
    ensures Count(s, p) == 0 ==> Pass(s, p, t, cap) == s
  {
    hide ReplaceN, Count;
    Settles(s, p, t, cap);
    StartReplace(s, p, t);
  }

  /** What the four replacements leave is the one-pass escape exactly when that fits the buffer or there is
      nothing to escape. */
  lemma HtmlBufferIff(s: string, cap: int)
    ensures HtmlBuffer(s, cap) == MapChars(s, HTML) <==> |MapChars(s, HTML)| < cap || MapChars(s, HTML) == s
  {
    hide Pass, MapChars, ReplaceAll, Count;
    HtmlEscapeIsOnePass(s);
    HtmlSettles(s, cap);
    if |MapChars(s, HTML)| < cap {
      HtmlFits(s, cap);
    } else if MapChars(s, HTML) == s {
      MapSame(s, HTML);
      NothingToReplace(s, '&');
      NothingToReplace(s, '<');
      NothingToReplace(s, '>');
      NothingToReplace(s, '\n');
      PassSettles(s, "&", "&amp;", cap);
      PassSettles(s, "<", "&lt;", cap);
      PassSettles(s, ">", "&gt;", cap);
      PassSettles(s, "\n", "<br/>", cap);
    }
  }

  function Ampersands(n: nat): string {
    if n == 0 then "" else "&" + Ampersands(n - 1)
  }

  lemma {:induction false} AmpersandsGrow(n: nat)
    ensures |Ampersands(n)| == n && |MapChars(Ampersands(n), HTML)| == 5 * n
  {
    if n > 0 {
      AmpersandsGrow(n - 1);
      assert Ampersands(n)[1..] == Ampersands(n - 1);
    }
  }

  /** Ampersands that fit the buffer, but are more than a fifth of it: it never holds their escape. */
  lemma AmpersandsOverflow(n: nat, cap: nat)
    requires n < cap <= 5 * n
    ensures HtmlBuffer(Ampersands(n), cap) != MapChars(Ampersands(n), HTML)
  {
    hide HtmlBuffer, MapChars;
    AmpersandsGrow(n);
    HtmlBufferIff(Ampersands(n), cap);
  }

  lemma HtmlSettles(s: string, cap: int)
    ensures |HtmlBuffer(s, cap)| < cap || HtmlBuffer(s, cap) == s
  {
    hide Pass;
    var s1 := Pass(s, "&", "&amp;", cap);
    var s2 := Pass(s1, "<", "&lt;", cap);
    var s3 := Pass(s2, ">", "&gt;", cap);
    PassSettles(s, "&", "&amp;", cap);
    PassSettles(s1, "<", "&lt;", cap);
    PassSettles(s2, ">", "&gt;", cap);
    PassSettles(s3, "\n", "<br/>", cap);
  }

  lemma HtmlFits(s: string, cap: int)
    requires |HtmlPasses(s)| < cap
    ensures HtmlBuffer(s, cap) == HtmlPasses(s)
  {
    hide Pass, ReplaceAll;
    var s1 := ReplaceAll(s, "&", "&amp;");
    var s2 := ReplaceAll(s1, "<", "&lt;");
    var s3 := ReplaceAll(s2, ">", "&gt;");
    PassFits(s3, "\n", "<br/>", cap);
    PassFits(s2, ">", "&gt;", cap);
    PassFits(s1, "<", "&lt;", cap);
    PassFits(s, "&", "&amp;", cap);
  }

  /** The error page: cld_replace_string four times on a buffer of `sz` bytes.  It ends up with the one-pass
      escape exactly when that fits or there is nothing to escape. */
  method EscapeHtml(err: array<char>, sz: int)
    requires IsCStr(err[..]) && sz <= err.Length
    modifies err
    ensures IsCStr(err[..])
    ensures var s, e := old(Text(err[..])), MapChars(old(Text(err[..])), HTML);
            Text(err[..]) == e <==> |e| < sz || e == s
  {
    hide IsCStr, Text, MapChars, HtmlBuffer;
    ghost var s := Text(err[..]);
    HtmlBufferIff(s, sz);
    ReplaceBuffer(err, sz, "&", "&amp;");
    ReplaceBuffer(err, sz, "<", "&lt;");
    ReplaceBuffer(err, sz, ">", "&gt;");
    ReplaceBuffer(err, sz, "\n", "<br/>");
    HtmlBufferIs(s, sz);
  }

  lemma HtmlBufferIs(s: string, cap: int)
    ensures HtmlBuffer(s, cap) ==
            Pass(Pass(Pass(Pass(s, "&", "&amp;", cap), "<", "&lt;", cap), ">", "&gt;", cap), "\n", "<br/>", cap)
  {
  }

  /** cld_replace_string on the whole buffer. */
  method ReplaceBuffer(err: array<char>, sz: int, find: string, subst: string)
    requires IsCStr(err[..]) && sz <= err.Length && find != "" && NUL !in subst
    modifies err
    ensures IsCStr(err[..]) && Text(err[..]) == Pass(old(Text(err[..])), find, subst, sz)
  {
    hide IsCStr, Text, ReplaceN, Count, Fitting, Done;
    var occ, last := ReplaceString(err, 0, sz, find, subst, true);
    assert old(Text(err[..]))[..0] == "" && old(Text(err[..]))[0..] == old(Text(err[..]));
  }
}
