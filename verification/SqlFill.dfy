/** cld_make_SQL: filling the '%s' placeholders of an SQL template at run time. */
module SqlFill {
  import opened CStrings
  import opened CharMaps
  import SqlLexer

  const MAX_SIZE_OF_URL := 32000

  datatype Arg = Null | Value(s: string)

  // ----- The template as segments between placeholders

  /** The text before, between and after the occurrences of '%s'. */
  function Segments(fmt: string): (segs: seq<string>)
    ensures |segs| == Count(fmt, "'%s'") + 1
    decreases |fmt|
  {
    var i := IndexOf(fmt, "'%s'");
    if i < 0 then [fmt] else [fmt[..i]] + Segments(fmt[i + 4..])
  }

  /** Filling from the left: each value takes the place of the first "%s" in what is still unfilled. */
  function Fill(rest: string, vals: seq<string>): string {
    if vals == [] then rest else
      var i := IndexOf(rest, "%s");
      if i < 0 then rest else rest[..i] + vals[0] + Fill(rest[i + 2..], vals[1..])
  }

  predicate Percent(s: string, k: int) {
    0 <= k && k + 2 <= |s| && s[k] == '%' && s[k + 1] == 's'
  }

  predicate Quoted(s: string, k: int) {
    0 <= k && k + 4 <= |s| && s[k] == '\'' && Percent(s, k + 1) && s[k + 3] == '\''
  }

  lemma AtPercent(s: string, k: int)
    ensures At(s, k, "%s") <==> Percent(s, k)
    ensures At(s, k, "'%s'") <==> Quoted(s, k)
  {
    if 0 <= k && k + 2 <= |s| { assert s[k..k + 2] == [s[k], s[k + 1]]; }
    if 0 <= k && k + 4 <= |s| { assert s[k..k + 4] == [s[k], s[k + 1], s[k + 2], s[k + 3]]; }
  }

  /** The leftmost "%s" and the leftmost '%s', character by character. */
  lemma IndexPercent(s: string)
    ensures var r := IndexOf(s, "%s");
            && -1 <= r && (r >= 0 ==> Percent(s, r))
            && (forall k :: 0 <= k < (if r < 0 then |s| + 1 else r) ==> !Percent(s, k))
    ensures var r := IndexOf(s, "'%s'");
            && -1 <= r && (r >= 0 ==> Quoted(s, r))
            && (forall k :: 0 <= k < (if r < 0 then |s| + 1 else r) ==> !Quoted(s, k))
  {
    hide IndexOf, At, Percent, Quoted;
    forall k: int ensures (At(s, k, "%s") <==> Percent(s, k)) && (At(s, k, "'%s'") <==> Quoted(s, k)) {
      AtPercent(s, k);
    }
  }

  /** Occurrences of "%s" on both sides of a cut that does not split one. */
  lemma {:induction false} CountCut(a: string, b: string)
    requires !(a != "" && a[|a| - 1] == '%' && b != "" && b[0] == 's')
    ensures Count(a + b, "%s") == Count(a, "%s") + Count(b, "%s")
    decreases |a|
  {
    hide IndexOf;
    var s := a + b;
    IndexPercent(a);
    IndexPercent(b);
    IndexPercent(s);
    var i, q, r := IndexOf(a, "%s"), IndexOf(b, "%s"), IndexOf(s, "%s");
    PercentCut(a, b);
    assert i >= 0 ==> Percent(s, i);
    assert q >= 0 ==> Percent(s, |a| + q);
    assert 0 <= r < |a| ==> Percent(a, r);
    assert r >= |a| ==> Percent(b, r - |a|);
    if i >= 0 {
      assert r == i && s[i + 2..] == a[i + 2..] + b;
      CountCut(a[i + 2..], b);
    } else if q >= 0 {
      assert r == |a| + q && s[r + 2..] == b[q + 2..];
    } else {
      assert r < 0;
    }
  }

  lemma PercentCut(a: string, b: string)
    requires !(a != "" && a[|a| - 1] == '%' && b != "" && b[0] == 's')
    ensures forall k :: 0 <= k < |a| ==> (Percent(a + b, k) <==> Percent(a, k))
    ensures forall k :: |a| <= k ==> (Percent(a + b, k) <==> Percent(b, k - |a|))
  {
  }

  /** In `s` there are at least as many "%s" as '%s'; with equally many, the first "%s" is in the first
      '%s', and the same holds for what follows. */
  lemma {:induction false} QuotedWithin(s: string)
    ensures Count(s, "'%s'") <= Count(s, "%s")
    ensures Count(s, "'%s'") == Count(s, "%s") ==>
              var q := IndexOf(s, "'%s'");
              if q < 0 then IndexOf(s, "%s") < 0
              else IndexOf(s, "%s") == q + 1 && Count(s[q + 4..], "'%s'") == Count(s[q + 4..], "%s")
    decreases |s|
  {
    hide IndexOf;
    IndexPercent(s);
    var q := IndexOf(s, "'%s'");
    if q >= 0 {
      var u := s[q + 4..];
      QuotedWithin(u);
      QuotedSplit(s, q);
      FirstCount(s[..q + 3], q + 1);
      IndexPercent(s[..q + 3]);
      PercentPrefix(s, q);
    }
  }

  lemma PercentPrefix(s: string, q: nat)
    requires Quoted(s, q)
    ensures forall k :: 0 <= k <= q + 1 ==> (Percent(s[..q + 3], k) <==> Percent(s, k))
  {
  }

  lemma QuotedSplit(s: string, q: nat)
    requires Quoted(s, q)
    ensures Count(s, "%s") == Count(s[..q + 3], "%s") + Count(s[q + 4..], "%s")
  {
    hide IndexOf;
    var a, u := s[..q + 3], s[q + 4..];
    assert s == a + (['\''] + u);
    CountCut(a, ['\''] + u);
    CountCut(['\''], u);
    IndexPercent(['\'']);
  }

  /** A text that ends with "%s" has one occurrence exactly when the last one is the first one. */
  lemma FirstCount(a: string, p: nat)
    requires Percent(a, p) && p + 2 == |a| && p >= 1 && a[p - 1] != '%'
    ensures Count(a, "%s") >= 1
    ensures Count(a, "%s") == 1 <==> IndexOf(a, "%s") == p
  {
    hide IndexOf;
    IndexPercent(a);
    var i := IndexOf(a, "%s");
    var b := a[i + 2..];
    IndexPercent(b);
    if i < p {
      assert Percent(b, p - i - 2);
    }
  }

  lemma {:induction false} FillSkip(u: string, vals: seq<string>)
    ensures Fill("'" + u, vals) == "'" + Fill(u, vals)
  {
    hide IndexOf;
    var s := "'" + u;
    IndexPercent(s);
    IndexPercent(u);
    PercentCut("'", u);
    var i, j := IndexOf(s, "%s"), IndexOf(u, "%s");
    assert j >= 0 ==> Percent(s, j + 1);
    assert i >= 0 ==> Percent(u, i - 1);
    assert i == if j < 0 then -1 else j + 1;
    if vals != [] && j >= 0 {
      assert s[..i] == "'" + u[..j] && s[i + 2..] == u[j + 2..];
      assert "'" + u[..j] + vals[0] + Fill(u[j + 2..], vals[1..]) == "'" + (u[..j] + vals[0] + Fill(u[j + 2..], vals[1..]));
    }
  }

  /** When the run-time check on quoted placeholders passes, filling weaves the values between the segments. */
  lemma {:induction false} FillIsWeave(fmt: string, vals: seq<string>)
    requires Count(fmt, "'%s'") == Count(fmt, "%s") == |vals|
    ensures Fill(fmt, vals) == SqlLexer.Weave(Segments(fmt), vals)
    decreases |fmt|
  {
    hide IndexOf;
    QuotedWithin(fmt);
    IndexPercent(fmt);
    var q := IndexOf(fmt, "'%s'");
    if q >= 0 {
      var u := fmt[q + 4..];
      FillIsWeave(u, vals[1..]);
      assert fmt[q + 3..] == "'" + u && fmt[..q + 1] == fmt[..q] + "'";
      FillSkip(u, vals[1..]);
      Nest(fmt[..q], vals[0], Fill(u, vals[1..]));
      assert Segments(fmt)[1..] == Segments(u);
    }
  }

  lemma Nest(a: string, v: string, r: string)
    ensures (a + "'") + v + ("'" + r) == a + ("'" + (v + ("'" + r)))
  {
  }

  /** The template itself is its segments with "%s" between them. */
  lemma {:induction false} TemplateIsWeave(fmt: string)
    ensures SqlLexer.Weave(Segments(fmt), seq(Count(fmt, "'%s'"), _ => "%s")) == fmt
    decreases |fmt|
  {
    hide IndexOf;
    IndexPercent(fmt);
    var q := IndexOf(fmt, "'%s'");
    if q >= 0 {
      var u := fmt[q + 4..];
      TemplateIsWeave(u);
      var bodies := seq(Count(fmt, "'%s'"), _ => "%s");
      assert bodies[1..] == seq(Count(u, "'%s'"), _ => "%s");
      assert Segments(fmt)[1..] == Segments(u);
      CutAround(fmt, q);
    }
  }

  lemma CutAround(fmt: string, q: nat)
    requires Quoted(fmt, q)
    ensures fmt == fmt[..q] + ("'" + ("%s" + ("'" + fmt[q + 4..])))
  {
  }

  // ----- The arguments

  function NonNull(args: seq<Arg>): seq<string> {
    if args == [] then []
    else if args[0].Null? then NonNull(args[1..])
    else [args[0].s] + NonNull(args[1..])
  }

  /** Arguments that are NULL are passed over, the others taken in order. */
  lemma {:induction false} NonNullConcat(a: seq<Arg>, b: seq<Arg>, s: string)
    ensures NonNull(a + b) == NonNull(a) + NonNull(b) && NonNull([Null]) == [] && NonNull([Value(s)]) == [s]
  {
    assert [Null][1..] == [] && [Value(s)][1..] == [];
    if a == [] {
      assert a + b == b;
    } else {
      assert (a + b)[1..] == a[1..] + b;
      NonNullConcat(a[1..], b, s);
    }
  }

  /** What goes between the quotes for an argument. */
  function Body(a: string, trim: bool): string {
    if trim then Trim(MapChars(a, SQL)) else MapChars(a, SQL)
  }

  function Bodies(vals: seq<string>, trim: bool): (bodies: seq<string>)
    ensures |bodies| == |vals|
  {
    if vals == [] then [] else [Body(vals[0], trim)] + Bodies(vals[1..], trim)
  }

  /** No escaped argument outgrows the argument buffer. */
  predicate ArgsFit(vals: seq<string>) {
    vals == [] || (|MapChars(vals[0], SQL)| < MAX_SIZE_OF_URL && ArgsFit(vals[1..]))
  }

  /** No statement filled so far outgrows the destination. */
  predicate StatementsFit(len: int, bodies: seq<string>, destSize: int)
    decreases |bodies|
  {
    bodies == [] ||
    (len - 2 + |bodies[0]| + 3 <= destSize && StatementsFit(len - 2 + |bodies[0]|, bodies[1..], destSize))
  }

  /** The statements cld_make_SQL accepts. */
  predicate Accepted(fmt: string, destSize: int, vals: seq<string>, trim: bool) {
    && Count(fmt, "'") % 2 == 0
    && |fmt| < destSize - 1
    && Count(fmt, "'%s'") == Count(fmt, "%s") == |vals|
    && ArgsFit(vals)
    && StatementsFit(|fmt|, Bodies(vals, trim), destSize)
  }

  /** The argument is copied, escaped and perhaps trimmed in a local buffer. */
  method EscapeArg(a: string, trim: bool) returns (ok: bool, val: string)
    requires |a| < MAX_SIZE_OF_URL && NUL !in a
    ensures ok <==> |MapChars(a, SQL)| < MAX_SIZE_OF_URL
    ensures ok ==> val == Body(a, trim)
  {
    hide IsCStr, Count, ReplaceN, ReplaceAll, Fitting, Done, MapChars;
    var currSqlArg := NewCString(a, MAX_SIZE_OF_URL + 1);
    ghost var e1 := ReplaceAll(a, "\\", "\\\\");
    WholeReplace(a, "\\", "\\\\", MAX_SIZE_OF_URL);
    WholeReplace(e1, "'", "''", MAX_SIZE_OF_URL);
    SqlEscapeIsOnePass(a);
    var occ, last := ReplaceString(currSqlArg, 0, MAX_SIZE_OF_URL, "\\", "\\\\", true);
    if occ == -1 { return false, ""; }
    occ, last := ReplaceString(currSqlArg, 0, MAX_SIZE_OF_URL, "'", "''", true);
    if occ == -1 { return false, ""; }
    ok := true;
    if trim {
      val := TrimInPlace(currSqlArg);
    } else {
      val := Text(currSqlArg[..]);
    }
  }

  /** The trimming loop of cld_make_SQL: a pointer moves right, then a NUL is put after the last character. */
  method TrimInPlace(buf: array<char>) returns (val: string)
    requires IsCStr(buf[..])
    modifies buf
    ensures val == Trim(old(Text(buf[..])))
  {
    hide IsCStr, Trim;
    ghost var s := Text(buf[..]);
    var v: nat := 0;
    while buf[v] != NUL && IsSpace(buf[v])
      invariant 0 <= v <= |s|
      invariant forall k :: 0 <= k < v ==> IsSpace(s[k])
      decreases |s| - v
    {
      v := v + 1;
    }
    var t := Text(buf[..])[v..];
    var lenOf: nat := |t|;
    while lenOf != 0 && IsSpace(buf[v + lenOf - 1])
      invariant 0 <= lenOf <= |t|
      invariant forall k :: lenOf <= k < |t| ==> IsSpace(t[k])
    {
      assert buf[v + lenOf - 1] == s[v + lenOf - 1] == t[lenOf - 1];
      lenOf := lenOf - 1;
    }
    assert lenOf > 0 ==> buf[v + lenOf - 1] == s[v + lenOf - 1] == t[lenOf - 1];
    assert v < |s| ==> s[v] == buf[v];
    TrimParts(s, v, lenOf);
    if lenOf != 0 {
      buf[v + lenOf] := NUL;
      val := t[..lenOf];
    } else {
      val := t;
    }
  }

  /** One argument takes the place of the next placeholder. */
  method FillNext(dest: array<char>, destSize: nat, curr: nat, a: string, trim: bool, ghost rest: seq<string>)
    returns (ok: bool, next: nat)
    requires destSize <= dest.Length && IsCStr(dest[..]) && curr <= |Text(dest[..])| < destSize - 1
    requires Count(Text(dest[..])[curr..], "%s") > 0 && |a| < MAX_SIZE_OF_URL && NUL !in a
    modifies dest
    ensures var s, body := old(Text(dest[..])), Body(a, trim);
            && (ok <==> |MapChars(a, SQL)| < MAX_SIZE_OF_URL && |s| - 2 + |body| + 3 <= destSize)
            && (ok ==>
                  var now := Text(dest[..]);
                  && IsCStr(dest[..]) && next <= |now| == |s| - 2 + |body|
                  && Count(now[next..], "%s") == Count(s[curr..], "%s") - 1
                  && now[..next] + Fill(now[next..], rest) == s[..curr] + Fill(s[curr..], [body] + rest))
  {
    hide IsCStr, Text, Count, Fill, Fitting, ReplaceN, Done, Body, MapChars;
    next := curr;
    var fits, val := EscapeArg(a, trim);
    if !fits { return false, next; }
    FillStep(Text(dest[..]), curr, val, rest, destSize - 1 - (curr + 1));
    BodyClean(a, trim);
    var occ, last := ReplaceString(dest, curr, destSize - 1 - (curr + 1), "%s", val, false);
    if occ == -1 { return false, next; }
    ok, next := true, last;
  }

  ghost predicate CleanArgs(args: seq<Arg>) {
    forall k :: 0 <= k < |args| && args[k].Value? ==> |args[k].s| < MAX_SIZE_OF_URL && NUL !in args[k].s
  }

  /** cld_make_SQL.  A rejected call ends the program; an accepted one leaves in `dest` the segments of the
      template with the escaped (and perhaps trimmed) non-null arguments woven between them, in order. */
  method MakeSQL(dest: array<char>, destSize: nat, args: seq<Arg>, format: string, trim: bool) returns (ok: bool)
    requires destSize <= dest.Length && NUL !in format && CleanArgs(args)
    modifies dest
    ensures ok <==> Accepted(format, destSize, NonNull(args), trim)
    ensures ok ==> IsCStr(dest[..]) && Text(dest[..]) == SqlLexer.Weave(Segments(format), Bodies(NonNull(args), trim))
  {
    hide IsCStr, Text, Copied, Count, Fill, Fitting, ReplaceN, Done, Bodies, NonNull, ArgsFit, StatementsFit, Body,
         MapChars, Segments;
    ghost var vals := NonNull(args);
    var countPercents := CountSubstring(format, "%s");
    var numOfPercents: int := countPercents;
    var countSingleQuote := CountSubstring(format, "'");
    if countSingleQuote % 2 != 0 { return false; }
    if |format| >= destSize - 1 { return false; }
    CopiedText(dest[..], format);
    Memcpy(dest, 0, format + [NUL]);
    var numPlaceWithQuotes := CountSubstring(format, "'%s'");
    if numPlaceWithQuotes != countPercents { return false; }

    var curr: nat, i: nat := 0, 0;
    assert args[0..] == args && format[0..] == format;
    assert "" + Fill(format, Bodies(vals, trim)) == Fill(format, Bodies(vals, trim));
    while i < |args|
      invariant 0 <= i <= |args|
      invariant 0 <= numOfPercents <= countPercents
      invariant IsCStr(dest[..]) && curr <= |Text(dest[..])| < destSize - 1
      invariant numOfPercents == Count(Text(dest[..])[curr..], "%s")
      invariant |vals| - |NonNull(args[i..])| == countPercents - numOfPercents
      invariant ArgsFit(vals) <==> ArgsFit(NonNull(args[i..]))
      invariant StatementsFit(|format|, Bodies(vals, trim), destSize) <==>
                StatementsFit(|Text(dest[..])|, Bodies(NonNull(args[i..]), trim), destSize)
      invariant Text(dest[..])[..curr] + Fill(Text(dest[..])[curr..], Bodies(NonNull(args[i..]), trim)) ==
                Fill(format, Bodies(vals, trim))
    {
      ghost var left := NonNull(args[i..]);
      NonNullStep(args, i);
      if args[i].Null? {
        i := i + 1;
        continue;
      }
      ArgStep(|Text(dest[..])|, left, destSize, trim);
      numOfPercents := numOfPercents - 1;
      if numOfPercents < 0 { return false; }
      var fits;
      fits, curr := FillNext(dest, destSize, curr, args[i].s, trim, Bodies(left[1..], trim));
      if !fits { return false; }
      i := i + 1;
    }
    NoArgsLeft(args, Text(dest[..]), destSize, trim);
    if numOfPercents != 0 { return false; }
    FillIsWeave(format, Bodies(vals, trim));
    ok := true;
  }

  lemma NonNullStep(args: seq<Arg>, i: nat)
    requires i < |args|
    ensures NonNull(args[i..]) ==
            if args[i].Null? then NonNull(args[i + 1..]) else [args[i].s] + NonNull(args[i + 1..])
  {
    assert args[i..][1..] == args[i + 1..];
  }

  lemma ArgStep(len: int, left: seq<string>, destSize: int, trim: bool)
    requires left != []
    ensures ArgsFit(left) <==> |MapChars(left[0], SQL)| < MAX_SIZE_OF_URL && ArgsFit(left[1..])
    ensures Bodies(left, trim) == [Body(left[0], trim)] + Bodies(left[1..], trim)
    ensures StatementsFit(len, Bodies(left, trim), destSize) <==>
            && len - 2 + |Body(left[0], trim)| + 3 <= destSize
            && StatementsFit(len - 2 + |Body(left[0], trim)|, Bodies(left[1..], trim), destSize)
  {
    hide Body, MapChars;
    assert Bodies(left, trim)[1..] == Bodies(left[1..], trim);
  }

  lemma NoArgsLeft(args: seq<Arg>, text: string, destSize: int, trim: bool)
    ensures NonNull(args[|args|..]) == [] && ArgsFit([]) && StatementsFit(|text|, Bodies([], trim), destSize)
    ensures forall rest :: Fill(rest, Bodies([], trim)) == rest
  {
  }

  lemma BodyClean(a: string, trim: bool)
    requires NUL !in a
    ensures NUL !in Body(a, trim)
  {
    hide MapChars;
    MapClean(a, SQL, NUL);
  }

  /** Filling the next placeholder. */
  lemma FillStep(text: string, curr: nat, val: string, rest: seq<string>, cap: int)
    requires curr <= |text| && Count(text[curr..], "%s") > 0
    ensures var s := text[curr..];
            var now := text[..curr] + ReplaceN(s, "%s", val, 1);
            var next := curr + |Done(s, "%s", val, 1)|;
            && next <= |now| == |text| - 2 + |val|
            && Count(now[next..], "%s") == Count(s, "%s") - 1
            && now[..next] + Fill(now[next..], rest) == text[..curr] + Fill(s, [val] + rest)
            && Fitting(|s|, |val| - 2, 1, cap) == if |s| + |val| - 1 > cap then 0 else 1
  {
    hide IndexOf, Fill;
    var s := text[curr..];
    IndexPercent(s);
    var i := IndexOf(s, "%s");
    FillFirst(s, val, rest);
    FillCut(text[..curr], s[..i] + val, s[i + 2..], Fill(s[i + 2..], rest));
  }

  lemma FillFirst(s: string, val: string, rest: seq<string>)
    requires Count(s, "%s") > 0
    ensures var i := IndexOf(s, "%s");
            && 0 <= i <= |s| - 2
            && Done(s, "%s", val, 1) == s[..i] + val && Rest(s, "%s", 1) == s[i + 2..]
            && Fill(s, [val] + rest) == s[..i] + val + Fill(s[i + 2..], rest)
  {
    hide IndexOf;
    IndexPercent(s);
    var i := IndexOf(s, "%s");
    StartReplace(s, "%s", val);
    assert "" + s[..i] + val == s[..i] + val;
    assert ([val] + rest)[1..] == rest;
  }

  lemma FillCut(pre: string, x: string, y: string, z: string)
    ensures (pre + (x + y))[|pre| + |x|..] == y
    ensures (pre + (x + y))[..|pre| + |x|] + z == pre + (x + z)
  {
    assert (pre + (x + y))[..|pre| + |x|] == pre + x;
  }

  // ----- What filling means to the database

  /** The value an argument is to have in the statement. */
  function Meant(vals: seq<string>, trim: bool): (ms: seq<string>)
    ensures |ms| == |vals|
  {
    if vals == [] then [] else [if trim then Trim(vals[0]) else vals[0]] + Meant(vals[1..], trim)
  }

  /** Each argument itself, or trimmed if that is asked for. */
  lemma {:induction false} MeantIs(vals: seq<string>, trim: bool, k: nat)
    requires k < |vals|
    ensures Meant(vals, trim)[k] == if trim then Trim(vals[k]) else vals[k]
  {
    hide Trim;
    if k > 0 { MeantIs(vals[1..], trim, k - 1); }
  }

  lemma {:induction false} BodiesEscape(vals: seq<string>, trim: bool)
    ensures Bodies(vals, trim) == SqlLexer.Escaped(Meant(vals, trim))
  {
    hide MapChars, Trim;
    if vals != [] {
      BodiesEscape(vals[1..], trim);
      TrimCommutes(vals[0], SQL);
      assert Meant(vals, trim)[1..] == Meant(vals[1..], trim);
    }
  }

  /** The checks on the template alone. */
  predicate Checked(fmt: string, destSize: int) {
    Count(fmt, "'") % 2 == 0 && |fmt| < destSize - 1 && Count(fmt, "'%s'") == Count(fmt, "%s")
  }

  /** Filling preserves the meaning of a template whose placeholders are whole literals: the statement has
      the tokens of the template, with the i-th placeholder literal decoding to the i-th argument. */
  lemma FilledMeaning(fmt: string, destSize: int, vals: seq<string>, trim: bool)
    requires Accepted(fmt, destSize, vals, trim) && SqlLexer.Whole(Segments(fmt))
    ensures SqlLexer.Lex(fmt) == SqlLexer.TokenWeave(Segments(fmt), seq(|vals|, _ => "%s"))
    ensures SqlLexer.Lex(SqlLexer.Weave(Segments(fmt), Bodies(vals, trim))) ==
            SqlLexer.TokenWeave(Segments(fmt), Meant(vals, trim))
  {
    hide SqlLexer.Lex, SqlLexer.Weave, SqlLexer.TokenWeave, SqlLexer.Whole, Segments, Count, MapChars;
    BodiesEscape(vals, trim);
    SqlLexer.WholeFill(Segments(fmt), Meant(vals, trim));
    var holes := seq(|vals|, _ => "%s");
    TemplateIsWeave(fmt);
    PlainEscape(holes);
    SqlLexer.WholeFill(Segments(fmt), holes);
  }

  lemma {:induction false} PlainEscape(holes: seq<string>)
    requires forall k :: 0 <= k < |holes| ==> holes[k] in ["", "x", "y", "%s"]
    ensures SqlLexer.Escaped(holes) == holes
  {
    hide MapChars;
    if holes != [] {
      PlainEscape(holes[1..]);
      PlainOne(holes[0]);
    }
  }

  lemma PlainOne(h: string)
    requires h in ["", "x", "y", "%s"]
    ensures MapChars(h, SQL) == h
  {
    assert forall k :: 0 <= k < |h| ==> h[k] in "xy%s";
    MapNothing(h, SQL);
  }

  ghost predicate KeepsTokens(fmt: string, vals: seq<string>, trim: bool)
    requires Count(fmt, "'%s'") == |vals|
  {
    SqlLexer.Lex(SqlLexer.Weave(Segments(fmt), Bodies(vals, trim))) ==
    SqlLexer.TokenWeave(Segments(fmt), Meant(vals, trim))
  }

  /** For a template that passes the run-time checks, every accepted call keeps its tokens exactly when the
      placeholders are whole literals. */
  lemma FillingSafeIff(fmt: string, destSize: int, trim: bool)
    requires Checked(fmt, destSize)
    ensures (forall vals :: Accepted(fmt, destSize, vals, trim) ==> KeepsTokens(fmt, vals, trim))
            <==> SqlLexer.Whole(Segments(fmt))
  {
    hide SqlLexer.Lex, SqlLexer.Weave, SqlLexer.TokenWeave, SqlLexer.Whole, Segments, Count, MapChars, Bodies;
    if SqlLexer.Whole(Segments(fmt)) {
      forall vals | Accepted(fmt, destSize, vals, trim) ensures KeepsTokens(fmt, vals, trim) {
        FilledMeaning(fmt, destSize, vals, trim);
      }
    } else {
      var vals := SqlLexer.BrokenFill(Segments(fmt));
      ShortArgs(|fmt|, vals, destSize, trim);
      PlainEscape(vals);
      BodiesEscape(vals, trim);
      assert !KeepsTokens(fmt, vals, trim);
    }
  }

  /** Arguments of at most one plain character are always accepted. */
  lemma {:induction false} ShortArgs(len: int, vals: seq<string>, destSize: int, trim: bool)
    requires forall k :: 0 <= k < |vals| ==> vals[k] in ["", "x", "y"]
    requires len < destSize - 1
    ensures ArgsFit(vals) && StatementsFit(len, Bodies(vals, trim), destSize) && Meant(vals, trim) == vals
    decreases |vals|
  {
    hide MapChars, Trim;
    if vals != [] {
      var v := vals[0];
      ShortBody(v);
      ShortArgs(len - 2 + |v|, vals[1..], destSize, trim);
      assert Bodies(vals, trim)[1..] == Bodies(vals[1..], trim);
    }
  }

  lemma ShortBody(v: string)
    requires v in ["", "x", "y"]
    ensures MapChars(v, SQL) == v && Trim(v) == v
  {
    hide Trim;
    MapNothing(v, SQL);
    TrimUnique(v, 0, |v|);
  }

  /** The checks alone are not enough: this template passes them, yet its placeholder closes one literal
      and opens another. */
  lemma QuoteChecksAreNotEnough()
    ensures Checked("''%s''", 100) && !SqlLexer.Whole(Segments("''%s''"))
  {
    hide IndexOf, Count, Segments;
    FourQuotes("''%s''");
    OnePlaceholder("''%s''");
    assert SqlLexer.After("'", SqlLexer.Outside) != SqlLexer.Outside;
  }

  lemma OnePlaceholder(fmt: string)
    requires fmt == "''%s''"
    ensures Count(fmt, "%s") == 1 && Count(fmt, "'%s'") == 1
    ensures Segments(fmt) == ["'", "'"]
  {
    hide IndexOf, Count, Segments;
    IndexPercent(fmt);
    assert Quoted(fmt, 1) && Percent(fmt, 2);
    assert IndexOf(fmt, "%s") == 2 && IndexOf(fmt, "'%s'") == 1;
    assert fmt[5..] == "'" && fmt[4..] == "''" && fmt[..1] == "'";
    NoPlaceholder("'");
    NoPlaceholder("''");
    FirstPlaceholder(fmt);
  }

  lemma NoPlaceholder(s: string)
    requires |s| < 3 && '%' !in s
    ensures Count(s, "%s") == 0 && Count(s, "'%s'") == 0 && Segments(s) == [s]
  {
    hide IndexOf;
    IndexPercent(s);
  }

  lemma FirstPlaceholder(s: string)
    requires IndexOf(s, "%s") >= 0 && IndexOf(s, "'%s'") >= 0
    ensures Count(s, "%s") == 1 + Count(s[IndexOf(s, "%s") + 2..], "%s")
    ensures Count(s, "'%s'") == 1 + Count(s[IndexOf(s, "'%s'") + 4..], "'%s'")
    ensures Segments(s) == [s[..IndexOf(s, "'%s'")]] + Segments(s[IndexOf(s, "'%s'") + 4..])
  {
    hide IndexOf;
  }

  lemma FourQuotes(fmt: string)
    requires fmt == "''%s''"
    ensures Count(fmt, "'") == 4
  {
    hide IndexOf, Count;
    CountChar('\'', "'%s''");
    CountChar('\'', "%s''");
    CountChar('%', "s''");
    CountChar('s', "''");
    CountChar('\'', "'");
    CountChar('\'', "");
    assert fmt == ['\''] + "'%s''" && "'%s''" == ['\''] + "%s''" && "%s''" == ['%'] + "s''";
    assert "s''" == ['s'] + "''" && "''" == ['\''] + "'" && "'" == ['\''] + "";
    CountOnce("", "'");
    IndexQuote("");
  }

  lemma CountChar(c: char, rest: string)
    ensures Count([c] + rest, "'") == (if c == '\'' then 1 else 0) + Count(rest, "'")
  {
    hide IndexOf, Count;
    var s := [c] + rest;
    IndexQuote(s);
    IndexQuote(rest);
    CountFirst(s);
    CountFirst(rest);
    var i := IndexOf(s, "'");
    assert forall k :: 0 <= k < |rest| ==> s[k + 1] == rest[k];
    if c == '\'' {
      assert s[0] == c;
      assert i == 0 && s[1..] == rest;
    } else if i >= 0 {
      assert s[0] == c && rest[i - 1] == s[i];
      var r := IndexOf(rest, "'");
      assert r >= 0;
      assert s[r + 1] == rest[r];
      assert i == 1 + IndexOf(rest, "'") && s[i + 1..] == rest[i..];
    }
  }

  lemma CountFirst(s: string)
    ensures IndexOf(s, "'") < |s|
    ensures Count(s, "'") == if IndexOf(s, "'") < 0 then 0 else 1 + Count(s[IndexOf(s, "'") + 1..], "'")
  {
    hide IndexOf;
    IndexQuote(s);
  }

  lemma IndexQuote(s: string)
    ensures var r := IndexOf(s, "'");
            && (if r < 0 then '\'' !in s else r < |s| && s[r] == '\'')
            && forall k :: 0 <= k < r ==> s[k] != '\''
  {
    hide IndexOf;
    assert forall k :: 0 <= k < |s| ==> (At(s, k, "'") <==> s[k] == '\'');
  }

  // ----- What is accepted, told by its characters

  lemma {:induction false} QuotesCounted(s: string)
    ensures Count(s, "'") == multiset(s)['\'']
  {
    hide IndexOf, Count;
    if s == "" {
      CountOnce("", "'");
      IndexQuote("");
    } else {
      QuotesCounted(s[1..]);
      CountChar(s[0], s[1..]);
      assert s == [s[0]] + s[1..];
      assert multiset([s[0]]) == multiset{s[0]};
    }
  }

  /** Every quote and every backslash of an argument takes one more character. */
  lemma {:induction false} EscapedLength(a: string)
    ensures |MapChars(a, SQL)| == |a| + multiset(a)['\''] + multiset(a)['\\']
  {
    if a != "" {
      EscapedLength(a[1..]);
      assert a == [a[0]] + a[1..];
      assert multiset([a[0]]) == multiset{a[0]};
    }
  }

  /** What becomes of the length when the first placeholders are filled. */
  lemma {:induction false} FilledLength(s: string, bodies: seq<string>)
    requires bodies != [] && |bodies| <= Count(s, "%s")
    ensures var i := IndexOf(s, "%s");
            && 0 <= i && |bodies| - 1 <= Count(s[i + 2..], "%s")
            && |Fill(s, bodies)| == i + |bodies[0]| + |Fill(s[i + 2..], bodies[1..])|
  {
    hide IndexOf;
    IndexPercent(s);
  }

  /** The statement fits with its first `n` placeholders filled; `more`: what is in front of it. */
  predicate FitsFilled(s: string, bodies: seq<string>, n: nat, more: int, destSize: int)
    requires n <= |bodies|
  {
    more + |Fill(s, bodies[..n])| + 3 <= destSize
  }

  /** All statements fit exactly when the template with any number of its first placeholders filled does. */
  lemma {:induction false} StatementsFitIff(s: string, bodies: seq<string>, more: int, destSize: int)
    requires |bodies| <= Count(s, "%s")
    ensures StatementsFit(more + |s|, bodies, destSize) <==>
            forall n :: 0 < n <= |bodies| ==> FitsFilled(s, bodies, n, more, destSize)
    decreases |bodies|
  {
    hide IndexOf, Count, Fill, FitsFilled;
    if bodies != [] {
      FilledLength(s, bodies);
      var i := IndexOf(s, "%s");
      var u, rest, now := s[i + 2..], bodies[1..], more + i + |bodies[0]|;
      IndexPercent(s);
      StatementsFitIff(u, rest, now, destSize);
      FitsNone(u, rest, now, destSize);
      forall n | 0 < n <= |bodies|
        ensures FitsFilled(s, bodies, n, more, destSize) <==> FitsFilled(u, rest, n - 1, now, destSize)
      {
        FitsNext(s, bodies, n, more, destSize);
      }
      ShiftOne(s, u, bodies, rest, more, now, destSize);
    }
  }

  lemma FitsNone(u: string, rest: seq<string>, now: int, destSize: int)
    ensures FitsFilled(u, rest, 0, now, destSize) <==> now + |u| + 3 <= destSize
  {
  }

  lemma FitsNext(s: string, bodies: seq<string>, n: nat, more: int, destSize: int)
    requires 0 < n <= |bodies| <= Count(s, "%s")
    ensures var i := IndexOf(s, "%s");
            && 0 <= i && i + 2 <= |s|
            && (FitsFilled(s, bodies, n, more, destSize) <==>
                FitsFilled(s[i + 2..], bodies[1..], n - 1, more + i + |bodies[0]|, destSize))
  {
    hide IndexOf, Count, Fill;
    IndexPercent(s);
    assert bodies[..n][1..] == bodies[1..][..n - 1];
    FilledLength(s, bodies[..n]);
  }

  lemma ShiftOne(s: string, u: string, bodies: seq<string>, rest: seq<string>, more: int, now: int, destSize: int)
    requires |bodies| == |rest| + 1
    requires forall n :: 0 < n <= |bodies| ==>
               (FitsFilled(s, bodies, n, more, destSize) <==> FitsFilled(u, rest, n - 1, now, destSize))
    ensures (forall n :: 0 < n <= |bodies| ==> FitsFilled(s, bodies, n, more, destSize)) <==>
            FitsFilled(u, rest, 0, now, destSize) && forall n :: 0 < n <= |rest| ==> FitsFilled(u, rest, n, now, destSize)
  {
    hide FitsFilled;
    if forall n :: 0 < n <= |bodies| ==> FitsFilled(s, bodies, n, more, destSize) {
      assert FitsFilled(s, bodies, 1, more, destSize);
      forall n | 0 < n <= |rest| ensures FitsFilled(u, rest, n, now, destSize) {
        assert FitsFilled(s, bodies, n + 1, more, destSize);
      }
    }
  }

  /** The argument fits its buffer, with one more character for every quote and every backslash. */
  predicate FitsEscaped(a: string) {
    |a| + multiset(a)['\''] + multiset(a)['\\'] < 32000
  }

  lemma {:induction false} ArgsFitIff(vals: seq<string>)
    ensures ArgsFit(vals) <==> forall k :: 0 <= k < |vals| ==> FitsEscaped(vals[k])
  {
    hide MapChars, FitsEscaped;
    if vals != [] {
      var rest := vals[1..];
      ArgsFitIff(rest);
      EscapedFits(vals[0]);
      assert forall k :: 1 <= k < |vals| ==> vals[k] == rest[k - 1];
      assert forall k :: 0 <= k < |rest| ==> rest[k] == vals[k + 1];
    }
  }

  lemma EscapedFits(a: string)
    ensures |MapChars(a, SQL)| < MAX_SIZE_OF_URL <==> FitsEscaped(a)
  {
    hide MapChars;
    EscapedLength(a);
  }

  /** The quotes of the template are even in number, all its placeholders are quoted and there is an argument for each,
      every argument fits its buffer escaped, and the statement fits with any number of placeholders filled. */
  ghost predicate Acceptable(fmt: string, destSize: int, vals: seq<string>, trim: bool) {
    && multiset(fmt)['\''] % 2 == 0
    && Count(fmt, "'%s'") == Count(fmt, "%s") == |vals|
    && (forall k :: 0 <= k < |vals| ==> FitsEscaped(vals[k]))
    && |fmt| + 2 <= destSize
    && (forall n :: 0 < n <= |vals| ==> FitsFilled(fmt, Bodies(vals, trim), n, 0, destSize))
  }

  /** What is accepted, told by characters. */
  lemma AcceptedIff(fmt: string, destSize: int, vals: seq<string>, trim: bool)
    ensures Accepted(fmt, destSize, vals, trim) <==> Acceptable(fmt, destSize, vals, trim)
  {
    hide Count, Bodies, ArgsFit, StatementsFit, FitsEscaped, FitsFilled;
    QuotesCounted(fmt);
    ArgsFitIff(vals);
    if Count(fmt, "%s") == |vals| { StatementsFitIff(fmt, Bodies(vals, trim), 0, destSize); }
    if Accepted(fmt, destSize, vals, trim) { assert Acceptable(fmt, destSize, vals, trim); }
  }
}
