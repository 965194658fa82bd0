/** A lexer for SQL text under ANSI_QUOTES: string literals are single-quoted, with doubled quotes and
    backslash escapes inside; double quotes enclose identifiers.  Templates are texts with holes for
    literals, and the question when filling a hole keeps the tokens of the rest. */
module SqlLexer {
  import opened CharMaps

  datatype Token = Sym(c: char) | Lit(value: string) | Unclosed

  /** `Quote`: just after a quote inside a literal, which may be its end or half of a doubled quote. */
  datatype State = Outside | Ident | In(acc: string) | Quote(acc: string) | Esc(acc: string)

  function Unescaped(c: char): string {
    match c
    case 'n' => "\n"
    case 't' => "\t"
    case 'r' => "\r"
    case '0' => "\0"
    case 'b' => "\U{8}"
    case 'Z' => "\U{1a}"
    case '%' => "\\%"
    case '_' => "\\_"
    case _ => [c]
  }

  function Next(st: State, c: char): State {
    match st
    case Outside => if c == '\'' then In("") else if c == '"' then Ident else Outside
    case Ident => if c == '"' then Outside else Ident
    case In(acc) => if c == '\'' then Quote(acc) else if c == '\\' then Esc(acc) else In(acc + [c])
    case Quote(acc) => if c == '\'' then In(acc + [c]) else if c == '"' then Ident else Outside
    case Esc(acc) => In(acc + Unescaped(c))
  }

  function Emitted(st: State, c: char): seq<Token> {
    match st
    case Outside => if c == '\'' then [] else [Sym(c)]
    case Ident => [Sym(c)]
    case In(_) => []
    case Quote(acc) => if c == '\'' then [] else [Lit(acc), Sym(c)]
    case Esc(_) => []
  }

  function Last(st: State): seq<Token> {
    match st
    case Outside => []
    case Ident => []
    case In(_) => [Unclosed]
    case Quote(acc) => [Lit(acc)]
    case Esc(_) => [Unclosed]
  }

  /** The tokens of `s` when lexing goes on from state `st`. */
  function LexFrom(s: string, st: State): seq<Token> {
    if s == "" then Last(st) else Emitted(st, s[0]) + LexFrom(s[1..], Next(st, s[0]))
  }

  function Lex(s: string): seq<Token> {
    LexFrom(s, Outside)
  }

  /** The state after `s`, and the tokens completed within it. */
  function After(s: string, st: State): State {
    if s == "" then st else After(s[1..], Next(st, s[0]))
  }

  function Within(s: string, st: State): seq<Token> {
    if s == "" then [] else Emitted(st, s[0]) + Within(s[1..], Next(st, s[0]))
  }

  lemma {:induction false} LexConcat(a: string, b: string, st: State)
    ensures LexFrom(a + b, st) == Within(a, st) + LexFrom(b, After(a, st))
  {
    hide Next, Emitted;
    if a == "" {
      assert a + b == b;
    } else {
      assert (a + b)[1..] == a[1..] + b;
      LexConcat(a[1..], b, Next(st, a[0]));
    }
  }

  lemma LexChar(c: char, s: string, st: State)
    ensures LexFrom([c] + s, st) == Emitted(st, c) + LexFrom(s, Next(st, c))
  {
    assert ([c] + s)[1..] == s;
  }

  // ----- Templates

  /** `segs` with the quoted bodies between them. */
  function Weave(segs: seq<string>, bodies: seq<string>): string
    requires |segs| == |bodies| + 1
  {
    if bodies == [] then segs[0]
    else segs[0] + ("'" + (bodies[0] + ("'" + Weave(segs[1..], bodies[1..]))))
  }

  /** The tokens of the segments, each lexed on its own, with one literal per value between them. */
  function TokenWeave(segs: seq<string>, values: seq<string>): seq<Token>
    requires |segs| == |values| + 1
  {
    if values == [] then Lex(segs[0])
    else Within(segs[0], Outside) + ([Lit(values[0])] + TokenWeave(segs[1..], values[1..]))
  }

  /** Every hole is scanned as one complete literal: its opening quote is met outside literals and
      identifiers, and no further quote follows the closing one. */
  predicate Whole(segs: seq<string>)
    requires segs != []
  {
    |segs| == 1 ||
    (After(segs[0], Outside) == Outside
     && (if segs[1] == "" then |segs| == 2 else segs[1][0] != '\'')
     && Whole(segs[1..]))
  }

  function Escaped(values: seq<string>): (bodies: seq<string>)
    ensures |bodies| == |values|
  {
    if values == [] then [] else [MapChars(values[0], SQL)] + Escaped(values[1..])
  }

  /** Inside a literal, the escaped text of `v` adds exactly `v` and leaves the lexer inside. */
  lemma {:induction false} LexEscaped(v: string, acc: string, rest: string)
    ensures LexFrom(MapChars(v, SQL) + rest, In(acc)) == LexFrom(rest, In(acc + v))
    decreases |v|
  {
    if v == "" {
      assert MapChars(v, SQL) + rest == rest && acc + v == acc;
    } else {
      var c, more := v[0], MapChars(v[1..], SQL) + rest;
      assert MapChars(v, SQL) + rest == Image(SQL, c) + more;
      LexImage(c, acc, more);
      LexEscaped(v[1..], acc + [c], rest);
      assert acc + [c] + v[1..] == acc + v;
    }
  }

  lemma LexImage(c: char, acc: string, more: string)
    ensures LexFrom(Image(SQL, c) + more, In(acc)) == LexFrom(more, In(acc + [c]))
  {
    hide LexFrom;
    if c == '\\' {
      assert Image(SQL, c) + more == ['\\'] + (['\\'] + more);
      LexChar('\\', ['\\'] + more, In(acc));
      LexChar('\\', more, Esc(acc));
    } else if c == '\'' {
      assert Image(SQL, c) + more == ['\''] + (['\''] + more);
      LexChar('\'', ['\''] + more, In(acc));
      LexChar('\'', more, Quote(acc));
    } else {
      LexChar(c, more, In(acc));
    }
  }

  /** Lexing a filled hole met outside literals. */
  lemma LexHole(seg: string, v: string, rest: string)
    requires After(seg, Outside) == Outside
    ensures LexFrom(seg + ("'" + (MapChars(v, SQL) + ("'" + rest))), Outside) ==
            Within(seg, Outside) + LexFrom(rest, Quote(v))
  {
    hide LexFrom, MapChars;
    var body := MapChars(v, SQL) + ("'" + rest);
    assert "'" == ['\''];
    LexConcat(seg, "'" + body, Outside);
    LexChar('\'', body, Outside);
    LexEscaped(v, "", "'" + rest);
    assert "" + v == v;
    LexChar('\'', rest, In(v));
  }

  lemma LexAfterQuote(rest: string, v: string)
    requires rest != "" ==> rest[0] != '\''
    ensures LexFrom(rest, Quote(v)) == [Lit(v)] + LexFrom(rest, Outside)
  {
    if rest != "" {
      var more := LexFrom(rest[1..], Next(Outside, rest[0]));
      assert [Lit(v), Sym(rest[0])] + more == [Lit(v)] + ([Sym(rest[0])] + more);
    }
  }

  lemma WeaveStart(segs: seq<string>, bodies: seq<string>)
    requires |segs| == |bodies| + 1
    ensures segs[0] != "" ==> Weave(segs, bodies) != "" && Weave(segs, bodies)[0] == segs[0][0]
    ensures segs[0] == "" ==> if |segs| == 1 then Weave(segs, bodies) == "" else
                                Weave(segs, bodies) != "" && Weave(segs, bodies)[0] == '\''
  {
  }

  /** With whole holes, filling keeps the tokens: every value is one literal that decodes to it. */
  lemma {:induction false} WholeFill(segs: seq<string>, values: seq<string>)
    requires |segs| == |values| + 1 && Whole(segs)
    ensures Lex(Weave(segs, Escaped(values))) == TokenWeave(segs, values)
  {
    hide LexFrom, MapChars, After, Within;
    if values != [] {
      var rest := Weave(segs[1..], Escaped(values[1..]));
      WeaveStart(segs[1..], Escaped(values[1..]));
      LexHole(segs[0], values[0], rest);
      LexAfterQuote(rest, values[0]);
      WholeFill(segs[1..], values[1..]);
      assert Escaped(values)[1..] == Escaped(values[1..]);
    }
  }

  // ----- The converse

  /** A literal that has begun yields a token that is not shorter than what it has so far. */
  lemma {:induction false} FirstToken(s: string, st: State)
    requires st.In? || st.Quote? || st.Esc?
    ensures LexFrom(s, st) != []
    ensures LexFrom(s, st)[0].Unclosed? ||
            (LexFrom(s, st)[0].Lit? && |LexFrom(s, st)[0].value| >= |st.acc|)
  {
    if s != "" && !(st.Quote? && s[0] != '\'') {
      FirstToken(s[1..], Next(st, s[0]));
    }
  }

  /** For holes that are not whole there are values that change the tokens. */
  lemma {:induction false} BrokenFill(segs: seq<string>) returns (values: seq<string>)
    requires segs != [] && !Whole(segs)
    ensures |segs| == |values| + 1 && forall k :: 0 <= k < |values| ==> values[k] in ["", "x", "y"]
    ensures Lex(Weave(segs, Escaped(values))) != TokenWeave(segs, values)
    decreases |segs|
  {
    hide LexFrom, MapChars, After, Within, Whole;
    WholeUnfold(segs);
    var st := After(segs[0], Outside);
    var pad := seq(|segs| - 2, _ => "");
    if st != Outside {
      var v := if st.In? then (if st.acc == "x" then "y" else "x") else "";
      values := [v] + pad;
      BrokenOpening(segs[0], v, Weave(segs[1..], Escaped(pad)));
      assert values[1..] == pad;
    } else {
      var rest := Weave(segs[1..], Escaped(pad));
      WeaveStart(segs[1..], Escaped(pad));
      if rest != "" && rest[0] == '\'' {
        values := [""] + pad;
        assert values[1..] == pad;
        BrokenClosing(segs[0], "", rest);
      } else {
        var tail := BrokenFill(segs[1..]);
        values := [""] + tail;
        assert values[1..] == tail;
        var rest' := Weave(segs[1..], Escaped(tail));
        WeaveStart(segs[1..], Escaped(tail));
        LexHole(segs[0], "", rest');
        LexAfterQuote(rest', "");
        SamePrefix(Within(segs[0], Outside), [Lit("")], Lex(rest'), TokenWeave(segs[1..], tail));
      }
    }
  }

  lemma SamePrefix<T>(a: seq<T>, b: seq<T>, x: seq<T>, y: seq<T>)
    requires x != y
    ensures a + (b + x) != a + (b + y)
  {
    assert (a + (b + x))[|a| + |b|..] == x;
    assert (a + (b + y))[|a| + |b|..] == y;
  }

  lemma WholeUnfold(segs: seq<string>)
    requires segs != []
    ensures Whole(segs) <==>
      |segs| == 1 ||
      (After(segs[0], Outside) == Outside
       && (if segs[1] == "" then |segs| == 2 else segs[1][0] != '\'')
       && Whole(segs[1..]))
  {
  }

  /** The hole opens inside something else. */
  lemma BrokenOpening(seg: string, v: string, rest: string)
    requires After(seg, Outside) != Outside
    requires v == if After(seg, Outside).In? then (if After(seg, Outside).acc == "x" then "y" else "x") else ""
    ensures forall more :: LexFrom(seg + ("'" + (MapChars(v, SQL) + ("'" + rest))), Outside) !=
              Within(seg, Outside) + ([Lit(v)] + more)
  {
    var st := After(seg, Outside);
    var body := MapChars(v, SQL) + ("'" + rest);
    var t := LexFrom("'" + body, st);
    LexConcat(seg, "'" + body, Outside);
    assert "'" == ['\''];
    LexChar('\'', body, st);
    if st.In? {
      assert body == v + ("'" + rest) by { assert v[1..] == "" && MapChars("", SQL) == ""; }
      LexChar(v[0], "'" + rest, Quote(st.acc));
      assert v == [v[0]];
    } else if st != Ident {
      FirstToken(body, Next(st, '\''));
    }
    assert t != [] && t[0] != Lit(v);
    forall more ensures Within(seg, Outside) + t != Within(seg, Outside) + ([Lit(v)] + more) {
      var w := Within(seg, Outside);
      assert (w + t)[|w|] == t[0];
      assert (w + ([Lit(v)] + more))[|w|] == Lit(v);
    }
  }

  /** The hole is followed by a quote. */
  lemma BrokenClosing(seg: string, v: string, rest: string)
    requires After(seg, Outside) == Outside && rest != "" && rest[0] == '\''
    ensures forall more :: LexFrom(seg + ("'" + (MapChars(v, SQL) + ("'" + rest))), Outside) !=
              Within(seg, Outside) + ([Lit(v)] + more)
  {
    LexHole(seg, v, rest);
    var t := LexFrom(rest, Quote(v));
    FirstToken(rest[1..], In(v + "'"));
    assert t == LexFrom(rest[1..], In(v + "'"));
    forall more ensures Within(seg, Outside) + t != Within(seg, Outside) + ([Lit(v)] + more) {
      var w := Within(seg, Outside);
      assert (w + t)[|w|] == t[0];
      assert (w + ([Lit(v)] + more))[|w|] == Lit(v);
    }
  }

  /** Filling keeps the tokens for all values exactly when every hole is whole. */
  lemma FillKeepsTokensIff(segs: seq<string>)
    requires segs != []
    ensures (forall values :: |segs| == |values| + 1 ==> Lex(Weave(segs, Escaped(values))) == TokenWeave(segs, values))
            <==> Whole(segs)
  {
    hide Lex, Weave, TokenWeave, Whole;
    if Whole(segs) {
      forall values | |segs| == |values| + 1
        ensures Lex(Weave(segs, Escaped(values))) == TokenWeave(segs, values)
      {
        WholeFill(segs, values);
      }
    } else {
      var values := BrokenFill(segs);
    }
  }
}
