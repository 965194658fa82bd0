/** Text between markups (cld.c): each line becomes a call that prints it, the calls that would print nothing are
    cut out of the generated code, and running what is left prints the source text. */
module FreeText {
  import opened Wrappers
  import opened CStrings
  import opened CharMaps

  /** The longest line, with its terminator. */
  const LINE_SIZE := 8097

  const OPEN := "cld_puts (CLD_NOENC, \""
  const CLOSE := "\");\n"
  const EMPTY_PRINT := "cld_puts (CLD_NOENC, \"\");"
  const EMPTY_PRINT_LINE := "cld_puts (CLD_NOENC, \"\");\n"

  /** Inside a C string literal. */
  const LITERAL: Table := map['"' := "\\\"", '\\' := "\\\\"]

  // ----- Generated code, piece by piece

  /** A `#line` mark, or a call of cld_puts with `text` and perhaps an end of line. */
  datatype Item = LineMark(n: nat) | Put(text: string, newline: bool)

  function Digits(n: nat): string {
    (if n < 10 then "" else Digits(n / 10)) + [('0' as int + n % 10) as char]
  }

  function PieceCode(x: Item, file: string): string {
    match x
    case LineMark(n) => "\n#line " + Digits(n) + " \"" + file + "\"\n"
    case Put(t, newline) => OPEN + MapChars(t, LITERAL) + (if newline then "\\n" else "") + CLOSE
  }

  function Emit(items: seq<Item>, file: string): string {
    if items == [] then "" else PieceCode(items[0], file) + Emit(items[1..], file)
  }

  predicate Blank(x: Item) {
    x == Put("", false)
  }

  /** What the compiler emits: only an empty print lacks its end of line. */
  predicate Proper(x: Item) {
    x.Put? ==> '\n' !in x.text && (x.newline || x.text == "")
  }

  /** A file name that can stand in a `#line` mark. */
  predicate Name(file: string) {
    file != "" && '"' !in file && '\n' !in file
  }

  function WithoutBlanks(items: seq<Item>): seq<Item> {
    if items == [] then []
    else if Blank(items[0]) then WithoutBlanks(items[1..])
    else [items[0]] + WithoutBlanks(items[1..])
  }

  lemma {:induction false} EmitConcat(a: seq<Item>, b: seq<Item>, file: string)
    ensures Emit(a + b, file) == Emit(a, file) + Emit(b, file)
  {
    hide PieceCode;
    if a == [] {
      assert a + b == b;
    } else {
      assert (a + b)[1..] == a[1..] + b;
      EmitConcat(a[1..], b, file);
    }
  }

  // ----- What the generated code prints

  datatype Literal = Literal(text: string, rest: string) | Malformed

  /** A C string literal from after its opening quote. */
  function ReadLiteral(s: string): (l: Literal)
    ensures l.Literal? ==> |l.rest| < |s|
  {
    if s == "" || s[0] == '\n' then Malformed
    else if s[0] == '"' then Literal("", s[1..])
    else if s[0] != '\\' then After(s[0], ReadLiteral(s[1..]))
    else if |s| == 1 then Malformed
    else if s[1] == 'n' then After('\n', ReadLiteral(s[2..]))
    else if s[1] == '"' || s[1] == '\\' then After(s[1], ReadLiteral(s[2..]))
    else Malformed
  }

  function After(c: char, l: Literal): Literal {
    if l.Literal? then Literal([c] + l.text, l.rest) else Malformed
  }

  function SkipLine(s: string): (r: string)
    ensures |r| <= |s| && (s != "" ==> |r| < |s|)
  {
    if s == "" then "" else if s[0] == '\n' then s[1..] else SkipLine(s[1..])
  }

  /** Runs generated code made of blank lines, `#line` marks and calls of cld_puts. */
  function Exec(code: string): Option<string>
    decreases |code|
  {
    if code == "" then Some("")
    else if code[0] == '\n' then Exec(code[1..])
    else if code[0] == '#' then Exec(SkipLine(code))
    else if |code| >= |OPEN| && code[..|OPEN|] == OPEN then
      var l := ReadLiteral(code[|OPEN|..]);
      if l.Malformed? || |l.rest| < 2 || l.rest[..2] != ");" then None else
        var more := Exec(l.rest[2..]);
        if more.None? then None else Some(l.text + more.value)
    else None
  }

  function Printed(x: Item): string {
    match x
    case LineMark(_) => ""
    case Put(t, newline) => t + (if newline then "\n" else "")
  }

  function PrintedAll(items: seq<Item>): string {
    if items == [] then "" else Printed(items[0]) + PrintedAll(items[1..])
  }

  lemma {:induction false} PrintedConcat(a: seq<Item>, b: seq<Item>)
    ensures PrintedAll(a + b) == PrintedAll(a) + PrintedAll(b)
  {
    hide Printed;
    if a == [] {
      assert a + b == b;
    } else {
      assert (a + b)[1..] == a[1..] + b;
      PrintedConcat(a[1..], b);
    }
  }

  lemma {:induction false} PrintedWithoutBlanks(items: seq<Item>)
    ensures PrintedAll(WithoutBlanks(items)) == PrintedAll(items)
  {
    if items != [] {
      PrintedWithoutBlanks(items[1..]);
      if !Blank(items[0]) {
        assert WithoutBlanks(items)[1..] == WithoutBlanks(items[1..]);
      }
    }
  }

  // ----- Running emitted code

  function Behind(t: string, l: Literal): Literal {
    if l.Literal? then Literal(t + l.text, l.rest) else Malformed
  }

  lemma BehindStep(c: char, t: string, l: Literal)
    ensures After(c, Behind(t, l)) == Behind([c] + t, l)
    ensures Behind("", l) == l
  {
    if l.Literal? {
      assert [c] + (t + l.text) == [c] + t + l.text;
    }
  }

  lemma MapFirst(t: string, rest: string)
    requires t != ""
    ensures MapChars(t, LITERAL) + rest == Image(LITERAL, t[0]) + (MapChars(t[1..], LITERAL) + rest)
  {
    hide Image;
  }

  /** A literal reads back as the text that was escaped into it. */
  lemma {:induction false} ReadEscaped(t: string, rest: string)
    requires '\n' !in t
    ensures ReadLiteral(MapChars(t, LITERAL) + rest) == Behind(t, ReadLiteral(rest))
  {
    hide ReadLiteral, Image, Behind;
    if t == "" {
      assert MapChars(t, LITERAL) + rest == rest;
      BehindStep(' ', "", ReadLiteral(rest));
    } else {
      ReadEscaped(t[1..], rest);
      MapFirst(t, rest);
      ReadImage(t[0], MapChars(t[1..], LITERAL) + rest);
      BehindStep(t[0], t[1..], ReadLiteral(rest));
      assert [t[0]] + t[1..] == t;
    }
  }

  lemma ReadImage(c: char, more: string)
    requires c != '\n'
    ensures ReadLiteral(Image(LITERAL, c) + more) == After(c, ReadLiteral(more))
  {
    var s := Image(LITERAL, c) + more;
    if c in LITERAL {
      assert s[2..] == more;
    } else {
      assert s[1..] == more;
    }
  }

  lemma {:induction false} SkipLineIs(a: string, b: string)
    requires '\n' !in a
    ensures SkipLine(a + ("\n" + b)) == b
  {
    if a == "" {
      assert a + ("\n" + b) == ['\n'] + b;
    } else {
      assert (a + ("\n" + b))[1..] == a[1..] + ("\n" + b);
      SkipLineIs(a[1..], b);
    }
  }

  lemma {:induction false} DigitsPlain(n: nat)
    ensures '\n' !in Digits(n) && '"' !in Digits(n) && NUL !in Digits(n)
  {
    if n >= 10 {
      DigitsPlain(n / 10);
    }
  }

  function Prefixed(t: string, o: Option<string>): Option<string> {
    if o.None? then None else Some(t + o.value)
  }

  lemma ExecMark(n: nat, file: string, more: string)
    requires Name(file)
    ensures Exec(PieceCode(LineMark(n), file) + more) == Prefixed("", Exec(more))
  {
    hide SkipLine, Digits;
    var mark := "#line " + Digits(n) + " \"" + file + "\"";
    var code := PieceCode(LineMark(n), file) + more;
    DigitsPlain(n);
    assert '\n' !in mark;
    assert code == "\n" + (mark + ("\n" + more));
    assert code[1..] == mark + ("\n" + more);
    assert mark[0] == '#' && code[0] == '\n';
    SkipLineIs(mark, more);
    ExecSkips(code, mark + ("\n" + more));
  }

  lemma ExecSkips(code: string, rest: string)
    requires |code| >= 2 && code[0] == '\n' && code[1..] == rest && rest[0] == '#'
    ensures Exec(code) == Prefixed("", Exec(SkipLine(rest)))
  {
    hide SkipLine;
    assert Exec(code) == Exec(rest);
    assert Exec(rest) == Exec(SkipLine(rest));
    var o := Exec(SkipLine(rest));
    if o.Some? { assert "" + o.value == o.value; }
  }

  lemma ExecPut(t: string, newline: bool, file: string, more: string)
    requires '\n' !in t
    ensures Exec(PieceCode(Put(t, newline), file) + more) == Prefixed(Printed(Put(t, newline)), Exec(more))
  {
    hide ReadLiteral, MapChars, Exec;
    var end := if newline then "\n" else "";
    var tail := (if newline then "\\n" else "") + CLOSE + more;
    var code := PieceCode(Put(t, newline), file) + more;
    assert code == OPEN + (MapChars(t, LITERAL) + tail);
    ReadEscaped(t, tail);
    ReadEnd(newline, more);
    ExecCall(MapChars(t, LITERAL) + tail, t + end, more);
  }

  lemma ReadEnd(newline: bool, more: string)
    ensures ReadLiteral((if newline then "\\n" else "") + CLOSE + more) == Literal(if newline then "\n" else "", ");\n" + more)
  {
    var c := CLOSE + more;
    assert c[0] == '"' && c[1..] == ");\n" + more;
    if newline {
      var s := "\\n" + CLOSE + more;
      assert s[0] == '\\' && s[1] == 'n' && s[2..] == c;
    } else {
      assert "" + CLOSE + more == c;
    }
  }

  lemma ExecCall(s: string, t: string, more: string)
    requires ReadLiteral(s) == Literal(t, ");\n" + more)
    ensures Exec(OPEN + s) == Prefixed(t, Exec(more))
  {
    hide ReadLiteral;
    var code := OPEN + s;
    assert code[..|OPEN|] == OPEN && code[|OPEN|..] == s && code[0] == 'c';
    var rest := ");\n" + more;
    assert rest[..2] == ");" && rest[2..] == "\n" + more;
    assert Exec("\n" + more) == Exec(more) by { assert ("\n" + more)[1..] == more; }
  }

  /** Running emitted code prints what its pieces print, one after the other. */
  lemma {:induction false} ExecEmitted(items: seq<Item>, file: string)
    requires Name(file) && forall k :: 0 <= k < |items| ==> Proper(items[k])
    ensures Exec(Emit(items, file)) == Some(PrintedAll(items))
  {
    hide Exec, PieceCode, Name;
    if items == [] {
      assert Exec("") == Some("") by { ExecNothing(); }
    } else {
      var x, more := items[0], Emit(items[1..], file);
      ExecEmitted(items[1..], file);
      assert Proper(x);
      match x
      case LineMark(n) => ExecMark(n, file, more);
      case Put(t, newline) => ExecPut(t, newline, file, more);
    }
  }

  lemma ExecNothing()
    ensures Exec("") == Some("")
  {
  }

  // ----- Cutting out the empty prints

  /** No two quotes side by side, nor one at the start. */
  predicate Sparse(y: string) {
    forall k :: 0 <= k < |y| && y[k] == '"' ==> k > 0 && y[k - 1] != '"'
  }

  lemma SparseConcat(a: string, b: string)
    requires Sparse(a) && Sparse(b)
    ensures Sparse(a + b)
  {
  }

  /** Every quote of the text is behind a backslash of its own. */
  lemma {:induction false} SparseEscaped(t: string)
    ensures Sparse(MapChars(t, LITERAL))
  {
    hide Sparse;
    if t == "" {
      SparseImage(' ');
      assert MapChars(t, LITERAL) == "";
      SparsePlain("");
    } else {
      SparseEscaped(t[1..]);
      SparseImage(t[0]);
      SparseConcat(Image(LITERAL, t[0]), MapChars(t[1..], LITERAL));
    }
  }

  lemma SparseImage(c: char)
    ensures Sparse(Image(LITERAL, c))
  {
  }

  lemma SparsePlain(y: string)
    requires '"' !in y
    ensures Sparse(y)
    ensures y != "" ==> Sparse(y + "\"\n")
  {
  }

  lemma SparseFrame()
    ensures Sparse(OPEN) && Sparse("\\n" + CLOSE) && Sparse(" \"") && Sparse("\n#line ")
  {
  }

  lemma SparsePiece(x: Item, file: string)
    requires Name(file) && Proper(x) && !Blank(x)
    ensures Sparse(PieceCode(x, file))
    ensures PieceCode(x, file) != "" && PieceCode(x, file)[|PieceCode(x, file)| - 1] == '\n'
  {
    hide Sparse, MapChars, Digits;
    var y := PieceCode(x, file);
    SparseFrame();
    match x
    case LineMark(n) =>
      DigitsPlain(n);
      SparsePlain(Digits(n));
      SparsePlain(file);
      SparseConcat("\n#line ", Digits(n));
      SparseConcat("\n#line " + Digits(n), " \"");
      SparseConcat("\n#line " + Digits(n) + " \"", file + "\"\n");
      assert y == "\n#line " + Digits(n) + " \"" + (file + "\"\n");
    case Put(t, newline) =>
      SparseEscaped(t);
      SparseConcat(OPEN, MapChars(t, LITERAL));
      SparseConcat(OPEN + MapChars(t, LITERAL), "\\n" + CLOSE);
      assert y == OPEN + MapChars(t, LITERAL) + ("\\n" + CLOSE);
  }

  /** The search patterns: two quotes side by side, and an end of line at most at their end. */
  predicate Pattern(p: string) {
    && |p| > |OPEN| + 1
    && (forall j :: 0 <= j < |p| - 1 ==> p[j] != '\n')
    && p[|OPEN| - 1] == p[|OPEN|] == '"'
  }

  /** No match begins inside a piece that prints something: it would have to end inside it too, and would hold
      two quotes side by side. */
  lemma NoMatch(a: string, b: string, p: string, k: nat)
    requires Pattern(p) && Sparse(a) && k < |a| && a[|a| - 1] == '\n'
    ensures !At(a + b, k, p)
  {
    hide At;
    if At(a + b, k, p) {
      var e := |a| - 1 - k;
      if e < |p| - 1 {
        AtChar(a + b, k, p, e);
        assert false;
      } else {
        AtChar(a + b, k, p, |OPEN| - 1);
        AtChar(a + b, k, p, |OPEN|);
        assert false;
      }
    }
  }

  lemma ReplaceSkip(a: string, b: string, p: string)
    requires p != "" && forall k :: 0 <= k < |a| ==> !At(a + b, k, p)
    ensures ReplaceAll(a + b, p, "") == a + ReplaceAll(b, p, "")
  {
    hide At, IndexOf;
    IndexSkip(a, b, p);
    var i := IndexOf(b, p);
    if i >= 0 {
      SkipSplit(a, b, i, |p|, ReplaceAll(b[i + |p|..], p, ""));
    }
  }

  lemma SkipSplit(a: string, b: string, i: nat, n: nat, more: string)
    requires i + n <= |b|
    ensures (a + b)[..|a| + i] + "" + more == a + (b[..i] + "" + more)
    ensures (a + b)[|a| + i + n..] == b[i + n..]
  {
    assert (a + b)[..|a| + i] == a + b[..i];
  }

  lemma ReplaceHead(b: string, p: string)
    requires p != ""
    ensures ReplaceAll(p + b, p, "") == ReplaceAll(b, p, "")
  {
    hide IndexOf;
    var s := p + b;
    assert s[..|p|] == p && s[|p|..] == b;
    assert At(s, 0, p);
    assert IndexOf(s, p) == 0;
    assert s[..0] + "" + ReplaceAll(b, p, "") == ReplaceAll(b, p, "");
  }

  lemma Patterns()
    ensures Pattern(EMPTY_PRINT) && Pattern(EMPTY_PRINT_LINE)
    ensures PieceCode(Put("", false), "") == EMPTY_PRINT_LINE
  {
  }

  lemma SkipPiece(x: Item, b: string, p: string, file: string)
    requires Name(file) && Proper(x) && !Blank(x) && p != "" && Pattern(p)
    ensures ReplaceAll(PieceCode(x, file) + b, p, "") == PieceCode(x, file) + ReplaceAll(b, p, "")
  {
    hide Sparse, PieceCode, Name, Proper, At, ReplaceAll, Pattern;
    var a := PieceCode(x, file);
    SparsePiece(x, file);
    forall k | 0 <= k < |a| ensures !At(a + b, k, p) { NoMatch(a, b, p, k); }
    ReplaceSkip(a, b, p);
  }

  /** The first pass cuts out exactly the prints of nothing. */
  lemma {:induction false} CutEmptyPrints(items: seq<Item>, file: string)
    requires Name(file) && forall k :: 0 <= k < |items| ==> Proper(items[k])
    ensures ReplaceAll(Emit(items, file), EMPTY_PRINT_LINE, "") == Emit(WithoutBlanks(items), file)
  {
    hide PieceCode, Name, Proper, ReplaceAll, Pattern;
    Patterns();
    if items == [] {
      ReplaceNothing(EMPTY_PRINT_LINE);
    } else {
      var x, more := items[0], Emit(items[1..], file);
      CutEmptyPrints(items[1..], file);
      if Blank(x) {
        BlankCode(file);
        ReplaceHead(more, EMPTY_PRINT_LINE);
      } else {
        SkipPiece(x, more, EMPTY_PRINT_LINE, file);
        assert WithoutBlanks(items)[1..] == WithoutBlanks(items[1..]);
      }
    }
  }

  lemma BlankCode(file: string)
    ensures PieceCode(Put("", false), file) == EMPTY_PRINT_LINE
  {
  }

  lemma ReplaceNothing(p: string)
    requires p != ""
    ensures ReplaceAll("", p, "") == ""
  {
  }

  /** The second pass, for calls without an end of line, finds none. */
  lemma {:induction false} NothingElseToCut(items: seq<Item>, file: string)
    requires Name(file) && forall k :: 0 <= k < |items| ==> Proper(items[k]) && !Blank(items[k])
    ensures ReplaceAll(Emit(items, file), EMPTY_PRINT, "") == Emit(items, file)
  {
    hide PieceCode, Name, Proper, Blank, ReplaceAll, Pattern;
    Patterns();
    if items == [] {
      ReplaceNothing(EMPTY_PRINT);
    } else {
      NothingElseToCut(items[1..], file);
      SkipPiece(items[0], Emit(items[1..], file), EMPTY_PRINT, file);
    }
  }

  lemma {:induction false} NoBlanksLeft(items: seq<Item>)
    requires forall k :: 0 <= k < |items| ==> Proper(items[k])
    ensures forall k :: 0 <= k < |WithoutBlanks(items)| ==>
              Proper(WithoutBlanks(items)[k]) && !Blank(WithoutBlanks(items)[k])
  {
    hide Proper, Blank;
    if items != [] {
      NoBlanksLeft(items[1..]);
    }
  }

  /** Cleaning the generated code up does not change what it prints. */
  lemma CleanedRuns(items: seq<Item>, file: string)
    requires Name(file) && forall k :: 0 <= k < |items| ==> Proper(items[k])
    ensures ReplaceAll(ReplaceAll(Emit(items, file), EMPTY_PRINT_LINE, ""), EMPTY_PRINT, "") ==
            Emit(WithoutBlanks(items), file)
    ensures Exec(Emit(WithoutBlanks(items), file)) == Some(PrintedAll(items))
  {
    hide Exec, Emit, ReplaceAll, Proper, Blank, Name, PrintedAll;
    CutEmptyPrints(items, file);
    NoBlanksLeft(items);
    NothingElseToCut(WithoutBlanks(items), file);
    ExecEmitted(WithoutBlanks(items), file);
    PrintedWithoutBlanks(items);
  }

  // ----- Lines of the source

  /** A physical line behind what the line before left to be continued. */
  function Continued(carry: string, raw: string): string {
    carry + (if carry != "" && |raw| > 1 && IsSpace(raw[0]) then Trim(raw) else raw)
  }

  predicate Continues(t: string) {
    t != "" && t[|t| - 1] == '\\'
  }

  /** The lines of text: trimmed, and joined where one ends in a backslash.  What is to be continued on a line
      after the last is lost. */
  function Logical(raws: seq<string>, carry: string): seq<string> {
    if raws == [] then [] else
      var t := Trim(Continued(carry, raws[0]));
      if Continues(t) then Logical(raws[1..], t[..|t| - 1]) else [t] + Logical(raws[1..], "")
  }

  /** Without continuations the lines of text are the physical ones, trimmed; a last line that is to be
      continued is not among them. */
  lemma {:induction false} LogicalPlain(raws: seq<string>)
    requires forall k :: 0 <= k < |raws| - 1 ==> !Continues(Trim(raws[k]))
    ensures var n := if raws != [] && Continues(Trim(raws[|raws| - 1])) then |raws| - 1 else |raws|;
            |Logical(raws, "")| == n && forall k :: 0 <= k < n ==> Logical(raws, "")[k] == Trim(raws[k])
  {
    hide Trim, Continues;
    if raws != [] {
      assert Continued("", raws[0]) == raws[0];
      assert Logical([], "") == [];
      LogicalPlain(raws[1..]);
    }
  }

  // ----- What is left over

  /** What is to be continued after the lines: the start of the next line of text. */
  function CarryAfter(raws: seq<string>, carry: string): string {
    if raws == [] then carry else
      var t := Trim(Continued(carry, raws[0]));
      CarryAfter(raws[1..], if Continues(t) then t[..|t| - 1] else "")
  }

  /** What the last line leaves to be continued, when it does. */
  function LeftOver(raws: seq<string>): Option<string> {
    if raws == [] then None else
      var n := |raws| - 1;
      var t := Trim(Continued(CarryAfter(raws[..n], ""), raws[n]));
      if Continues(t) then Some(t[..|t| - 1]) else None
  }

  /** All lines of text, a last one that was to be continued among them. */
  function Joined(raws: seq<string>, carry: string): seq<string> {
    if raws == [] then [] else
      var t := Trim(Continued(carry, raws[0]));
      if !Continues(t) then [t] + Joined(raws[1..], "")
      else if |raws| == 1 then [t[..|t| - 1]]
      else Joined(raws[1..], t[..|t| - 1])
  }

  lemma {:induction false} JoinedIs(raws: seq<string>, carry: string)
    requires raws != []
    ensures var n := |raws| - 1;
            var t := Trim(Continued(CarryAfter(raws[..n], carry), raws[n]));
            Joined(raws, carry) == Logical(raws, carry) + (if Continues(t) then [t[..|t| - 1]] else [])
    decreases |raws|
  {
    hide Trim, Continued;
    var n := |raws| - 1;
    var t := Trim(Continued(carry, raws[0]));
    if n == 0 {
      assert raws[..0] == [] && raws[1..] == [];
      assert Logical([], "") == [] && Joined([], "") == [];
    } else {
      assert raws[1..][..n - 1] == raws[..n][1..] && raws[1..][n - 1] == raws[n] && raws[..n][0] == raws[0];
      JoinedIs(raws[1..], if Continues(t) then t[..|t| - 1] else "");
    }
  }

  lemma {:induction false} WantedConcat(a: seq<string>, b: seq<string>, inString: bool)
    ensures Wanted(a + b, inString) == Wanted(a, inString) + Wanted(b, inString)
  {
    hide LineWanted;
    if a == [] {
      assert a + b == b;
    } else {
      assert (a + b)[1..] == a[1..] + b;
      WantedConcat(a[1..], b, inString);
      Assoc(LineWanted(a[0], inString), Wanted(a[1..], inString), Wanted(b, inString));
    }
  }

  /** For every file: text is lost exactly when the last line is to be continued and leaves something that would
      have been printed. */
  lemma TextIsLostIff(raws: seq<string>, inString: bool)
    ensures Wanted(Logical(raws, ""), inString) != Wanted(Joined(raws, ""), inString) <==>
            LeftOver(raws).Some? && (LeftOver(raws).value != "" || inString)
  {
    hide Trim, Continued, Continues, Logical, Joined;
    if raws == [] {
      NoLines();
    } else {
      JoinedIs(raws, "");
      var left := LeftOver(raws);
      if left.Some? {
        var a := Logical(raws, "");
        WantedConcat(a, [left.value], inString);
        assert [left.value][1..] == [] && Wanted([], inString) == "";
        assert Wanted([left.value], inString) == LineWanted(left.value, inString);
      } else {
        assert Logical(raws, "") + [] == Logical(raws, "");
      }
    }
  }

  lemma NoLines()
    ensures Logical([], "") == [] && Joined([], "") == []
  {
  }

  /** Such a file is accepted all the same, and prints nothing. */
  lemma LostLine()
    ensures Accepted(["a\\"], "") && Logical(["a\\"], "") == [] && Joined(["a\\"], "") == ["a"]
  {
    hide Trim, IsText;
    var raw := "a\\";
    assert "" + raw == raw && raw[0..2] == raw && raw[..1] == "a";
    TrimUnique(raw, 0, 2);
    assert Continued("", raw) == raw;
    assert [raw][1..] == [];
  }

  /** What is to be printed: within write-string, also the blank lines. */
  function Wanted(lines: seq<string>, inString: bool): string {
    if lines == [] then "" else LineWanted(lines[0], inString) + Wanted(lines[1..], inString)
  }

  function LineWanted(t: string, inString: bool): string {
    if t != "" || inString then t + "\n" else ""
  }

  predicate Special(c: char) {
    c == '"' || c == '\\' || c == '%'
  }

  /** A semicolon at the end, or before nothing but quotes, backslashes and percent signs. */
  predicate EndsInSemicolon(t: string) {
    exists k :: 0 <= k < |t| && t[k] == ';' && forall j :: k < j < |t| ==> Special(t[j])
  }

  /** No sign of markup, and not taken for a statement of C. */
  predicate IsText(t: string) {
    IndexOf(t, "<?") < 0 && !EndsInSemicolon(t)
  }

  predicate Accepted(raws: seq<string>, carry: string) {
    raws == [] ||
    (var s := Continued(carry, raws[0]);
     var t := Trim(s);
     && |s| < LINE_SIZE - 2
     && if Continues(t) then Accepted(raws[1..], t[..|t| - 1]) else IsText(t) && Accepted(raws[1..], ""))
  }

  /** As fgets delivers it: an end of line only at its end, and no NUL. */
  predicate Physical(raw: string) {
    NUL !in raw && forall k :: 0 <= k < |raw| - 1 ==> raw[k] != '\n'
  }

  predicate OneLine(t: string) {
    NUL !in t && '\n' !in t
  }

  lemma TrimmedLine(s: string)
    requires Physical(s)
    ensures OneLine(Trim(s))
  {
    hide Trim;
    var i, j := TrimBounds(s);
  }

  lemma ContinuedLine(carry: string, raw: string)
    requires OneLine(carry) && Physical(raw)
    ensures OneLine(Trim(Continued(carry, raw)))
  {
    hide Trim;
    TrimmedLine(raw);
    TrimmedLine(Continued(carry, raw));
  }

  /** The last character printed that is none of quote, backslash and percent sign. */
  function LastOrdinary(t: string, before: char): char {
    if t == "" then before
    else if Special(t[|t| - 1]) then LastOrdinary(t[..|t| - 1], before)
    else t[|t| - 1]
  }

  lemma {:induction false} LastOrdinaryIs(t: string, before: char)
    requires before != ';'
    ensures LastOrdinary(t, before) == ';' <==> EndsInSemicolon(t)
    ensures t == "" ==> LastOrdinary(t, before) == before
  {
    if t != "" {
      var u, n := t[..|t| - 1], |t| - 1;
      LastOrdinaryIs(u, before);
      if Special(t[n]) {
        if EndsInSemicolon(u) {
          var k :| 0 <= k < |u| && u[k] == ';' && forall j :: k < j < |u| ==> Special(u[j]);
          assert forall j :: k < j < n ==> t[j] == u[j];
          assert t[k] == ';' && forall j :: k < j < |t| ==> Special(t[j]);
        }
        if EndsInSemicolon(t) {
          var k :| 0 <= k < |t| && t[k] == ';' && forall j :: k < j < |t| ==> Special(t[j]);
          assert u[k] == ';' && forall j :: k < j < |u| ==> u[j] == t[j];
        }
      }
    }
  }

  lemma MapNext(t: string, i: nat)
    requires i < |t|
    ensures MapChars(t[..i + 1], LITERAL) == MapChars(t[..i], LITERAL) + Image(LITERAL, t[i])
    ensures t[..i + 1][..i] == t[..i]
  {
    assert t[..i + 1] == t[..i] + [t[i]];
    MapConcat(t[..i], [t[i]], LITERAL);
    assert MapChars([t[i]], LITERAL) == Image(LITERAL, t[i]) by { assert [t[i]][1..] == "" && MapChars("", LITERAL) == ""; }
  }

  // ----- The compiler

  /** The characters of a line, one by one. */
  method EscapeLine(t: string, before: char) returns (ok: bool, esc: string, last: char)
    ensures ok <==> IndexOf(t, "<?") < 0
    ensures ok ==> esc == MapChars(t, LITERAL) && last == LastOrdinary(t, before)
  {
    hide IndexOf, At, MapChars;
    esc, last := "", before;
    var i := 0;
    assert MapChars(t[..0], LITERAL) == "" by { MapNothing("", LITERAL); }
    while i < |t|
      invariant 0 <= i <= |t|
      invariant forall k :: 0 <= k < i ==> !At(t, k, "<?")
      invariant esc == MapChars(t[..i], LITERAL) && last == LastOrdinary(t[..i], before)
    {
      if At(t, i, "<?") { return false, esc, last; }
      MapNext(t, i);
      if t[i] == '"' {
        esc := esc + "\\\"";
      } else if t[i] == '\\' {
        esc := esc + "\\\\";
      } else if t[i] == '%' {
        esc := esc + "%";
      } else {
        esc := esc + [t[i]];
        last := t[i];
      }
      i := i + 1;
    }
    assert t[..|t|] == t;
    ok := true;
  }

  /** One line of text: what is printed is put in `item`. */
  method CompileLine(t: string, before: char, inString: bool, ghost file: string)
    returns (ok: bool, code: string, last: char, ghost item: Item)
    requires OneLine(t) && before != ';'
    ensures ok <==> IsText(t)
    ensures ok ==> last != ';' && code == PieceCode(item, file) && NUL !in code
    ensures Proper(item) && Printed(item) == LineWanted(t, inString)
  {
    hide EndsInSemicolon, LastOrdinary, IndexOf, MapChars;
    item := if t != "" || inString then Put(t, true) else Put("", false);
    var esc;
    ok, esc, last := EscapeLine(t, before);
    LastOrdinaryIs(t, before);
    code := OPEN + esc;
    if t != "" || inString {
      code := code + "\\n\");\n";
      assert code == OPEN + esc + "\\n" + CLOSE;
      ok := ok && last != ';';
    } else {
      code := code + CLOSE;
      assert code == OPEN + esc + "" + CLOSE;
    }
    MapClean(t, LITERAL, NUL);
  }

  /** The end of compilation: the empty prints are cut out of all generated code. */
  method CleanUp(code: string) returns (r: string)
    requires NUL !in code
    ensures r == ReplaceAll(ReplaceAll(code, EMPTY_PRINT_LINE, ""), EMPTY_PRINT, "")
  {
    hide IsCStr, Text, ReplaceN, Count, Fitting, ReplaceAll, Done;
    var oline := NewCString(code, |code| + 1);
    var len := |code|;
    WholeReplace(code, EMPTY_PRINT_LINE, "", len + 1);
    ghost var once := ReplaceAll(code, EMPTY_PRINT_LINE, "");
    WholeReplace(once, EMPTY_PRINT, "", len + 1);
    Shrinks(code, EMPTY_PRINT_LINE);
    var occ, last := ReplaceString(oline, 0, len + 1, EMPTY_PRINT_LINE, "", true);
    occ, last := ReplaceString(oline, 0, len + 1, EMPTY_PRINT, "", true);
    r := Text(oline[..]);
  }

  lemma Shrinks(s: string, p: string)
    requires p != ""
    ensures |ReplaceAll(s, p, "")| <= |s|
  {
    hide ReplaceAll, ReplaceN, Count;
    ReplaceNAll(s, p, "");
    assert Count(s, p) * |p| >= 0;
  }

  lemma Grown(items: seq<Item>, x: Item, file: string)
    ensures Emit(items + [x], file) == Emit(items, file) + PieceCode(x, file)
    ensures PrintedAll(items + [x]) == PrintedAll(items) + Printed(x)
  {
    hide PieceCode, Printed;
    EmitConcat(items, [x], file);
    PrintedConcat(items, [x]);
    assert [x][1..] == [];
  }

  /** A source file of text lines.  It is accepted exactly when every line is text and none too long, and then
      what the generated code prints is the text: every trimmed line that is not blank (within write-string also
      the blank ones), in order, each with one end of line. */
  method CompileText(raws: seq<string>, file: string, inString: bool) returns (ok: bool, code: string)
    requires Name(file) && NUL !in file && forall k :: 0 <= k < |raws| ==> Physical(raws[k])
    ensures ok <==> Accepted(raws, "")
    ensures ok ==> Exec(code) == Some(Wanted(Logical(raws, ""), inString))
  {
    hide Exec, PieceCode, Printed, Name, Proper, IsText, Trim, Digits, ReplaceAll, LineWanted, Continued, MarkLine,
         Emit, PrintedAll;
    var oline, line, last, lnum := "", "", NUL, 0;
    ghost var items: seq<Item> := [];
    NothingYet(file);
    while lnum < |raws|
      invariant 0 <= lnum <= |raws|
      invariant oline == Emit(items, file) && NUL !in oline && forall k :: 0 <= k < |items| ==> Proper(items[k])
      invariant Accepted(raws, "") <==> Accepted(raws[lnum..], line)
      invariant Wanted(Logical(raws, ""), inString) == PrintedAll(items) + Wanted(Logical(raws[lnum..], line), inString)
      invariant OneLine(line) && last != ';'
    {
      var raw := raws[lnum];
      assert raws[lnum..][1..] == raws[lnum + 1..];
      lnum := lnum + 1;
      oline := oline + MarkLine(lnum, file);
      ghost var mark := LineMark(lnum);
      MarkProper(lnum, file);
      Grown(items, mark, file);
      items := items + [mark];
      ContinuedLine(line, raw);
      line := Continued(line, raw);
      if |line| >= LINE_SIZE - 2 { return false, ""; }
      var t := Trim(line);
      if Continues(t) {
        line := t[..|t| - 1];
      } else {
        line := "";
        var piece;
        ghost var item;
        ok, piece, last, item := CompileLine(t, last, inString, file);
        if !ok { return false, ""; }
        Grown(items, item, file);
        items := items + [item];
        oline := oline + piece;
      }
    }
    assert raws[lnum..] == [] && PrintedAll(items) + "" == PrintedAll(items);
    ok := true;
    CleanedRuns(items, file);
    code := CleanUp(oline);
  }

  lemma NothingYet(file: string)
    ensures Emit([], file) == "" && PrintedAll([]) == ""
  {
  }

  function MarkLine(n: nat, file: string): string {
    "\n#line " + Digits(n) + " \"" + file + "\"\n"
  }

  lemma MarkProper(n: nat, file: string)
    requires NUL !in file
    ensures Proper(LineMark(n)) && Printed(LineMark(n)) == ""
    ensures MarkLine(n, file) == PieceCode(LineMark(n), file) && NUL !in MarkLine(n, file)
  {
    hide Digits;
    DigitsPlain(n);
  }
}
