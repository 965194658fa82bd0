/** Lines of text that are continued (cld.c), told without the state of the compiler: a run of physical lines, all
    before its last ending in a backslash, is one line of text, its pieces one behind the other. */
module TextRuns {
  import opened CStrings
  import opened CharMaps
  import opened FreeText

  /** A physical line is trimmed if it is the first, or begins with whitespace. */
  function Core(raw: string, first: bool): string {
    if first || (raw != "" && IsSpace(raw[0])) then Trim(raw) else raw
  }

  /** And if it is continued, it gives all that is before its backslash. */
  function Piece(raw: string, first: bool, last: bool): string {
    if last then Core(raw, first) else
      var t := TrimRight(Core(raw, first));
      if t == "" then "" else t[..|t| - 1]
  }

  function Pieces(run: seq<string>, first: bool): string {
    if run == [] then "" else Piece(run[0], first, |run| == 1) + Pieces(run[1..], false)
  }

  predicate EndsInBackslash(t: string) {
    t != "" && t[|t| - 1] == '\\'
  }

  predicate IsRun(run: seq<string>) {
    run != [] && forall k :: 0 <= k < |run| - 1 ==> EndsInBackslash(Trim(run[k]))
  }

  /** The line of text that a run of physical lines is. */
  function LineOf(run: seq<string>): string {
    Trim(Pieces(run, true))
  }

  // ----- Trimming what is put together

  predicate Begun(carry: string) {
    carry != "" ==> !IsSpace(carry[0])
  }

  lemma TrimSame(s: string, i: nat, t: string)
    requires i <= |s| && Begun(s) && t == s[..i] && (forall k :: i <= k < |s| ==> IsSpace(s[k]))
    requires t != "" ==> !IsSpace(t[|t| - 1])
    ensures Trim(s) == t
  {
    hide Trim;
    TrimUnique(s, 0, i);
    assert s[0..i] == s[..i];
  }

  /** Behind text that begins a line, only the whitespace at the end goes. */
  lemma TrimBehind(a: string, x: string)
    requires a != "" && Begun(a)
    ensures TrimRight(x) != "" ==> Trim(a + x) == a + TrimRight(x)
    ensures TrimRight(x) == "" ==> Trim(a + x) == TrimRight(a)
  {
    hide TrimRight, Trim;
    var r, l := TrimRight(x), TrimRight(a);
    var s := a + x;
    assert forall k :: |r| <= k < |x| ==> IsSpace(x[k]);
    if r != "" {
      assert s[..|a| + |r|] == a + r;
      forall k | |a| + |r| <= k < |s| ensures IsSpace(s[k]) { assert s[k] == x[k - |a|]; }
      TrimSame(s, |a| + |r|, a + r);
    } else {
      assert s[..|l|] == l;
      forall k | |l| <= k < |s| ensures IsSpace(s[k]) {
        if k >= |a| { assert s[k] == x[k - |a|]; }
      }
      TrimSame(s, |l|, l);
    }
  }

  /** What trimming does to the one side and to the other. */
  lemma TrimSides(x: string)
    ensures Trim(Trim(x)) == Trim(x) && TrimRight(Trim(x)) == Trim(x) && Begun(Trim(x))
    ensures Begun(x) ==> TrimRight(x) == Trim(x)
    ensures |x| == 1 && IsSpace(x[0]) ==> Trim(x) == ""
  {
    hide Trim, TrimLeft, TrimRight;
    var i, j := TrimBounds(x);
    var t := Trim(x);
    assert t != "" ==> t[0] == x[i] && t[|t| - 1] == x[j - 1];
    TrimSame(t, |t|, t);
    TrimRightKeeps(t);
    if Begun(x) {
      var r := TrimRight(x);
      TrimSame(x, |r|, r);
    }
  }

  lemma TrimRightKeeps(t: string)
    requires t != "" ==> !IsSpace(t[|t| - 1])
    ensures TrimRight(t) == t
  {
  }

  // ----- One run

  /** A line that is to be continued: what is kept of it is its piece. */
  lemma MiddleLine(carry: string, raw: string, first: bool)
    requires Begun(carry) && (first ==> carry == "") && EndsInBackslash(Trim(raw))
    ensures var t := Trim(Continued(carry, raw));
            EndsInBackslash(t) && t[..|t| - 1] == carry + Piece(raw, first, false) && Begun(t[..|t| - 1])
  {
    hide Trim, TrimLeft, TrimRight;
    TrimSides(raw);
    if carry == "" {
      assert Continued(carry, raw) == raw;
      assert TrimRight(Core(raw, first)) == Trim(raw);
    } else {
      var x := Core(raw, first);
      assert Continued(carry, raw) == carry + x;
      assert TrimRight(x) == (if IsSpace(raw[0]) then Trim(raw) else TrimRight(raw));
      TrimBehind(carry, x);
    }
  }

  lemma LastLine(carry: string, raw: string, first: bool)
    requires Begun(carry) && (first ==> carry == "")
    ensures Trim(Continued(carry, raw)) == Trim(carry + Piece(raw, first, true))
  {
    hide Trim, TrimLeft, TrimRight;
    TrimSides(raw);
    var x := Core(raw, first);
    if carry == "" {
      assert Continued(carry, raw) == raw && carry + x == x;
    } else if |raw| == 1 && IsSpace(raw[0]) {
      TrimBehind(carry, raw);
      TrimBehind(carry, "");
      BlankEnd(raw);
      assert carry + x == carry + "";
    } else {
      assert Continued(carry, raw) == carry + x;
    }
  }

  lemma BlankEnd(raw: string)
    requires |raw| == 1 && IsSpace(raw[0])
    ensures TrimRight(raw) == "" && TrimRight("") == ""
  {
    assert raw[..0] == "";
  }

  /** What follows the first physical line of a run. */
  lemma RunStep(carry: string, run: seq<string>, first: bool)
    requires IsRun(run) && |run| > 1
    ensures IsRun(run[1..])
    ensures carry + Pieces(run, first) == carry + Piece(run[0], first, false) + Pieces(run[1..], false)
  {
    hide Trim, Piece;
  }

  lemma OnePiece(run: seq<string>, first: bool)
    requires |run| == 1
    ensures Pieces(run, first) == Piece(run[0], first, true)
  {
    hide Piece;
    assert run[1..] == [] && Pieces([], false) == "";
  }

  lemma {:induction false} RunFrom(carry: string, run: seq<string>, rest: seq<string>, first: bool)
    requires Begun(carry) && (first ==> carry == "") && IsRun(run)
    ensures var line := Trim(carry + Pieces(run, first));
            && (!EndsInBackslash(line) ==>
                  && Logical(run + rest, carry) == [line] + Logical(rest, "")
                  && (Accepted(run + rest, carry) ==> IsText(line) && Accepted(rest, ""))
                  && (|carry| + Width(run) < 8095 && IsText(line) && Accepted(rest, "") ==> Accepted(run + rest, carry)))
            && (EndsInBackslash(line) ==> Logical(run + rest, carry) == Logical(rest, line[..|line| - 1]))
    decreases |run|
  {
    hide Trim, Continued, Piece, Pieces, IsText;
    var raw, all := run[0], run + rest;
    assert all[0] == raw && all[1..] == run[1..] + rest;
    ContinuedWidth(carry, raw);
    if |run| == 1 {
      LastLine(carry, raw, first);
      OnePiece(run, first);
      assert run[1..] + rest == rest;
    } else {
      MiddleLine(carry, raw, first);
      PieceWidth(raw, first);
      RunStep(carry, run, first);
      RunFrom(carry + Piece(raw, first, false), run[1..], rest, false);
    }
  }

  function Width(run: seq<string>): nat {
    if run == [] then 0 else |run[0]| + Width(run[1..])
  }

  lemma ContinuedWidth(carry: string, raw: string)
    ensures |Continued(carry, raw)| <= |carry| + |raw|
  {
    hide TrimLeft, TrimRight;
  }

  lemma PieceWidth(raw: string, first: bool)
    ensures |Piece(raw, first, false)| <= |raw|
  {
    hide TrimLeft, TrimRight;
  }

  /** The first run of a file: its line of text is the trim of its pieces, in the order of the source, and it is taken
      when that is text, unless it is too long.  (A run whose line still ends in a backslash goes on.) */
  lemma RunIsLine(run: seq<string>, rest: seq<string>)
    requires IsRun(run)
    ensures !EndsInBackslash(LineOf(run)) ==>
              && Logical(run + rest, "") == [LineOf(run)] + Logical(rest, "")
              && (Accepted(run + rest, "") ==> IsText(LineOf(run)) && Accepted(rest, ""))
              && (Width(run) < 8095 && IsText(LineOf(run)) && Accepted(rest, "") ==> Accepted(run + rest, ""))
    ensures EndsInBackslash(LineOf(run)) ==> Logical(run, "") == []
  {
    hide Trim, Pieces, Accepted, IsText, Logical;
    assert "" + Pieces(run, true) == Pieces(run, true);
    RunFrom("", run, rest, true);
    RunFrom("", run, [], true);
    assert run + [] == run;
    NoLines();
    NothingToJoin(LineOf(run));
  }

  /** A line is text when it holds no markup and the last of its characters that is no quote, backslash or percent sign is
      no semicolon. */
  lemma IsTextIff(t: string)
    ensures IsText(t) <==>
            && (forall k :: 0 <= k < |t| - 1 ==> !(t[k] == '<' && t[k + 1] == '?'))
            && (forall k :: 0 <= k < |t| && t[k] == ';' ==> exists j :: k < j < |t| && t[j] !in "\"\\%")
  {
    hide EndsInSemicolon, IndexOf;
    MarkupIff(t);
    SemicolonIff(t);
  }

  lemma MarkupIff(t: string)
    ensures IndexOf(t, "<?") < 0 <==> forall k :: 0 <= k < |t| - 1 ==> !(t[k] == '<' && t[k + 1] == '?')
  {
    hide IndexOf, At;
    var i := IndexOf(t, "<?");
    AtMarkup(t, i);
    forall k | 0 <= k < |t| - 1 && t[k] == '<' && t[k + 1] == '?' ensures i >= 0 { AtMarkup(t, k); }
  }

  lemma SemicolonIff(t: string)
    ensures EndsInSemicolon(t) <==> !forall k :: 0 <= k < |t| && t[k] == ';' ==> exists j :: k < j < |t| && t[j] !in "\"\\%"
  {
    assert forall c :: Special(c) <==> c in "\"\\%";
  }

  lemma AtMarkup(t: string, k: int)
    ensures At(t, k, "<?") <==> 0 <= k && k + 2 <= |t| && t[k] == '<' && t[k + 1] == '?'
  {
    if 0 <= k && k + 2 <= |t| { assert t[k..k + 2] == [t[k], t[k + 1]]; }
  }

  lemma NothingToJoin(t: string)
    ensures t != "" ==> Logical([], t[..|t| - 1]) == []
  {
  }

  // ----- Whole files

  function FileOf(runs: seq<seq<string>>): seq<string> {
    if runs == [] then [] else runs[0] + FileOf(runs[1..])
  }

  /** What a file of runs is to print: the line of each, with one end of line, in order; blank ones within write-string
      only. */
  function PrintedRuns(runs: seq<seq<string>>, inString: bool): string
    decreases |runs|
  {
    hide LineOf;
    if runs == [] then "" else
      (if LineOf(runs[0]) != "" || inString then LineOf(runs[0]) + "\n" else "") + PrintedRuns(runs[1..], inString)
  }

  lemma {:induction false} RunsArePrinted(runs: seq<seq<string>>, inString: bool)
    requires forall k :: 0 <= k < |runs| ==> IsRun(runs[k]) && !EndsInBackslash(LineOf(runs[k]))
    ensures Wanted(Logical(FileOf(runs), ""), inString) == PrintedRuns(runs, inString)
    ensures Accepted(FileOf(runs), "") ==> forall k :: 0 <= k < |runs| ==> IsText(LineOf(runs[k]))
    ensures (forall k :: 0 <= k < |runs| ==> IsText(LineOf(runs[k])) && Width(runs[k]) < 8095) ==> Accepted(FileOf(runs), "")
  {
    hide LineOf, IsText, Accepted, Logical, IsRun, EndsInBackslash;
    if runs == [] {
      EmptyFile(inString);
    } else {
      RunIsLine(runs[0], FileOf(runs[1..]));
      RunsArePrinted(runs[1..], inString);
      var lines := Logical(FileOf(runs[1..]), "");
      assert ([LineOf(runs[0])] + lines)[1..] == lines;
    }
  }

  lemma EmptyFile(inString: bool)
    ensures Accepted([], "") && Wanted(Logical([], ""), inString) == ""
  {
  }
}
