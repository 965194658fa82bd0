/** The output of a request: one growing buffer shared by the web client and up to five nested write-strings,
    flushed at arbitrary moments.  It refines a stack of texts to whose top everything is printed. */
module OutputBuffer {
  import opened CStrings
  import Codec

  const PRINTF_ADD_LEN := 32 * 1024
  const PRINTF_MAX_LEN := 128 * 1024
  const MAX_NESTED_WRITE_STRING := 5

  datatype Enc = NoEnc | Encode(mode: Codec.Mode)

  function EncodedAs(enc: Enc, s: string): string {
    if enc.NoEnc? then s else Codec.Encoded(enc.mode, s)
  }

  /** The simple form: the text for the web client, and the texts of the write-strings in progress. */
  datatype Printed = Printed(web: string, open: seq<string>)

  function Print(p: Printed, s: string): Printed {
    if p.open == [] then p.(web := p.web + s)
    else p.(open := p.open[|p.open| - 1 := p.open[|p.open| - 1] + s])
  }

  /** A string variable of the program. */
  class StrVar {
    var text: string
    constructor (s: string)
      ensures text == s
    {
      text := s;
    }
  }

  /** A level of writing to strings; `len` is how much of the string has been written. */
  datatype Level = Level(target: StrVar?, len: nat)

  /** The character before position `n`: at the start of a block, the last byte of the header of its memory, which is the
      highest of the eight bytes of its size. */
  function Behind(s: string, n: nat): char
    requires n <= |s|
  {
    if n == 0 then NUL else s[n - 1]
  }

  /** Writing a C string behind the first `pos` characters of a buffer. */
  lemma AppendText(b: seq<char>, pos: nat, s: string)
    requires pos + |s| < |b| && NUL !in s && NUL !in b[..pos]
    ensures var d := Copied(b, pos, s + [NUL]);
            && d[..pos + |s|] == b[..pos] + s
            && NUL !in d[..pos + |s|] && d[pos + |s|] == NUL
  {
    var d := Copied(b, pos, s + [NUL]);
    assert d[..pos + |s|] == b[..pos] + s;
  }

  /** What a program does with its output; `formatted`: by cld_printf instead of cld_puts. */
  datatype Op = Put(enc: Enc, s: string, formatted: bool) | Open(was: string) | Close | Header | FlushNow

  /** The simple form with what it takes to tell how a string is closed: the strings being written held `were`
      before, `pos` characters of the text for the active target are pending, and the strings closed so far are
      `closed`. */
  datatype Simple = Simple(p: Printed, were: seq<string>, pos: nat, closed: seq<string>)

  const NOTHING := Simple(Printed("", []), [], 0, [])

  /** A closed string, from all that was printed to it. */
  function ClosedText(full: string, pending: bool, before: string): string {
    if full == "" then before else if pending then TrimRight(full) else full
  }

  /** One step; `disabled`: nothing is printed to the web. */
  function Do(s: Simple, op: Op, disabled: bool): Simple {
    match op
    case Put(enc, text, _) =>
      if disabled && s.p.open == [] then s else
        var e := EncodedAs(enc, text);
        s.(p := Print(s.p, e), pos := (if s.pos >= PRINTF_MAX_LEN then 0 else s.pos) + |e|)
    case Open(was) => s.(p := s.p.(open := s.p.open + [""]), were := s.were + [was], pos := 0)
    case Close =>
      if s.p.open == [] || |s.were| != |s.p.open| then s else
        var n := |s.p.open| - 1;
        Simple(s.p.(open := s.p.open[..n]), s.were[..n], 0, s.closed + [ClosedText(s.p.open[n], s.pos > 0, s.were[n])])
    case Header => s
    case FlushNow => s.(pos := 0)
  }

  function Run(s: Simple, ops: seq<Op>, disabled: bool): Simple
    decreases |ops|
  {
    if ops == [] then s else Run(Do(s, ops[0], disabled), ops[1..], disabled)
  }

  /** Starting inside `d` write-strings, the steps never close more than those and end inside `e`. */
  predicate Nested(ops: seq<Op>, d: nat, e: nat)
    decreases |ops|
  {
    if ops == [] then d == e
    else match ops[0]
      case Open(_) => Nested(ops[1..], d + 1, e)
      case Close => d > 0 && Nested(ops[1..], d - 1, e)
      case _ => Nested(ops[1..], d, e)
  }

  /** What is printed inside a write-string, with everything nested in it, reaches neither the web nor the
      write-strings around it. */
  lemma {:induction false} NestingIsolates(s: Simple, ops: seq<Op>, disabled: bool, d: nat, e: nat)
    requires Nested(ops, d, e) && |s.p.open| > d && |s.were| == |s.p.open|
    ensures var p, q := s.p, Run(s, ops, disabled).p;
            && |q.open| == |p.open| - d + e && q.web == p.web
            && q.open[..|p.open| - d - 1] == p.open[..|p.open| - d - 1]
    decreases |ops|
  {
    hide ClosedText, EncodedAs;
    if ops != [] {
      var d' := match ops[0] case Open(_) => d + 1 case Close => d - 1 case _ => d;
      NestingIsolates(Do(s, ops[0], disabled), ops[1..], disabled, d', e);
    }
  }

  /** Without the steps that only flush. */
  function Unflushed(ops: seq<Op>): seq<Op> {
    if ops == [] then [] else (if ops[0].FlushNow? then [] else [ops[0]]) + Unflushed(ops[1..])
  }

  predicate SameButSpace(a: seq<string>, b: seq<string>) {
    |a| == |b| && forall k :: 0 <= k < |a| ==> TrimRight(a[k]) == TrimRight(b[k])
  }

  /** Whatever is pending, wherever the program flushes: every target gets the same text, and the closed strings
      differ at most in whitespace at their ends. */
  lemma {:induction false} FlushesUnseen(s: Simple, t: Simple, ops: seq<Op>, disabled: bool)
    requires s.p == t.p && s.were == t.were && SameButSpace(s.closed, t.closed)
    ensures var x, y := Run(s, ops, disabled), Run(t, Unflushed(ops), disabled);
            x.p == y.p && SameButSpace(x.closed, y.closed)
    decreases |ops|
  {
    hide TrimRight, EncodedAs;
    if ops != [] {
      if ops[0].FlushNow? {
        assert Unflushed(ops) == Unflushed(ops[1..]);
        FlushesUnseen(s.(pos := 0), t, ops[1..], disabled);
      } else {
        assert Unflushed(ops)[0] == ops[0] && Unflushed(ops)[1..] == Unflushed(ops[1..]);
        StepUnseen(s, t, ops[0], disabled);
        FlushesUnseen(Do(s, ops[0], disabled), Do(t, ops[0], disabled), ops[1..], disabled);
      }
    }
  }

  lemma StepUnseen(s: Simple, t: Simple, op: Op, disabled: bool)
    requires s.p == t.p && s.were == t.were && SameButSpace(s.closed, t.closed)
    ensures Do(s, op, disabled).p == Do(t, op, disabled).p && Do(s, op, disabled).were == Do(t, op, disabled).were
    ensures SameButSpace(Do(s, op, disabled).closed, Do(t, op, disabled).closed)
  {
    hide TrimRight, EncodedAs;
    if op.Close? && s.p.open != [] {
      TrimTwice(s.p.open[|s.p.open| - 1]);
    }
  }

  lemma TrimTwice(x: string)
    ensures TrimRight(TrimRight(x)) == TrimRight(x)
  {
    var y := TrimRight(x);
    TrimRightIs(y, |y|);
    assert y[..|y|] == y;
  }

  /** Still the moment of a flush can show: this string keeps its blank, because nothing is pending when it is
      closed; without the flush it loses it. */
  lemma UntrimmedClose(disabled: bool)
    ensures Run(NOTHING, [Open(""), Put(NoEnc, "x ", false), FlushNow, Close], disabled).closed == ["x "]
    ensures Run(NOTHING, [Open(""), Put(NoEnc, "x ", false), Close], disabled).closed == ["x"]
  {
    hide TrimRight, Do;
    OpenPut(disabled);
    CloseBlank(disabled);
    RunSteps(NOTHING, [Open(""), Put(NoEnc, "x ", false), FlushNow, Close], disabled);
    RunSteps(NOTHING, [Open(""), Put(NoEnc, "x ", false), Close], disabled);
  }

  lemma OpenPut(disabled: bool)
    ensures Do(Do(NOTHING, Open(""), disabled), Put(NoEnc, "x ", false), disabled) ==
            Simple(Printed("", ["x "]), [""], 2, [])
  {
    assert "" + "x " == "x " && [] + [""] == [""] && [""][0 := "" + "x "] == ["x "];
  }

  lemma CloseBlank(disabled: bool)
    ensures var s := Simple(Printed("", ["x "]), [""], 2, []);
            && Do(s, Close, disabled).closed == ["x"]
            && Do(Do(s, FlushNow, disabled), Close, disabled).closed == ["x "]
  {
    hide TrimRight;
    TrimRightIs("x ", 1);
    assert "x "[..1] == "x";
  }

  lemma RunSteps(s: Simple, ops: seq<Op>, disabled: bool)
    requires 3 <= |ops| <= 4
    ensures var t := Do(Do(Do(s, ops[0], disabled), ops[1], disabled), ops[2], disabled);
            Run(s, ops, disabled) == if |ops| == 3 then t else Do(t, ops[3], disabled)
  {
    hide Do;
    var s1 := Do(s, ops[0], disabled);
    var s2 := Do(s1, ops[1], disabled);
    var s3 := Do(s2, ops[2], disabled);
    var ops1 := ops[1..];
    var ops2 := ops1[1..];
    var ops3 := ops2[1..];
    assert Run(s, ops, disabled) == Run(s1, ops1, disabled);
    assert Run(s1, ops1, disabled) == Run(s2, ops2, disabled);
    assert Run(s2, ops2, disabled) == Run(s3, ops3, disabled);
    if |ops| == 4 {
      assert Run(s3, ops3, disabled) == Run(Do(s3, ops[3], disabled), ops3[1..], disabled);
    }
  }

  /** Texts are C strings. */
  predicate Clean(ops: seq<Op>) {
    forall k :: 0 <= k < |ops| && ops[k].Put? ==> NUL !in ops[k].s
  }

  /** Whether pending text can be flushed: text for the web only behind the header. */
  predicate Flushes(s: Simple, sent: bool, disabled: bool) {
    s.p.open != [] || disabled || s.pos == 0 || sent
  }

  /** Whether a step succeeds; `sent`: the header has been sent. */
  predicate Works(s: Simple, op: Op, sent: bool, disabled: bool) {
    match op
    case Put(_, _, _) => s.pos < PRINTF_MAX_LEN || Flushes(s, sent, disabled)
    case Open(_) => |s.p.open| < MAX_NESTED_WRITE_STRING && Flushes(s, sent, disabled)
    case Close => s.p.open != []
    case Header => true
    case FlushNow => Flushes(s, sent, disabled)
  }

  /** Whether all steps succeed, and so does the flush at the end of the request; `spoke`: some text has been printed.
      A request that ends inside a write-string must have. */
  predicate Succeeds(s: Simple, ops: seq<Op>, sent: bool, spoke: bool, disabled: bool)
    decreases |ops|
  {
    if ops == [] then if s.p.open == [] then Flushes(s, sent, disabled) else spoke
    else
      var t := Do(s, ops[0], disabled);
      && Works(s, ops[0], sent, disabled)
      && Succeeds(t, ops[1..], sent || ops[0].Header?, spoke || t.pos > 0, disabled)
  }

  /** Once the header is sent, or when there is nothing to send, a program succeeds and leaves no write-string open exactly
      when it pairs them. */
  lemma {:induction false} PairedIff(s: Simple, ops: seq<Op>, sent: bool, spoke: bool, disabled: bool)
    requires (sent || disabled) && |s.were| == |s.p.open|
    ensures Paired(ops, |s.p.open|) <==> Succeeds(s, ops, sent, spoke, disabled) && Run(s, ops, disabled).p.open == []
    decreases |ops|
  {
    hide EncodedAs, ClosedText;
    if ops != [] && Works(s, ops[0], sent, disabled) {
      var t := Do(s, ops[0], disabled);
      PairedIff(t, ops[1..], sent || ops[0].Header?, spoke || t.pos > 0, disabled);
    }
  }

  /** Write-strings are opened and closed in pairs, at most MAX_NESTED_WRITE_STRING at once; `d` are open. */
  predicate Paired(ops: seq<Op>, d: nat)
    decreases |ops|
  {
    if ops == [] then d == 0
    else match ops[0]
      case Open(_) => d < MAX_NESTED_WRITE_STRING && Paired(ops[1..], d + 1)
      case Close => d > 0 && Paired(ops[1..], d - 1)
      case _ => Paired(ops[1..], d)
  }

  /** The levels in use are the first curr + 1, each with a string of its own. */
  ghost predicate Stacked(levels: seq<Level>, curr: int) {
    && (forall i :: 0 <= i < |levels| ==> (levels[i].target != null <==> i <= curr))
    && (forall i, j :: 0 <= i < j <= curr && j < |levels| ==> levels[i].target != levels[j].target)
  }

  /** No level writes to the string. */
  ghost predicate Unused(levels: seq<Level>, v: StrVar) {
    forall i :: 0 <= i < |levels| ==> levels[i].target != v
  }

  /** What the string of a level has received so far. */
  ghost function Held(l: Level): string
    reads l.target
  {
    if l.len == 0 || l.target == null then "" else l.target.text
  }

  /** The first n levels hold the texts in progress. */
  ghost predicate Reflects(levels: seq<Level>, open: seq<string>, n: int)
    reads set i | 0 <= i < |levels| :: levels[i].target
  {
    && n <= |levels| && n <= |open|
    && forall i :: 0 <= i < n ==> |Held(levels[i])| == levels[i].len && open[i] == Held(levels[i])
  }

  /** A string that nothing has gone to yet is as it was. */
  ghost predicate Untouched(levels: seq<Level>, were: seq<string>)
    reads set i | 0 <= i < |levels| :: levels[i].target
  {
    && |were| <= |levels|
    && forall i :: 0 <= i < |were| && levels[i].len == 0 && levels[i].target != null ==> levels[i].target.text == were[i]
  }

  lemma UntouchedPush(levels: seq<Level>, were: seq<string>, v: StrVar)
    requires Untouched(levels, were) && |were| < |levels|
    ensures Untouched(levels[|were| := Level(v, 0)], were + [v.text])
  {
  }

  lemma UntouchedPop(levels: seq<Level>, were: seq<string>, l: Level)
    requires Untouched(levels, were) && were != []
    ensures var n := |were| - 1; Untouched(levels[n := l], were[..n])
  {
  }

  /** With nothing pending, also the top level holds its text, and a level more can go on top of it. */
  lemma ReflectsPush(levels: seq<Level>, open: seq<string>, curr: int, v: StrVar)
    requires -1 <= curr < |levels| - 1 && |open| == curr + 1 && Reflects(levels, open, curr)
    requires curr >= 0 ==> |Held(levels[curr])| == levels[curr].len && open[curr] == Held(levels[curr])
    ensures Reflects(levels[curr + 1 := Level(v, 0)], open + [""], curr + 1)
    ensures Held(Level(v, 0)) == ""
  {
  }

  lemma StackPush(levels: seq<Level>, curr: int, v: StrVar)
    requires Stacked(levels, curr) && -1 <= curr < |levels| - 1
    requires forall i :: 0 <= i < |levels| ==> levels[i].target != v
    ensures Stacked(levels[curr + 1 := Level(v, 0)], curr + 1)
  {
  }

  class Output {
    var buf: array?<char>
    var bufPos: nat
    var curr: int
    var levels: seq<Level>
    var sentHeader: bool
    var anyOutput: bool
    var web: string
    const disableOutput: bool
    ghost var printed: Printed
    /** What the strings being written held when their writing began. */
    ghost var were: seq<string>

    ghost function Pending(): string
      reads this, buf
    {
      if buf != null && bufPos <= buf.Length then buf[..bufPos] else ""
    }

    ghost predicate Buffered()
      reads this, buf
    {
      && (buf != null ==> bufPos < buf.Length && NUL !in buf[..bufPos])
      && (buf == null ==> bufPos == 0)
    }

    /** The pending text is followed by a NUL. */
    ghost predicate Terminated()
      reads this, buf
    {
      buf != null && 0 < bufPos < buf.Length ==> buf[bufPos] == NUL
    }

    ghost predicate Levels()
      reads this
    {
      |levels| == MAX_NESTED_WRITE_STRING && -1 <= curr < MAX_NESTED_WRITE_STRING && Stacked(levels, curr)
    }

    ghost function Targets(): set<object>
      reads this
    {
      set i | 0 <= i < |levels| && levels[i].target != null :: levels[i].target
    }

    /** The string that output goes to. */
    ghost function Top(): set<object>
      reads this
    {
      if 0 <= curr < |levels| && levels[curr].target != null then {levels[curr].target} else {}
    }

    /** What every target holds, plus the pending text for the active one, is what was printed to it. */
    ghost predicate Valid()
      reads this, buf, Targets()
    {
      Core() && Terminated()
    }

    ghost predicate Core()
      reads this, buf, Targets()
    {
      && Buffered() && Levels()
      && |printed.open| == curr + 1
      && Reflects(levels, printed.open, curr)
      && |were| == curr + 1 && Untouched(levels, were)
      && (curr >= 0 ==>
            && |Held(levels[curr])| == levels[curr].len
            && printed.open[curr] == Held(levels[curr]) + Pending() && printed.web == web)
      && (curr == -1 ==> printed.web == web + Pending())
      && (curr == -1 && disableOutput ==> bufPos == 0)
    }

    constructor (disabled: bool)
      ensures Valid() && printed == Printed("", []) && disableOutput == disabled && web == "" && buf == null
      ensures !sentHeader && !Spoke() && were == []
      ensures forall i :: 0 <= i < |levels| ==> levels[i].target == null
    {
      buf, bufPos, curr := null, 0, -1;
      levels := seq(MAX_NESTED_WRITE_STRING, _ => Level(null, 0));
      sentHeader, anyOutput, web := false, false, "";
      disableOutput := disabled;
      printed, were := Printed("", []), [];
    }

    lemma NonePending(s: string)
      requires bufPos == 0
      ensures s + Pending() == s
    {
      assert Pending() == "";
    }

    /** cld_copy_data_at_offset: the string is cut at the offset and the C string in the buffer put there. */
    method CopyAtOffset(target: StrVar, off: nat) returns (n: nat)
      requires Buffered() && Terminated() && bufPos > 0 && off <= |target.text|
      modifies target
      ensures target.text == old(target.text)[..off] + Pending() && n == bufPos
    {
      TextIs(buf[..], buf[..bufPos]);
      n := |Text(buf[..])|;
      target.text := target.text[..off] + Text(buf[..]);
    }

    /** The loop that drops trailing whitespace of a string that is being closed. */
    method TrimEnd(target: StrVar, len: nat) returns (n: nat)
      requires len == |target.text|
      modifies target
      ensures target.text == TrimRight(old(target.text)) && n == |target.text|
    {
      n := len;
      assert target.text[..n] == target.text;
      while IsSpace(Behind(target.text, n))
        invariant 0 <= n <= len && TrimRight(target.text[..n]) == TrimRight(target.text)
        decreases n
      {
        assert target.text[..n][..n - 1] == target.text[..n - 1];
        n := n - 1;
      }
      target.text := target.text[..n];
    }

    /** A string that is all trimmed away has no text any more, as if it had been empty before. */
    ghost function WereThen(were: seq<string>, trimmed: string): seq<string> {
      if trimmed == "" && were != [] then were[..|were| - 1] + [""] else were
    }

    /** Flushing to the string of the active level. */
    method FlushToString()
      requires Valid() && curr >= 0 && bufPos > 0
      modifies this`bufPos, this`levels, Top()
      ensures Valid() && bufPos == 0 && Same(old(levels), levels)
    {
      hide IsCStr, Text;
      var n := CopyAtOffset(levels[curr].target, levels[curr].len);
      levels := levels[curr := Level(levels[curr].target, levels[curr].len + n)];
      bufPos := 0;
    }

    /** Trimming the string of the active level when it is closed. */
    method TrimTop()
      requires Valid() && curr >= 0 && bufPos == 0 && printed.open[curr] != ""
      modifies this`levels, this`printed, this`were, Top()
      ensures Valid() && Same(old(levels), levels)
      ensures were == WereThen(old(were), TrimRight(old(printed.open)[curr]))
      ensures printed == old(printed).(open := old(printed.open)[curr := TrimRight(old(printed.open)[curr])])
    {
      hide IsCStr, Text, TrimRight;
      ghost var full := printed.open[curr];
      NonePending(Held(levels[curr]));
      var m := TrimEnd(levels[curr].target, levels[curr].len);
      levels := levels[curr := Level(levels[curr].target, m)];
      printed := printed.(open := printed.open[curr := TrimRight(printed.open[curr])]);
      were := WereThen(were, TrimRight(full));
      NonePending(Held(levels[curr]));
    }

    /** cld_flush_printf.  `isEnd` is set only when a write-string is being closed; a failing call ends the
        program.  Apart from the trimming at a close, a flush cannot be observed in what was printed. */
    method Flush(fin: bool, isEnd: bool) returns (ok: bool)
      requires Valid()
      requires isEnd && bufPos > 0 ==> curr >= 0
      modifies this`bufPos, this`levels, this`anyOutput, this`web, this`printed, this`were, Top()
      ensures ok <==> if curr == -1 then disableOutput || old(bufPos) == 0 || sentHeader
                      else !fin || old(anyOutput) || old(bufPos) > 0
      ensures ok ==> Valid() && bufPos == 0 && Same(old(levels), levels)
      ensures ok && isEnd && old(bufPos) > 0 ==>
                printed == old(printed).(open := old(printed.open)[curr := TrimRight(old(printed.open)[curr])])
      ensures ok && isEnd && old(bufPos) > 0 ==> were == WereThen(old(were), TrimRight(old(printed.open)[curr]))
      ensures !(isEnd && old(bufPos) > 0) ==> were == old(were)
      ensures ok && !(isEnd && old(bufPos) > 0) ==> printed == old(printed)
      ensures anyOutput == old(Spoke())
      ensures ok && old(bufPos) == 0 ==> levels == old(levels) && unchanged(Top())
    {
      hide IsCStr, Text, TrimRight;
      var anyHere := bufPos > 0;
      if anyHere { anyOutput := true; }
      var toWrite := bufPos;
      if disableOutput && curr == -1 { return true; }
      if !anyOutput && fin && curr != -1 { return false; }
      if anyHere {
        if curr != -1 {
          FlushToString();
          if isEnd { TrimTop(); }
        } else {
          if !sentHeader { return false; }
          web := web + buf[..toWrite];
          bufPos := 0;
        }
      }
      ok := true;
    }

    /** Whether any text has been printed. */
    ghost predicate Spoke()
      reads this
    {
      anyOutput || bufPos > 0
    }

    /** Doubling the buffer by realloc. */
    method Grow()
      requires Core() && buf != null
      modifies this`buf
      ensures Core() && (old(Terminated()) ==> Terminated()) && Pending() == old(Pending()) && buf != null && fresh(buf)
      ensures buf.Length == old(buf.Length) + PRINTF_ADD_LEN
    {
      var more := new char[buf.Length + PRINTF_ADD_LEN](_ => NUL);
      Memcpy(more, 0, buf[..]);
      assert more[..bufPos] == buf[..bufPos];
      buf := more;
    }

    /** Putting `s` and its NUL behind the pending text. */
    method Append(s: string)
      requires Core() && buf != null && NUL !in s && bufPos + |s| < buf.Length
      requires !(curr == -1 && disableOutput)
      modifies this`bufPos, this`printed, buf
      ensures Valid() && printed == Print(old(printed), s) && bufPos == old(bufPos) + |s|
    {
      AppendText(buf[..], bufPos, s);
      Memcpy(buf, bufPos, s + [NUL]);
      Advance(s);
    }

    /** `s` and its NUL are in the buffer behind the pending text: it becomes pending, and counts as printed. */
    method Advance(s: string)
      requires Core() && buf != null && bufPos + |s| < buf.Length && !(curr == -1 && disableOutput)
      requires buf[..bufPos + |s|] == buf[..bufPos] + s && NUL !in s && buf[bufPos + |s|] == NUL
      modifies this`bufPos, this`printed
      ensures Valid() && printed == Print(old(printed), s) && bufPos == old(bufPos) + |s|
    {
      ghost var pending := Pending();
      bufPos := bufPos + |s|;
      printed := Print(printed, s);
      assert Pending() == pending + s;
      Assoc(web, pending, s);
      if curr >= 0 { Assoc(Held(levels[curr]), pending, s); }
    }

    /** cld_puts_final */
    method PutsFinal(finalOut: string) returns (res: nat)
      requires Core() && buf != null && NUL !in finalOut
      requires !(curr == -1 && disableOutput)
      modifies this`buf, this`bufPos, this`printed, buf
      ensures Valid() && printed == Print(old(printed), finalOut) && res == |finalOut|
      ensures bufPos == old(bufPos) + |finalOut|
      ensures buf == old(buf) || fresh(buf)
    {
      while |finalOut| > buf.Length - 1 - bufPos
        invariant Core() && buf != null && (buf == old(buf) || fresh(buf))
        invariant bufPos == old(bufPos) && printed == old(printed)
        decreases |finalOut| + bufPos - buf.Length
      {
        Grow();
      }
      Append(finalOut);
      res := |finalOut|;
    }

    /** cld_validate_output: whether anything can be printed; a failing call ends the program. */
    method ValidateOutput() returns (ok: bool, can: bool)
      requires Valid()
      modifies this`buf, this`bufPos, this`levels, this`anyOutput, this`web, this`printed, this`were, Top()
      ensures ok ==> Valid() && printed == old(printed) && Same(old(levels), levels)
      ensures ok <==> old(bufPos) < PRINTF_MAX_LEN || curr != -1 || disableOutput || sentHeader
      ensures Spoke() == old(Spoke()) && were == old(were)
      ensures ok ==> can == !(disableOutput && curr == -1) && (can ==> buf != null)
      ensures ok ==> bufPos == Kept(old(bufPos))
      ensures buf == old(buf) || fresh(buf)
    {
      hide IsCStr, Text;
      if disableOutput && curr == -1 { return true, false; }
      if buf == null {
        buf := new char[PRINTF_ADD_LEN](_ => NUL);
      }
      if bufPos >= PRINTF_MAX_LEN {
        ok := Flush(false, false);
        return ok, true;
      }
      return true, true;
    }

    /** How much stays pending when something is about to be printed. */
    ghost function Kept(pos: nat): nat
      reads this`curr
    {
      if pos >= PRINTF_MAX_LEN && !(disableOutput && curr == -1) then 0 else pos
    }

    /** What a print does to the simple form: nothing when output is disabled and goes to the web. */
    ghost function After(p: Printed, s: string): Printed {
      if disableOutput && p.open == [] then p else Print(p, s)
    }

    /** cld_puts */
    method Puts(enc: Enc, s: string) returns (ok: bool, res: nat)
      requires Valid() && NUL !in s
      modifies this`buf, this`bufPos, this`levels, this`anyOutput, this`web, this`printed, this`were, buf, Top()
      ensures ok ==> Valid() && printed == After(old(printed), EncodedAs(enc, s)) && Same(old(levels), levels)
      ensures ok ==> bufPos == if disableOutput && curr == -1 then old(bufPos) else Kept(old(bufPos)) + |EncodedAs(enc, s)|
      ensures ok <==> old(bufPos) < PRINTF_MAX_LEN || curr != -1 || disableOutput || sentHeader
      ensures were == old(were) && (ok ==> Spoke() == (old(Spoke()) || bufPos > 0))
      ensures buf == old(buf) || fresh(buf)
    {
      hide IsCStr, Text, Codec.Encoded;
      var can;
      ok, can := ValidateOutput();
      if !ok || !can { return ok, 0; }
      if enc.NoEnc? {
        res := PutsFinal(s);
        return true, res;
      }
      res := PutsEncoded(enc.mode, s);
    }

    /** Room for the longest encoding is made first. */
    method PutsEncoded(mode: Codec.Mode, s: string) returns (res: nat)
      requires Core() && buf != null && NUL !in s && !(curr == -1 && disableOutput)
      modifies this`buf, this`bufPos, this`printed, buf
      ensures Valid() && printed == Print(old(printed), Codec.Encoded(mode, s))
      ensures buf == old(buf) || fresh(buf)
      ensures bufPos == old(bufPos) + |Codec.Encoded(mode, s)|
    {
      hide IsCStr, Text, Codec.Encoded;
      while Codec.MAX_ENC_BLOWUP(|s|) > buf.Length - 1 - bufPos
        invariant Core() && buf != null && (buf == old(buf) || fresh(buf))
        invariant printed == old(printed)
        decreases Codec.MAX_ENC_BLOWUP(|s|) + bufPos - buf.Length
      {
        Grow();
      }
      res := AppendEncoded(mode, s);
    }

    /** Encoding straight into the buffer. */
    method AppendEncoded(mode: Codec.Mode, s: string) returns (res: nat)
      requires Core() && buf != null && NUL !in s && bufPos + Codec.MAX_ENC_BLOWUP(|s|) <= buf.Length
      requires !(curr == -1 && disableOutput)
      modifies this`bufPos, this`printed, buf
      ensures Valid() && printed == Print(old(printed), Codec.Encoded(mode, s)) && res == |Codec.Encoded(mode, s)|
      ensures bufPos == old(bufPos) + |Codec.Encoded(mode, s)|
    {
      hide Codec.Encoded;
      Codec.EncodedSize(mode, s);
      AppendText(buf[..], bufPos, Codec.Encoded(mode, s));
      res := Codec.EncodeBase(mode, s, buf, bufPos);
      Advance(Codec.Encoded(mode, s));
    }

    /** cld_printf, for a text already formatted: it is printed into the buffer, and when it is to be encoded
        it is taken back and its encoding printed instead. */
    method Printf(enc: Enc, s: string) returns (ok: bool, res: nat)
      requires Valid() && NUL !in s
      modifies this`buf, this`bufPos, this`levels, this`anyOutput, this`web, this`printed, this`were, buf, Top()
      ensures ok ==> Valid() && printed == After(old(printed), EncodedAs(enc, s)) && Same(old(levels), levels)
      ensures ok ==> bufPos == if disableOutput && curr == -1 then old(bufPos) else Kept(old(bufPos)) + |EncodedAs(enc, s)|
      ensures ok <==> old(bufPos) < PRINTF_MAX_LEN || curr != -1 || disableOutput || sentHeader
      ensures were == old(were) && (ok ==> Spoke() == (old(Spoke()) || bufPos > 0))
      ensures buf == old(buf) || fresh(buf)
    {
      hide IsCStr, Text, Codec.Encoded;
      var can;
      ok, can := ValidateOutput();
      if !ok || !can { return ok, 0; }
      res := PrintFormatted(enc, s);
    }

    method PrintFormatted(enc: Enc, s: string) returns (res: nat)
      requires Core() && buf != null && NUL !in s && !(curr == -1 && disableOutput)
      modifies this`buf, this`bufPos, this`printed, buf
      ensures Valid() && printed == Print(old(printed), EncodedAs(enc, s))
      ensures buf == old(buf) || fresh(buf)
      ensures bufPos == old(bufPos) + |EncodedAs(enc, s)|
    {
      hide IsCStr, Text, Codec.Encoded;
      while |s| >= buf.Length - bufPos
        invariant Core() && buf != null && (buf == old(buf) || fresh(buf)) && bufPos == old(bufPos)
        invariant printed == old(printed)
        decreases |s| + bufPos - buf.Length
      {
        Grow();
      }
      if enc.NoEnc? {
        Append(s);
        return 0;
      }
      res := PrintThenEncode(enc.mode, s);
    }

    /** Text put behind the pending text without becoming pending. */
    method Scribble(s: string)
      requires Core() && buf != null && NUL !in s && bufPos + |s| < buf.Length
      modifies buf
      ensures Core() && buf[bufPos..bufPos + |s|] == s
    {
      AppendText(buf[..], bufPos, s);
      Memcpy(buf, bufPos, s + [NUL]);
      assert buf[bufPos..bufPos + |s|] == buf[..bufPos + |s|][bufPos..] == s;
      assert buf[..bufPos] == buf[..bufPos + |s|][..bufPos];
    }

    method PrintThenEncode(mode: Codec.Mode, s: string) returns (res: nat)
      requires Core() && buf != null && NUL !in s && bufPos + |s| < buf.Length
      requires !(curr == -1 && disableOutput)
      modifies this`buf, this`bufPos, this`printed, buf
      ensures Valid() && printed == Print(old(printed), Codec.Encoded(mode, s))
      ensures buf == old(buf) || fresh(buf)
      ensures bufPos == old(bufPos) + |Codec.Encoded(mode, s)|
    {
      hide Codec.Encoded, IsCStr, Text;
      Scribble(s);
      Codec.EncodedSize(mode, s);
      var finalOut := EncodeCopy(mode, buf[bufPos..bufPos + |s|]);
      res := PutsFinal(finalOut);
    }

    /** cld_encode: the encoding, in new memory. */
    static method EncodeCopy(mode: Codec.Mode, s: string) returns (r: string)
      requires NUL !in s
      ensures r == Codec.Encoded(mode, s)
    {
      hide Codec.Encoded, IsCStr, Text;
      Codec.EncodedSize(mode, s);
      var res := new char[Codec.MAX_ENC_BLOWUP(|s|)](_ => NUL);
      CopiedText(res[..], Codec.Encoded(mode, s));
      var n := Codec.EncodeBase(mode, s, res, 0);
      r := Text(res[..]);
    }

    /** The HTTP header goes out before any text for the web. */
    method SendHeader()
      requires Valid()
      modifies this`sentHeader
      ensures Valid() && printed == old(printed) && sentHeader
    {
      sentHeader := true;
    }

    /** A new level on top, with nothing pending. */
    method PushLevel(v: StrVar)
      requires Valid() && bufPos == 0 && curr + 1 < MAX_NESTED_WRITE_STRING && v !in Targets()
      modifies this`levels, this`printed, this`curr, this`were
      ensures Valid() && printed == old(printed).(open := old(printed.open) + [""])
      ensures curr == old(curr) + 1 && levels == old(levels)[curr := Level(v, 0)] && were == old(were) + [v.text]
    {
      hide Stacked, Reflects, Held, Untouched;
      if curr >= 0 { NonePending(Held(levels[curr])); } else { NonePending(web); }
      StackPush(levels, curr, v);
      ReflectsPush(levels, printed.open, curr, v);
      UntouchedPush(levels, were, v);
      curr := curr + 1;
      levels, were := levels[curr := Level(v, 0)], were + [v.text];
      printed := printed.(open := printed.open + [""]);
      NonePending("");
    }

    /** cld_write_to_string (&v): what is printed from now on goes to `v`. */
    method BeginWrite(v: StrVar) returns (ok: bool)
      requires Valid() && v !in Targets()
      modifies this`bufPos, this`levels, this`anyOutput, this`web, this`printed, this`curr, this`were, Top()
      ensures ok <==> old(curr) + 1 < MAX_NESTED_WRITE_STRING &&
                      (old(curr) >= 0 || disableOutput || old(bufPos) == 0 || sentHeader)
      ensures ok ==> Valid() && printed == old(printed).(open := old(printed.open) + [""])
      ensures ok ==> curr == old(curr) + 1 && levels[curr].target == v && v.text == old(v.text) && bufPos == 0
      ensures ok ==> were == old(were) + [v.text] && Spoke() == old(Spoke())
      ensures ok ==> Same(old(levels)[curr := Level(v, 0)], levels)
    {
      hide TrimRight, IsCStr, Text;
      ok := Flush(false, false);
      if !ok { return; }
      if curr + 1 >= MAX_NESTED_WRITE_STRING { return false; }
      SameTargets(old(levels), levels, v);
      PushLevel(v);
    }

    /** With nothing pending, the string being written holds its text, or is as it was. */
    lemma TopText()
      requires Valid() && curr >= 0 && bufPos == 0
      ensures levels[curr].target.text == if printed.open[curr] == "" then were[curr] else printed.open[curr]
    {
      NonePending(Held(levels[curr]));
    }

    /** The top level is given up, with nothing pending. */
    method PopLevel()
      requires Valid() && bufPos == 0 && curr >= 0
      modifies this`levels, this`printed, this`curr, this`were
      ensures Valid() && curr == old(curr) - 1 && Same(old(levels)[old(curr) := Level(null, 0)], levels)
      ensures printed == old(printed).(open := old(printed.open)[..old(curr)])
      ensures were == old(were)[..old(curr)]
      ensures old(Held(levels[curr])) == old(printed.open)[old(curr)]
    {
      hide Untouched;
      UntouchedPop(levels, were, Level(null, levels[curr].len));
      NonePending(Held(levels[curr]));
      levels, were := levels[curr := Level(null, levels[curr].len)], were[..curr];
      printed := printed.(open := printed.open[..curr]);
      curr := curr - 1;
      if curr >= 0 { NonePending(Held(levels[curr])); } else { NonePending(web); }
    }

    /** cld_write_to_string (NULL): the string being written is closed.  It then is its text, less trailing
        whitespace if something was pending; a string nothing was printed to keeps what it was. */
    method EndWrite() returns (ok: bool)
      requires Valid()
      modifies this`bufPos, this`levels, this`anyOutput, this`web, this`printed, this`curr, this`were, Top()
      ensures ok <==> old(curr) >= 0
      ensures ok ==> Valid() && curr == old(curr) - 1 && bufPos == 0
      ensures ok ==> Same(old(levels)[old(curr) := Level(null, 0)], levels)
      ensures ok ==> were == old(were)[..old(curr)] && Spoke() == old(Spoke())
      ensures ok ==> printed == old(printed).(open := old(printed.open)[..old(curr)])
      ensures ok ==> old(levels[curr].target).text ==
                     ClosedText(old(printed.open)[old(curr)], old(bufPos) > 0, old(were)[old(curr)])
    {
      hide TrimRight, IsCStr, Text, Reflects, Untouched;
      if curr < 0 { return false; }
      ok := Flush(false, true);
      TopText();
      PopLevel();
    }

    /** The string being written is closed and handed back. */
    method CloseTop() returns (ok: bool, closed: seq<StrVar>)
      requires Valid()
      modifies this`bufPos, this`levels, this`anyOutput, this`web, this`printed, this`curr, this`were, Top()
      ensures ok <==> old(curr) >= 0
      ensures ok ==> Valid() && Same(old(levels)[old(curr) := Level(null, 0)], levels) && Spoke() == old(Spoke())
      ensures ok ==>
                var n := |old(printed).open| - 1;
                && printed == old(printed).(open := old(printed).open[..n]) && were == old(were)[..n] && bufPos == 0
                && closed == [old(levels[curr].target)]
                && Unused(levels, closed[0])
                && closed[0].text == ClosedText(old(printed).open[n], old(bufPos) > 0, old(were)[n])
    {
      hide TrimRight, IsCStr, Text;
      closed := [];
      if curr >= 0 { closed := [levels[curr].target]; }
      ok := EndWrite();
    }

    method PutStep(enc: Enc, s: string, formatted: bool) returns (ok: bool)
      requires Valid() && NUL !in s
      modifies this`buf, this`bufPos, this`levels, this`anyOutput, this`web, this`printed, this`were, buf, Top()
      ensures ok ==> Valid() && Simple(printed, were, bufPos, []) ==
                                Do(Simple(old(printed), were, old(bufPos), []), Put(enc, s, formatted), disableOutput)
      ensures ok ==> Same(old(levels), levels)
      ensures ok <==> old(bufPos) < PRINTF_MAX_LEN || curr != -1 || disableOutput || sentHeader
      ensures were == old(were) && (ok ==> Spoke() == (old(Spoke()) || bufPos > 0))
      ensures buf == old(buf) || fresh(buf)
    {
      hide IsCStr, Text, Codec.Encoded, EncodedAs, Reflects, Untouched;
      var res;
      if formatted { ok, res := Printf(enc, s); } else { ok, res := Puts(enc, s); }
    }

    /** One step of a program; `closed` is the string variable that it closes, if any. */
    method Perform(op: Op) returns (ok: bool, closed: seq<StrVar>)
      requires Valid() && (op.Put? ==> NUL !in op.s)
      modifies this, buf, Top()
      ensures ok ==>
                var s := Do(Simple(old(printed), old(were), old(bufPos), []), op, disableOutput);
                Valid() && Simple(printed, were, bufPos, s.closed) == s && Holds(closed, s.closed)
      ensures sentHeader == (old(sentHeader) || op.Header?)
      ensures ok <==> Works(Simple(old(printed), old(were), old(bufPos), []), op, old(sentHeader), disableOutput)
      ensures ok ==> Spoke() == (old(Spoke()) || bufPos > 0)
      ensures buf == old(buf) || fresh(buf)
      ensures ok ==> forall i :: 0 <= i < |levels| && levels[i].target != null ==>
                fresh(levels[i].target) || (i < |old(levels)| && levels[i].target == old(levels)[i].target)
      ensures ok ==> forall k :: 0 <= k < |closed| ==>
                && 0 <= old(curr) < |old(levels)| && closed[k] == old(levels)[old(curr)].target
                && Unused(levels, closed[k])
    {
      hide TrimRight, IsCStr, Text, Codec.Encoded, EncodedAs, Reflects, Untouched, ClosedText, Print;
      closed := [];
      match op
      case Put(enc, s, formatted) => ok := PutStep(enc, s, formatted);
      case Open(was) =>
        var v := new StrVar(was);
        ok := BeginWrite(v);
      case Close => ok, closed := CloseTop();
      case Header => SendHeader(); ok := true;
      case FlushNow => ok := Flush(false, false);
    }
  }

  /** The texts of some string variables. */
  ghost predicate Holds(vars: seq<StrVar>, texts: seq<string>)
    reads vars
  {
    |vars| == |texts| && forall k :: 0 <= k < |vars| ==> vars[k].text == texts[k]
  }

  lemma Rest(s: Simple, ops: seq<Op>, k: nat, disabled: bool)
    requires k < |ops|
    ensures Run(s, ops[k..], disabled) == Run(Do(s, ops[k], disabled), ops[k + 1..], disabled)
    ensures var t := Do(s, ops[k], disabled);
            forall sent, spoke :: Succeeds(s, ops[k..], sent, spoke, disabled) <==>
              && Works(s, ops[k], sent, disabled)
              && Succeeds(t, ops[k + 1..], sent || ops[k].Header?, spoke || t.pos > 0, disabled)
  {
    hide TrimRight, EncodedAs;
    assert ops[k..][0] == ops[k] && ops[k..][1..] == ops[k + 1..];
  }

  lemma RunNothing(s: Simple, disabled: bool)
    ensures Run(s, [], disabled) == s
    ensures forall sent, spoke :: Succeeds(s, [], sent, spoke, disabled) <==>
              if s.p.open == [] then Flushes(s, sent, disabled) else spoke
  {
  }

  /** The strings closed before play no part in what follows. */
  lemma Before(s: Simple, op: Op, closed: seq<string>, disabled: bool)
    ensures forall sent :: Works(s.(closed := closed), op, sent, disabled) <==> Works(s, op, sent, disabled)
    ensures Do(s.(closed := closed), op, disabled) ==
            Do(s.(closed := []), op, disabled).(closed := closed + Do(s.(closed := []), op, disabled).closed)
  {
    hide TrimRight, EncodedAs, ClosedText;
    assert closed + [] == closed;
  }

  lemma HoldsMore(vars: seq<StrVar>, texts: seq<string>, vars': seq<StrVar>, texts': seq<string>)
    requires Holds(vars, texts) && Holds(vars', texts')
    ensures Holds(vars + vars', texts + texts')
  {
  }

  /** A program that sends the header first, or prints nothing to the web, succeeds when it pairs its write-strings, and
      only then if it leaves none open. */
  lemma HeaderFirst(ops: seq<Op>, disabled: bool)
    requires disabled || (ops != [] && ops[0].Header?)
    ensures Paired(ops, 0) <==> Succeeds(NOTHING, ops, false, false, disabled) && Run(NOTHING, ops, disabled).p.open == []
  {
    if disabled {
      PairedIff(NOTHING, ops, false, false, disabled);
    } else {
      PairedIff(NOTHING, ops[1..], true, false, disabled);
    }
  }

  /** A request, for any program: it fails exactly when a step of the simple form does; otherwise, however the buffer is
      flushed and grows in between, in the end the web client has received what the simple form prints to the web, and
      every string that was written holds what the simple form says. */
  method Page(ops: seq<Op>, disabled: bool) returns (ok: bool, web: string, written: seq<StrVar>)
    requires Clean(ops)
    ensures ok <==> Succeeds(NOTHING, ops, false, false, disabled)
    ensures ok ==>
              var s := Run(NOTHING, ops, disabled);
              web == s.p.web && Holds(written, s.closed)
  {
    hide TrimRight, IsCStr, Text, Codec.Encoded, EncodedAs, Do, Run, Works, Succeeds, Holds, Reflects, Untouched, Stacked;
    var out := new Output(disabled);
    ok, written := true, [];
    ghost var closed: seq<string> := [];
    var k := 0;
    NothingHeld();
    assert ops[0..] == ops;
    while k < |ops| && ok
      invariant 0 <= k <= |ops| && fresh(out) && out.disableOutput == disabled
      invariant out.buf == null || fresh(out.buf)
      invariant ok ==> out.Valid()
      invariant !ok ==> !Succeeds(NOTHING, ops, false, false, disabled)
      invariant ok ==> forall i :: 0 <= i < |out.levels| && out.levels[i].target != null ==> fresh(out.levels[i].target)
      invariant ok ==> forall i :: 0 <= i < |written| ==> fresh(written[i]) && Unused(out.levels, written[i])
      invariant ok ==> Holds(written, closed)
      invariant ok ==>
                  var s := Simple(out.printed, out.were, out.bufPos, closed);
                  && Run(NOTHING, ops, disabled) == Run(s, ops[k..], disabled)
                  && (Succeeds(NOTHING, ops, false, false, disabled) <==>
                      Succeeds(s, ops[k..], out.sentHeader, out.Spoke(), disabled))
    {
      ghost var s := Simple(out.printed, out.were, out.bufPos, closed);
      Rest(s, ops, k, disabled);
      Before(s, ops[k], closed, disabled);
      Before(s, ops[k], [], disabled);
      var more;
      ok, more := out.Perform(ops[k]);
      if ok {
        ghost var texts := Do(s.(closed := []), ops[k], disabled).closed;
        HoldsMore(written, closed, more, texts);
        written, closed := written + more, closed + texts;
      }
      k := k + 1;
    }
    if !ok { return false, "", []; }
    assert ops[k..] == [];
    RunNothing(Simple(out.printed, out.were, out.bufPos, closed), disabled);
    ok := out.Flush(true, false);
    web := out.web;
  }

  lemma NothingHeld()
    ensures Holds([], [])
  {
  }

  lemma SameTargets(a: seq<Level>, b: seq<Level>, v: StrVar)
    requires Same(a, b) && forall i :: 0 <= i < |a| ==> a[i].target != v
    ensures forall i :: 0 <= i < |b| ==> b[i].target != v
  {
  }

  /** Levels with the same strings. */
  ghost predicate Same(a: seq<Level>, b: seq<Level>) {
    |a| == |b| && forall i :: 0 <= i < |a| ==> a[i].target == b[i].target
  }
}
