/** What a program prints where (cldrt.c), told on the program: the text at each level of its write-strings, and when
    the output fails. */
module OutputMeaning {
  import opened CStrings
  import opened CharMaps
  import Codec
  import opened OutputBuffer

  // ----- The text of a level

  /** A text as it is printed: itself, or its encoding for the web or for URLs. */
  function Spelled(enc: Enc, text: string): string {
    match enc
    case NoEnc => text
    case Encode(mode) => if mode == Codec.Web then Codec.Encoded(Codec.Web, text) else Codec.Encoded(Codec.Url, text)
  }

  lemma SpelledIs(enc: Enc, text: string)
    ensures EncodedAs(enc, text) == Spelled(enc, text)
  {
    hide Codec.Encoded;
  }

  /** What the steps print themselves, `d` write-strings deep in them being outside: the texts of their prints, encoded,
      in order. */
  function Direct(ops: seq<Op>, d: nat): string
    decreases |ops|
  {
    if ops == [] then "" else
      match ops[0]
      case Put(enc, text, _) => (if d == 0 then Spelled(enc, text) else "") + Direct(ops[1..], d)
      case Open(_) => Direct(ops[1..], d + 1)
      case Close => Direct(ops[1..], if d > 0 then d - 1 else 0)
      case _ => Direct(ops[1..], d)
  }

  /** The text of the level that is `d` below the active one. */
  function LevelText(p: Printed, d: nat): string
    requires d <= |p.open|
  {
    if d == |p.open| then p.web else p.open[|p.open| - 1 - d]
  }

  /** The steps of a balanced part of a program add to the text of its level exactly what they print there, unless that is
      the web and output is disabled; all levels below stay as they are. */
  lemma {:induction false} LevelGrows(s: Simple, ops: seq<Op>, disabled: bool, d: nat)
    requires Nested(ops, d, 0) && d <= |s.p.open| && |s.were| == |s.p.open|
    ensures var t := Run(s, ops, disabled);
            && |t.p.open| == |s.p.open| - d && |t.were| == |t.p.open| && t.were == s.were[..|t.were|]
            && LevelText(t.p, 0) == LevelText(s.p, d) + (if disabled && t.p.open == [] then "" else Direct(ops, d))
            && (forall k :: 0 <= k < |t.p.open| - 1 ==> t.p.open[k] == s.p.open[k])
            && (t.p.open != [] ==> t.p.web == s.p.web)
    decreases |ops|
  {
    hide EncodedAs, Spelled, ClosedText;
    if ops == [] {
      assert LevelText(s.p, 0) + "" == LevelText(s.p, 0);
    } else {
      var e := match ops[0] case Open(_) => d + 1 case Close => d - 1 case _ => d;
      LevelStep(s, ops[0], disabled, d, e);
      LevelGrows(Do(s, ops[0], disabled), ops[1..], disabled, e);
      var x := if ops[0].Put? && d == 0 then Spelled(ops[0].enc, ops[0].s) else "";
      assert Direct(ops, d) == x + Direct(ops[1..], e);
      Assoc(LevelText(s.p, d), x, Direct(ops[1..], e));
    }
  }

  lemma LevelStep(s: Simple, op: Op, disabled: bool, d: nat, e: nat)
    requires d <= |s.p.open| && |s.were| == |s.p.open| && (op.Close? ==> d > 0)
    requires e == match op case Open(_) => d + 1 case Close => d - 1 case _ => d
    ensures var t := Do(s, op, disabled);
            && |t.p.open| - e == |s.p.open| - d && |t.were| == |t.p.open|
            && t.were[..|t.were| - e] == s.were[..|t.were| - e]
            && e <= |t.p.open|
            && LevelText(t.p, e) == LevelText(s.p, d) +
               (if op.Put? && d == 0 && !(disabled && s.p.open == []) then Spelled(op.enc, op.s) else "")
            && (forall k :: 0 <= k < |t.p.open| - e - 1 ==> t.p.open[k] == s.p.open[k])
            && (|t.p.open| > e ==> t.p.web == s.p.web)
  {
    hide EncodedAs, Spelled, ClosedText, Print, LevelText;
    NoText(s.p, d);
    match op
    case Put(enc, text, _) =>
      SpelledIs(enc, text);
      PrintLevels(s.p, Spelled(enc, text), d);
    case Open(_) => LevelsKept(s.p, s.p.open + [""], d, d + 1);
    case Close => LevelsKept(s.p, s.p.open[..|s.p.open| - 1], d, d - 1);
    case _ =>
  }

  lemma NoText(p: Printed, d: nat)
    requires d <= |p.open|
    ensures LevelText(p, d) + "" == LevelText(p, d)
  {
  }

  lemma PrintLevels(p: Printed, x: string, d: nat)
    requires d <= |p.open|
    ensures var q := Print(p, x);
            && |q.open| == |p.open| && LevelText(q, d) == LevelText(p, d) + (if d == 0 then x else "")
            && (forall k :: 0 <= k < |p.open| - 1 ==> q.open[k] == p.open[k]) && (p.open != [] ==> q.web == p.web)
  {
    NoText(p, d);
  }

  lemma LevelsKept(p: Printed, open: seq<string>, d: nat, e: nat)
    requires d <= |p.open| && e <= |open| && |open| - e == |p.open| - d
    requires forall k :: 0 <= k < |open| - e ==> open[k] == p.open[k]
    ensures LevelText(p.(open := open), e) == LevelText(p, d)
  {
  }

  lemma {:induction false} RunConcat(s: Simple, a: seq<Op>, b: seq<Op>, disabled: bool)
    ensures Run(s, a + b, disabled) == Run(Run(s, a, disabled), b, disabled)
    decreases |a|
  {
    hide Do;
    if a == [] {
      assert a + b == b;
    } else {
      assert (a + b)[1..] == a[1..] + b;
      RunConcat(Do(s, a[0], disabled), a[1..], b, disabled);
    }
  }

  /** A write-string, with any balanced part of a program in it: its string is what is printed directly inside, perhaps
      trimmed at the end, and keeps what it held when nothing is; all else stays as it was. */
  lemma WriteString(s: Simple, was: string, ops: seq<Op>, disabled: bool)
    requires Nested(ops, 0, 0) && |s.were| == |s.p.open|
    ensures var t := Run(s, [Open(was)] + ops + [Close], disabled);
            && t.p == s.p && t.were == s.were && t.pos == 0 && t.closed != []
            && var x, full := t.closed[|t.closed| - 1], Direct(ops, 0);
               if full == "" then x == was else x == full || x == TrimRight(full)
  {
    hide EncodedAs, Spelled, TrimRight;
    var s1 := Do(s, Open(was), disabled);
    var s2 := Run(s1, ops, disabled);
    RunOne(s, Open(was), disabled);
    RunOne(s2, Close, disabled);
    RunConcat(s, [Open(was)] + ops, [Close], disabled);
    RunConcat(s, [Open(was)], ops, disabled);
    LevelGrows(s1, ops, disabled, 0);
    assert "" + Direct(ops, 0) == Direct(ops, 0);
    var n := |s.p.open|;
    assert s1.p.open[..n] == s.p.open;
    assert s2.p.open[..n] == s.p.open;
    assert s2.were[..n] == s.were;
  }

  lemma RunOne(s: Simple, op: Op, disabled: bool)
    ensures Run(s, [op], disabled) == Do(s, op, disabled)
  {
    assert [op][1..] == [];
  }

  /** A page: the web client gets exactly what the program prints outside its write-strings. */
  lemma PageText(ops: seq<Op>, disabled: bool)
    requires Nested(ops, 0, 0)
    ensures Run(NOTHING, ops, disabled).p == Printed(if disabled then "" else Direct(ops, 0), [])
  {
    LevelGrows(NOTHING, ops, disabled, 0);
    assert "" + Direct(ops, 0) == Direct(ops, 0) && "" + "" == "";
  }

  // ----- Without a header

  lemma NothingEncoded(enc: Enc, s: string)
    ensures EncodedAs(enc, s) == "" <==> s == ""
  {
    if enc.Encode? && s != "" {
      var m := Codec.TableOf(enc.mode);
      assert Codec.Encoded(enc.mode, s) == Image(m, s[0]) + MapChars(s[1..], m);
    }
  }

  predicate NoHeader(ops: seq<Op>) {
    forall k :: 0 <= k < |ops| ==> !ops[k].Header?
  }

  /** Text for the web that is pending is never flushed without a header. */
  lemma {:induction false} StuckWithout(s: Simple, ops: seq<Op>, spoke: bool)
    requires NoHeader(ops) && s.p.open == [] && s.pos > 0
    ensures !Succeeds(s, ops, false, spoke, false)
    decreases |ops|
  {
    hide EncodedAs;
    if ops != [] && ops[0].Put? && Works(s, ops[0], false, false) {
      StuckWithout(Do(s, ops[0], false), ops[1..], true);
    }
  }

  lemma DirectEmpty(ops: seq<Op>, d: nat)
    ensures Direct(ops, d) == "" <==>
            ops == [] || ((ops[0].Put? && d == 0 ==> Spelled(ops[0].enc, ops[0].s) == "")
                          && Direct(ops[1..], if ops[0].Open? then d + 1 else if ops[0].Close? && d > 0 then d - 1 else d) == "")
  {
    hide Spelled;
  }

  /** A program that sends no header, with output enabled, succeeds and leaves no write-string open exactly when it pairs
      them and prints nothing to the web. */
  lemma {:induction false} HeaderMissing(s: Simple, ops: seq<Op>, spoke: bool)
    requires NoHeader(ops) && |s.were| == |s.p.open| && (s.p.open == [] ==> s.pos == 0)
    ensures Succeeds(s, ops, false, spoke, false) && Run(s, ops, false).p.open == [] <==>
            Paired(ops, |s.p.open|) && Direct(ops, |s.p.open|) == ""
    decreases |ops|
  {
    hide EncodedAs, Spelled, ClosedText, Direct;
    DirectEmpty(ops, |s.p.open|);
    if ops != [] && ops[0].Put? { SpelledIs(ops[0].enc, ops[0].s); }
    if ops != [] && Works(s, ops[0], false, false) {
      var t, rest := Do(s, ops[0], false), ops[1..];
      if t.p.open == [] && t.pos > 0 {
        StuckWithout(t, rest, spoke || t.pos > 0);
      } else {
        HeaderMissing(t, rest, spoke || t.pos > 0);
      }
    }
  }

  /** Text for the web that is printed before the header waits for it, as long as it is shorter than 128K. */
  lemma {:induction false} WaitsForHeader(s: Simple, puts: seq<Op>, rest: seq<Op>, spoke: bool)
    requires (forall k :: 0 <= k < |puts| ==> puts[k].Put?) && s.p.open == [] && s.pos + |Direct(puts, 0)| < 131072
    requires s.pos > 0 ==> spoke
    ensures var t := Run(s, puts, false);
            && t.pos == s.pos + |Direct(puts, 0)|
            && (Succeeds(s, puts + ([Header] + rest), false, spoke, false) <==>
                Succeeds(t, rest, true, spoke || t.pos > 0, false))
    decreases |puts|
  {
    hide EncodedAs, Spelled, ClosedText;
    var all := puts + ([Header] + rest);
    if puts == [] {
      assert all == [Header] + rest && all[1..] == rest;
    } else {
      assert all[1..] == puts[1..] + ([Header] + rest);
      SpelledIs(puts[0].enc, puts[0].s);
      var t := Do(s, puts[0], false);
      WaitsForHeader(t, puts[1..], rest, spoke || t.pos > 0);
      assert Run(s, puts, false).pos >= t.pos;
    }
  }

  // ----- Left inside a write-string

  /** Write-strings are closed only where one is open, and never more than five are. */
  predicate Allowed(ops: seq<Op>, d: nat)
    decreases |ops|
  {
    ops == [] ||
    match ops[0]
    case Open(_) => d < 5 && Allowed(ops[1..], d + 1)
    case Close => d > 0 && Allowed(ops[1..], d - 1)
    case _ => Allowed(ops[1..], d)
  }

  /** Some text is printed, to a string or, unless that is disabled, to the web. */
  predicate Says(ops: seq<Op>, d: nat, disabled: bool)
    decreases |ops|
  {
    ops != [] &&
    match ops[0]
    case Put(_, text, _) => (text != "" && !(disabled && d == 0)) || Says(ops[1..], d, disabled)
    case Open(_) => Says(ops[1..], d + 1, disabled)
    case Close => Says(ops[1..], if d > 0 then d - 1 else 0, disabled)
    case _ => Says(ops[1..], d, disabled)
  }

  /** Behind the header, or when output is disabled, a program succeeds exactly when it opens and closes its write-strings
      as it may, and has printed something if it ends inside one. */
  lemma {:induction false} BehindHeader(s: Simple, ops: seq<Op>, sent: bool, spoke: bool, disabled: bool)
    requires (sent || disabled) && |s.were| == |s.p.open| && (s.pos > 0 ==> spoke)
    ensures Succeeds(s, ops, sent, spoke, disabled) <==>
            && Allowed(ops, |s.p.open|)
            && (Run(s, ops, disabled).p.open == [] || spoke || Says(ops, |s.p.open|, disabled))
    decreases |ops|
  {
    hide EncodedAs, ClosedText;
    if ops != [] && Works(s, ops[0], sent, disabled) {
      var t := Do(s, ops[0], disabled);
      if ops[0].Put? { NothingEncoded(ops[0].enc, ops[0].s); }
      BehindHeader(t, ops[1..], sent || ops[0].Header?, spoke || t.pos > 0, disabled);
    }
  }
}
