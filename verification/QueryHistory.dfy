/** Which statements of a source file are accepted (cld.c), told on the statements before them alone: what has been
    defined, run, started and ended. */
module QueryHistory {
  import opened Wrappers
  import opened QueryBlocks

  // ----- What the statements say

  /** The query gets a text. */
  predicate GivesText(m: Markup, name: string) {
    || m == Define(name)
    || ((m.Run? || m.Start?) && m.name == name && m.text)
  }

  predicate Executes(m: Markup, name: string) {
    (m.Run? || m.Start?) && m.name == name
  }

  predicate Opens(m: Markup, name: string) {
    (m.Run? || m.Loop?) && m.name == name
  }

  /** The names of the queries whose loops are open after a file, outermost first. */
  function OpenNames(file: seq<Markup>): seq<string> {
    if file == [] then [] else
      var f, m := OpenNames(file[..|file| - 1]), file[|file| - 1];
      if m.Run? || m.Loop? then f + [m.name]
      else if m.End? && f != [] then f[..|f| - 1]
      else f
  }

  /** The statement `i` closes a loop over the query. */
  predicate Closes(file: seq<Markup>, i: nat, name: string)
    requires i < |file|
  {
    var f := OpenNames(file[..i]);
    file[i].End? && f != [] && f[|f| - 1] == name
  }

  predicate Known(file: seq<Markup>, name: string) {
    exists i :: 0 <= i < |file| && GivesText(file[i], name)
  }

  /** Its loop was opened, and since then it has neither been closed nor given a text. */
  predicate IsActive(file: seq<Markup>, name: string) {
    exists i :: 0 <= i < |file| && Opens(file[i], name)
                && forall j :: i < j < |file| ==> !GivesText(file[j], name) && !Closes(file, j, name)
  }

  /** It has been run or started since its last text, or with it. */
  predicate HasRun(file: seq<Markup>, name: string) {
    exists i :: 0 <= i < |file| && Executes(file[i], name) && forall j :: i < j < |file| ==> !GivesText(file[j], name)
  }

  predicate HasText(m: Markup) {
    m.Define? || ((m.Run? || m.Start?) && m.text)
  }

  function KnownNames(file: seq<Markup>): set<string> {
    set i | 0 <= i < |file| && HasText(file[i]) :: file[i].name
  }

  /** The loops that are emitted, by the names of their queries, and where they are closed. */
  function LoopsOf(file: seq<Markup>): seq<Option<string>> {
    if file == [] then [] else
      var f, m := LoopsOf(file[..|file| - 1]), file[|file| - 1];
      if m.Run? || m.Loop? then f + [Some(m.name)] else if m.End? then f + [None] else f
  }

  /** Whether the statement is accepted behind an accepted file.  A query runs once for each of its texts, is started as
      often as it is not active, and is looped over once it has been run or started. */
  predicate Takes(file: seq<Markup>, m: Markup) {
    var open := OpenNames(file);
    match m
    case Define(name) => !Known(file, name) && |KnownNames(file)| + 1 < 300
    case Run(name, text, inputs) =>
      && inputs && |open| + 1 < 10
      && if text then Known(file, name) || |KnownNames(file)| + 1 < 300
         else Known(file, name) && !HasRun(file, name) && !IsActive(file, name)
    case Start(name, text, inputs) => inputs && |open| + 1 < 10 && Known(file, name) && (text || !IsActive(file, name))
    case Loop(name) => Known(file, name) && HasRun(file, name) && !IsActive(file, name) && |open| + 1 < 10
    case AddInput(name, inputs) => inputs && Known(file, name) && open != []
    case Result(name) => open != [] && open[|open| - 1] == name && IsActive(file, name)
    case End => open != []
  }

  // ----- One statement more

  lemma KnownNext(file: seq<Markup>, m: Markup, name: string)
    ensures Known(file + [m], name) <==> Known(file, name) || GivesText(m, name)
  {
    var all := file + [m];
    if Known(file, name) {
      var i :| 0 <= i < |file| && GivesText(file[i], name);
      assert GivesText(all[i], name);
    }
    if GivesText(m, name) { assert GivesText(all[|file|], name); }
  }

  lemma OpenNext(file: seq<Markup>, m: Markup)
    ensures OpenNames(file + [m]) ==
            var f := OpenNames(file);
            if m.Run? || m.Loop? then f + [m.name] else if m.End? && f != [] then f[..|f| - 1] else f
  {
    assert (file + [m])[..|file|] == file;
  }

  predicate ClosesNow(file: seq<Markup>, m: Markup, name: string) {
    var f := OpenNames(file);
    m.End? && f != [] && f[|f| - 1] == name
  }

  lemma ClosesSame(file: seq<Markup>, m: Markup, name: string)
    ensures forall j :: 0 <= j < |file| ==> (Closes(file + [m], j, name) <==> Closes(file, j, name))
    ensures Closes(file + [m], |file|, name) <==> ClosesNow(file, m, name)
  {
    var all := file + [m];
    assert all[..|file|] == file;
    forall j | 0 <= j < |file| ensures Closes(all, j, name) <==> Closes(file, j, name) {
      assert all[..j] == file[..j];
    }
  }

  lemma ActiveNext(file: seq<Markup>, m: Markup, name: string)
    ensures IsActive(file + [m], name) <==>
            Opens(m, name) || (IsActive(file, name) && !GivesText(m, name) && !ClosesNow(file, m, name))
  {
    hide Closes, ClosesNow;
    var all := file + [m];
    ClosesSame(file, m, name);
    if Opens(m, name) { assert Opens(all[|file|], name); }
    if IsActive(file, name) && !GivesText(m, name) && !ClosesNow(file, m, name) {
      var i :| 0 <= i < |file| && Opens(file[i], name)
               && forall j :: i < j < |file| ==> !GivesText(file[j], name) && !Closes(file, j, name);
      assert Opens(all[i], name);
    }
    if IsActive(all, name) && !Opens(m, name) {
      var i :| 0 <= i < |all| && Opens(all[i], name)
               && forall j :: i < j < |all| ==> !GivesText(all[j], name) && !Closes(all, j, name);
      assert i < |file| && Opens(file[i], name);
      assert forall j :: i < j < |file| ==> all[j] == file[j];
      assert all[|file|] == m;
    }
  }

  lemma RunNext(file: seq<Markup>, m: Markup, name: string)
    ensures HasRun(file + [m], name) <==> Executes(m, name) || (HasRun(file, name) && !GivesText(m, name))
  {
    var all := file + [m];
    if Executes(m, name) { assert Executes(all[|file|], name); }
    if HasRun(file, name) && !GivesText(m, name) {
      var i :| 0 <= i < |file| && Executes(file[i], name) && forall j :: i < j < |file| ==> !GivesText(file[j], name);
      assert Executes(all[i], name);
    }
    if HasRun(all, name) && !Executes(m, name) {
      var i :| 0 <= i < |all| && Executes(all[i], name) && forall j :: i < j < |all| ==> !GivesText(all[j], name);
      assert i < |file| && Executes(file[i], name);
      assert forall j :: i < j < |file| ==> all[j] == file[j];
      assert all[|file|] == m;
    }
  }

  // ----- The compiler's tables

  function StatusOf(v: View, name: string): Option<Status>
    requires Shaped(v)
  {
    var k := Find(v.names, name);
    if k < 0 then None else Some(v.status[k])
  }

  predicate Different(names: seq<string>) {
    forall i, j :: 0 <= i < j < |names| ==> names[i] != names[j]
  }

  lemma FindNew(names: seq<string>, added: string, name: string)
    requires added !in names
    ensures Find(names + [added], name) == if name == added then |names| else Find(names, name)
  {
    var all, k := names + [added], Find(names, name);
    if k >= 0 {
      assert all[..k] == names[..k];
      FindIs(all, name, k);
    } else if name == added {
      assert all[..|names|] == names;
      FindIs(all, name, |names|);
    }
  }

  lemma FindOwn(names: seq<string>, k: nat)
    requires k < |names| && Different(names)
    ensures forall name :: Find(names, name) == k <==> name == names[k]
  {
    forall name ensures Find(names, name) == k <==> name == names[k] {
      if name == names[k] { FindIs(names, name, k); }
    }
  }

  /** Setting the status of one query changes that of no other. */
  lemma StatusSet(v: View, k: nat, s: Status, name: string)
    requires Shaped(v) && k < |v.names| && Different(v.names)
    ensures StatusOf(v.(status := v.status[k := s]), name) == if name == v.names[k] then Some(s) else StatusOf(v, name)
  {
    FindOwn(v.names, k);
  }

  lemma DefinedStatus(v: View, added: string, name: string)
    requires Shaped(v) && Different(v.names) && Defined(v, added).Some?
    ensures var d := Defined(v, added).value;
            && Different(d.names) && v.names <= d.names && d.running == v.running && d.out == v.out
            && Find(d.names, added) >= 0
            && StatusOf(d, name) == if name == added then Some(Unused) else StatusOf(v, name)
  {
    var k := Find(v.names, added);
    if k >= 0 { StatusSet(v, k, Unused, name); } else { FindNew(v.names, added, name); FindNew(v.names, added, added); }
  }

  function NamesOf(names: seq<string>, ks: seq<int>): seq<string>
    requires InTable(ks, |names|)
  {
    seq(|ks|, i requires 0 <= i < |ks| => names[ks[i]])
  }

  predicate CodeInTable(out: seq<Brace>, total: nat) {
    forall i :: 0 <= i < |out| && out[i].For? ==> 0 <= out[i].q < total
  }

  function CodeOf(names: seq<string>, out: seq<Brace>): seq<Option<string>>
    requires CodeInTable(out, |names|)
  {
    seq(|out|, i requires 0 <= i < |out| => if out[i].For? then Some(names[out[i].q]) else None)
  }

  /** What a statement does to the status of a query. */
  function Changed(open: seq<string>, m: Markup, name: string, was: Option<Status>): Option<Status> {
    match m
    case Define(n) => if n == name then Some(Unused) else was
    case Run(n, _, _) => if n == name then Some(Active) else was
    case Start(n, _, _) => if n == name then Some(Used) else was
    case Loop(n) => if n == name then Some(Active) else was
    case End => if open != [] && open[|open| - 1] == name then Some(Used) else was
    case _ => was
  }

  lemma ExecutedStatus(v: View, n: string, start: bool, inputs: bool, name: string)
    requires Shaped(v) && Different(v.names) && Executed(v, n, start, inputs).Some?
    ensures var w := Executed(v, n, start, inputs).value;
            StatusOf(w, name) == if n == name then Some(if start then Used else Active) else StatusOf(v, name)
  {
    var k := Find(v.names, n);
    StatusSet(v, k, if start then Used else Active, name);
  }

  lemma EffectStatus(v: View, m: Markup, name: string)
    requires Shaped(v) && Different(v.names) && Effect(v, m).Some?
    ensures StatusOf(Effect(v, m).value, name) == Changed(NamesOf(v.names, v.running), m, name, StatusOf(v, name))
  {
    hide StatusOf, Executed, Defined;
    match m
    case Define(n) => DefinedStatus(v, n, name);
    case Run(n, text, inputs) => RanStatus(v, n, text, false, inputs, name);
    case Start(n, text, inputs) => RanStatus(v, n, text, true, inputs, name);
    case Loop(n) =>
      var k := Find(v.names, n);
      StatusSet(v, k, Active, name);
      SameStatus(v, k, Active, v.running + [k], v.out + [For(k)], name);
    case End =>
      var n := |v.running| - 1;
      TableTop(v.running, |v.names|);
      StatusSet(v, v.running[n], Used, name);
      SameStatus(v, v.running[n], Used, v.running[..n], v.out + [Close], name);
    case _ =>
  }

  /** The stack and the code have nothing to do with the status. */
  lemma SameStatus(v: View, k: nat, s: Status, running: seq<int>, out: seq<Brace>, name: string)
    requires Shaped(v) && k < |v.names|
    requires InTable(running, |v.names|)
    ensures StatusOf(View(v.names, v.status[k := s], running, out), name) == StatusOf(v.(status := v.status[k := s]), name)
  {
  }

  lemma RanStatus(v: View, n: string, text: bool, start: bool, inputs: bool, name: string)
    requires Shaped(v) && Different(v.names) && Ran(v, n, text, start, inputs).Some?
    ensures StatusOf(Ran(v, n, text, start, inputs).value, name) ==
            if n == name then Some(if start then Used else Active) else StatusOf(v, name)
  {
    hide Executed, Defined, StatusOf;
    if text {
      DefinedStatus(v, n, name);
      ExecutedStatus(Defined(v, n).value, n, start, inputs, name);
    } else {
      ExecutedStatus(v, n, start, inputs, name);
    }
  }

  /** More names in the table change nothing for those that are there. */
  lemma NamesGrow(names: seq<string>, more: seq<string>, running: seq<int>, out: seq<Brace>)
    requires names <= more && InTable(running, |names|) && CodeInTable(out, |names|)
    ensures InTable(running, |more|) && NamesOf(more, running) == NamesOf(names, running)
    ensures CodeInTable(out, |more|) && CodeOf(more, out) == CodeOf(names, out)
  {
  }

  lemma NamesPush(names: seq<string>, running: seq<int>, out: seq<Brace>, k: nat)
    requires InTable(running, |names|) && CodeInTable(out, |names|) && k < |names|
    ensures InTable(running + [k], |names|) && NamesOf(names, running + [k]) == NamesOf(names, running) + [names[k]]
    ensures CodeInTable(out + [For(k)], |names|) && CodeOf(names, out + [For(k)]) == CodeOf(names, out) + [Some(names[k])]
  {
  }

  lemma NamesPop(names: seq<string>, running: seq<int>, out: seq<Brace>)
    requires InTable(running, |names|) && CodeInTable(out, |names|) && running != []
    ensures var n := |running| - 1;
            InTable(running[..n], |names|) && NamesOf(names, running[..n]) == NamesOf(names, running)[..n]
    ensures CodeInTable(out + [Close], |names|) && CodeOf(names, out + [Close]) == CodeOf(names, out) + [None]
  {
  }

  /** What a statement does to the stack and the code, by names. */
  ghost predicate Renamed(v: View, w: View, m: Markup)
    requires Shaped(v) && Shaped(w) && CodeInTable(v.out, |v.names|) && CodeInTable(w.out, |w.names|)
  {
    var open, code := NamesOf(v.names, v.running), CodeOf(v.names, v.out);
    && (m.End? ==> open != [])
    && NamesOf(w.names, w.running) ==
       (if m.Run? || m.Loop? then open + [m.name] else if m.End? then open[..|open| - 1] else open)
    && CodeOf(w.names, w.out) == (if m.Run? || m.Loop? then code + [Some(m.name)] else if m.End? then code + [None] else code)
  }

  lemma ExecutedNames(v: View, n: string, start: bool, inputs: bool)
    requires Shaped(v) && CodeInTable(v.out, |v.names|) && Executed(v, n, start, inputs).Some?
    ensures var w := Executed(v, n, start, inputs).value;
            && w.names == v.names && CodeInTable(w.out, |w.names|)
            && Renamed(v, w, if start then Start(n, false, inputs) else Run(n, false, inputs))
  {
    hide NamesOf, CodeOf, InTable, CodeInTable;
    if !start { NamesPush(v.names, v.running, v.out, Find(v.names, n)); }
  }

  lemma EffectNames(v: View, m: Markup)
    requires Shaped(v) && Different(v.names) && CodeInTable(v.out, |v.names|) && Effect(v, m).Some?
    ensures var w := Effect(v, m).value; Different(w.names) && CodeInTable(w.out, |w.names|) && Renamed(v, w, m)
  {
    hide NamesOf, CodeOf, InTable, CodeInTable, Executed, Defined, Different;
    var d := v;
    if HasText(m) {
      DefinedStatus(v, m.name, m.name);
      d := Defined(v, m.name).value;
      NamesGrow(v.names, d.names, v.running, v.out);
    }
    match m
    case Run(n, _, inputs) => ExecutedNames(d, n, false, inputs);
    case Start(n, _, inputs) => ExecutedNames(d, n, true, inputs);
    case Loop(n) => NamesPush(v.names, v.running, v.out, Find(v.names, n));
    case End =>
      NamesPop(v.names, v.running, v.out);
      assert |NamesOf(v.names, v.running)| == |v.running| by { NamesSize(v.names, v.running); }
    case _ =>
  }

  lemma NamesSize(names: seq<string>, running: seq<int>)
    requires InTable(running, |names|)
    ensures |NamesOf(names, running)| == |running|
  {
  }

  // ----- After an accepted file

  predicate StatusIs(o: Option<Status>, file: seq<Markup>, name: string) {
    && (o.Some? <==> Known(file, name))
    && (o == Some(Active) <==> IsActive(file, name))
    && (o == Some(Unused) <==> Known(file, name) && !IsActive(file, name) && !HasRun(file, name))
    && (o.None? ==> !HasRun(file, name))
    && (name in OpenNames(file) ==> HasRun(file, name))
  }

  /** The tables are what the statements say. */
  ghost predicate TellsAll(v: View, file: seq<Markup>) {
    && Shaped(v) && Different(v.names) && CodeInTable(v.out, |v.names|)
    && NamesOf(v.names, v.running) == OpenNames(file) && CodeOf(v.names, v.out) == LoopsOf(file)
    && forall name :: StatusIs(StatusOf(v, name), file, name)
  }

  lemma StatusNext(v: View, file: seq<Markup>, m: Markup, name: string)
    requires TellsAll(v, file) && Effect(v, m).Some?
    ensures StatusIs(StatusOf(Effect(v, m).value, name), file + [m], name)
  {
    hide Known, IsActive, HasRun, OpenNames, Defined, CodeOf, LoopsOf, NamesOf, CodeInTable;
    var o := StatusOf(v, name);
    assert StatusIs(o, file, name);
    EffectStatus(v, m, name);
    KnownNext(file, m, name);
    ActiveNext(file, m, name);
    RunNext(file, m, name);
    OpenNext(file, m);
  }

  lemma {:induction false} History(file: seq<Markup>)
    requires Effects(NOTHING, file).Some?
    ensures TellsAll(Effects(NOTHING, file).value, file)
    decreases |file|
  {
    hide Effect, StatusIs, StatusOf;
    if file == [] {
      NothingSaid();
    } else {
      var f, m := file[..|file| - 1], file[|file| - 1];
      assert file == f + [m];
      EffectsNext(NOTHING, f, m);
      var v := Effects(NOTHING, f).value;
      History(f);
      EffectNames(v, m);
      OpenNext(f, m);
      LoopsNext(f, m);
      forall name ensures StatusIs(StatusOf(Effect(v, m).value, name), file, name) { StatusNext(v, f, m, name); }
    }
  }

  lemma NothingSaid()
    ensures TellsAll(NOTHING, [])
  {
  }

  lemma LoopsNext(file: seq<Markup>, m: Markup)
    ensures LoopsOf(file + [m]) ==
            var f := LoopsOf(file); if m.Run? || m.Loop? then f + [Some(m.name)] else if m.End? then f + [None] else f
  {
    assert (file + [m])[..|file|] == file;
  }

  lemma {:induction false} EffectsNext(v: View, file: seq<Markup>, m: Markup)
    requires Shaped(v)
    ensures Effects(v, file + [m]) ==
            if Effects(v, file).None? then None else Effect(Effects(v, file).value, m)
    decreases |file|
  {
    hide Effect;
    if file == [] {
      assert ([] + [m])[1..] == [];
    } else {
      assert (file + [m])[1..] == file[1..] + [m];
      if Effect(v, file[0]).Some? { EffectsNext(Effect(v, file[0]).value, file[1..], m); }
    }
  }

  // ----- What is accepted

  lemma {:induction false} DifferentCount(names: seq<string>)
    requires Different(names)
    ensures |set x | x in names| == |names|
  {
    if names != [] {
      var n := |names| - 1;
      DifferentCount(names[..n]);
      assert (set x | x in names) == (set x | x in names[..n]) + {names[n]};
    }
  }

  lemma NamesCounted(v: View, file: seq<Markup>)
    requires TellsAll(v, file)
    ensures |KnownNames(file)| == |v.names|
  {
    hide OpenNames, LoopsOf, NamesOf, CodeOf, CodeInTable, IsActive, HasRun;
    DifferentCount(v.names);
    forall x ensures x in KnownNames(file) <==> x in v.names {
      assert StatusIs(StatusOf(v, x), file, x);
      KnownIs(file, x);
    }
    assert KnownNames(file) == set x | x in v.names;
  }

  lemma KnownIs(file: seq<Markup>, x: string)
    ensures x in KnownNames(file) <==> Known(file, x)
  {
    if Known(file, x) {
      var i :| 0 <= i < |file| && GivesText(file[i], x);
      assert HasText(file[i]) && file[i].name == x;
    }
    if x in KnownNames(file) {
      var i :| 0 <= i < |file| && HasText(file[i]) && file[i].name == x;
      assert GivesText(file[i], x);
    }
  }

  lemma EffectTakes(v: View, file: seq<Markup>, m: Markup)
    requires TellsAll(v, file)
    ensures Effect(v, m).Some? <==> Takes(file, m)
  {
    hide Known, IsActive, HasRun, OpenNames, LoopsOf, CodeOf, KnownNames;
    NamesCounted(v, file);
    if !m.End? {
      assert StatusIs(StatusOf(v, m.name), file, m.name);
      if m.Result? && v.running != [] {
        TableTop(v.running, |v.names|);
        FindOwn(v.names, v.running[|v.running| - 1]);
      }
      if m.Run? || m.Start? {
        if m.text && Defined(v, m.name).Some? { DefinedStatus(v, m.name, m.name); }
      }
    }
  }

  /** The next statement is accepted exactly when those before it allow it. */
  lemma AcceptedNext(file: seq<Markup>, m: Markup)
    requires Effects(NOTHING, file).Some?
    ensures Effects(NOTHING, file + [m]).Some? <==> Takes(file, m)
  {
    hide Effect, Takes, TellsAll;
    EffectsNext(NOTHING, file, m);
    History(file);
    EffectTakes(Effects(NOTHING, file).value, file, m);
  }

  /** A file is accepted exactly when every statement is allowed by those before it and no loop is left open; then its
      loops are those of its statements. */
  lemma {:induction false} FileAccepted(file: seq<Markup>)
    ensures Effects(NOTHING, file).Some? <==> forall k :: 0 <= k < |file| ==> Takes(file[..k], file[k])
    ensures Effects(NOTHING, file).Some? ==>
              var v := Effects(NOTHING, file).value;
              && (v.running == [] <==> OpenNames(file) == [])
              && CodeInTable(v.out, |v.names|) && CodeOf(v.names, v.out) == LoopsOf(file)
    decreases |file|
  {
    hide Effect, Takes, StatusIs, StatusOf, OpenNames, LoopsOf;
    if file != [] {
      var f, m := file[..|file| - 1], file[|file| - 1];
      assert file == f + [m];
      FileAccepted(f);
      EffectsNext(NOTHING, f, m);
      if Effects(NOTHING, f).Some? { AcceptedNext(f, m); }
      assert forall k :: 0 <= k < |f| ==> f[..k] == file[..k];
    }
    if Effects(NOTHING, file).Some? { History(file); }
  }
}
