/** The query blocks of the compiler (cld.c): which queries are running at each point of a source file, and
    the `for` loops emitted for them. */
module QueryBlocks {
  import opened Wrappers

  const CLD_MAX_QUERY := 300
  const CLD_MAX_QUERY_NESTED := 10

  datatype Status = Unused | Active | Used

  /** What is emitted, as far as blocks go: `for (__iter_q ...) {` for query number `q`, and `}`. */
  datatype Brace = For(q: int) | Close

  /** The statements of a source file.  `text`: with a query text, which defines or redefines the query.
      `inputs`: its parameters are those that the query needs. */
  datatype Markup =
    | Define(name: string)
    | Run(name: string, text: bool, inputs: bool)
    | Start(name: string, text: bool, inputs: bool)
    | Loop(name: string)
    | AddInput(name: string, inputs: bool)
    | Result(name: string)
    | End

  // ----- Emitted code

  datatype Blocks = Open(queries: seq<int>) | Unbalanced

  /** The loops that are still open after the emitted code, outermost first. */
  function Unclosed(out: seq<Brace>): Blocks {
    if out == [] then Open([]) else
      var b := Unclosed(out[..|out| - 1]);
      match out[|out| - 1]
      case For(q) => if b.Open? then Open(b.queries + [q]) else b
      case Close => if b.Open? && b.queries != [] then Open(b.queries[..|b.queries| - 1]) else Unbalanced
  }

  predicate Distinct(s: seq<int>) {
    forall i, j :: 0 <= i < j < |s| ==> s[i] != s[j]
  }

  /** No loop over a query is ever opened inside a loop over the same query. */
  predicate NoSelfNesting(out: seq<Brace>) {
    out == [] || (NoSelfNesting(out[..|out| - 1]) && Unclosed(out).Open? && Distinct(Unclosed(out).queries))
  }

  lemma UnclosedStep(out: seq<Brace>, b: Brace)
    requires Unclosed(out).Open?
    ensures b.For? ==> Unclosed(out + [b]) == Open(Unclosed(out).queries + [b.q])
    ensures b.Close? && Unclosed(out).queries != [] ==>
              Unclosed(out + [b]) == Open(Unclosed(out).queries[..|Unclosed(out).queries| - 1])
    ensures NoSelfNesting(out + [b]) <==>
              NoSelfNesting(out) && Unclosed(out + [b]).Open? && Distinct(Unclosed(out + [b]).queries)
  {
    assert (out + [b])[..|out|] == out;
  }

  // ----- The table of queries and the stack of running ones, as values

  /** A query is active exactly when it is on the stack, where it is once. */
  predicate Exact(stack: seq<int>, status: seq<Status>) {
    && Distinct(stack)
    && (forall q :: 0 <= q < |status| ==> (status[q] == Active <==> q in stack))
  }

  predicate InTable(stack: seq<int>, total: nat) {
    forall k :: 0 <= k < |stack| ==> 0 <= stack[k] < total
  }

  lemma TableTop(stack: seq<int>, total: nat)
    requires InTable(stack, total) && stack != []
    ensures 0 <= stack[|stack| - 1] < total && InTable(stack[..|stack| - 1], total)
    ensures |stack| > 1 ==> 0 <= stack[|stack| - 2] < total
  {
  }

  lemma ExactNew(stack: seq<int>, status: seq<Status>)
    requires InTable(stack, |status|) && Exact(stack, status)
    ensures Exact(stack, status + [Unused])
  {
  }

  lemma ExactPush(stack: seq<int>, status: seq<Status>, q: nat)
    requires q < |status| && InTable(stack, |status|)
    requires Exact(stack, status) && status[q] != Active
    ensures Exact(stack + [q], status[q := Active])
  {
  }

  lemma ExactPop(stack: seq<int>, status: seq<Status>)
    requires stack != [] && InTable(stack, |status|)
    requires Exact(stack, status)
    ensures Exact(stack[..|stack| - 1], status[stack[|stack| - 1] := Used])
  {
    var rest, q := stack[..|stack| - 1], stack[|stack| - 1];
    assert stack == rest + [q];
  }

  /** Making a query unused breaks this exactly when the query is active. */
  lemma ExactReset(stack: seq<int>, status: seq<Status>, q: nat)
    requires q < |status| && Exact(stack, status)
    ensures Exact(stack, status[q := Unused]) <==> status[q] != Active
    ensures status[q] == Active ==> q in stack
  {
  }

  /** And a query that was reset while running stays out of order when it is run again: it is on the stack
      twice, or (ended at once, by start-query) no longer active. */
  lemma ExactLost(stack: seq<int>, status: seq<Status>, q: nat)
    requires q < |status| && q in stack
    ensures !Exact(stack + [q], status[q := Active]) && !Exact(stack, status[q := Used])
  {
    var k :| 0 <= k < |stack| && stack[k] == q;
    assert (stack + [q])[k] == (stack + [q])[|stack|];
  }

  lemma OpenBlock(out: seq<Brace>, stack: seq<int>, status: seq<Status>, q: int)
    requires Unclosed(out) == Open(stack) && InTable(stack, |status|) && 0 <= q < |status|
    ensures Unclosed(out + [For(q)]) == Open(stack + [q])
    ensures Exact(stack, status) && NoSelfNesting(out) && status[q] != Active ==>
              Exact(stack + [q], status[q := Active]) && NoSelfNesting(out + [For(q)])
  {
    hide Unclosed, NoSelfNesting;
    UnclosedStep(out, For(q));
    if Exact(stack, status) && status[q] != Active {
      ExactPush(stack, status, q);
    }
  }

  lemma CloseBlock(out: seq<Brace>, stack: seq<int>, status: seq<Status>)
    requires Unclosed(out) == Open(stack) && InTable(stack, |status|) && stack != []
    ensures Unclosed(out + [Close]) == Open(stack[..|stack| - 1])
    ensures Exact(stack, status) && NoSelfNesting(out) ==>
              Exact(stack[..|stack| - 1], status[stack[|stack| - 1] := Used]) && NoSelfNesting(out + [Close])
  {
    hide Unclosed, NoSelfNesting;
    UnclosedStep(out, Close);
    if Exact(stack, status) {
      ExactPop(stack, status);
    }
  }

  // ----- What a statement does

  /** The state without its redundancy. */
  datatype View = View(names: seq<string>, status: seq<Status>, running: seq<int>, out: seq<Brace>)

  const NOTHING := View([], [], [], [])

  /** find_query */
  function Find(names: seq<string>, name: string): (k: int)
    ensures -1 <= k < |names|
    ensures if k < 0 then name !in names else names[k] == name && name !in names[..k]
  {
    if names == [] then -1 else if names[0] == name then 0 else
      var r := Find(names[1..], name);
      if r < 0 then -1 else r + 1
  }

  predicate Shaped(v: View) {
    |v.names| == |v.status| && InTable(v.running, |v.names|)
  }

  /** Holds over every accepted program: the loops left open in the emitted code are the queries on the stack,
      within the limit. */
  ghost predicate WellKept(v: View) {
    Shaped(v) && |v.names| < CLD_MAX_QUERY && |v.running| < CLD_MAX_QUERY_NESTED && Unclosed(v.out) == Open(v.running)
  }

  /** Holds as long as no active query is redefined. */
  ghost predicate Faithful(v: View) {
    Exact(v.running, v.status) && NoSelfNesting(v.out)
  }

  /** A query gets a text: it is new, or it is unused again. */
  function Defined(v: View, name: string): (w: Option<View>)
    requires Shaped(v)
    ensures w.Some? ==> Shaped(w.value)
  {
    var k := Find(v.names, name);
    if k >= 0 then Some(v.(status := v.status[k := Unused]))
    else if |v.names| + 1 < CLD_MAX_QUERY then Some(v.(names := v.names + [name], status := v.status + [Unused]))
    else None
  }

  function Opened(v: View, k: int): (w: Option<View>)
    requires Shaped(v) && 0 <= k < |v.status|
    ensures w.Some? ==> Shaped(w.value)
  {
    if |v.running| + 1 >= CLD_MAX_QUERY_NESTED then None
    else Some(v.(status := v.status[k := Active], running := v.running + [k], out := v.out + [For(k)]))
  }

  /** run-query opens a loop; start-query only leaves the query used. */
  function Executed(v: View, name: string, start: bool, inputs: bool): (w: Option<View>)
    requires Shaped(v)
    ensures w.Some? ==> Shaped(w.value)
  {
    var k := Find(v.names, name);
    if k < 0 || !inputs || v.status[k] == Active then None
    else if !start then if v.status[k] == Used then None else Opened(v, k)
    else if |v.running| + 1 >= CLD_MAX_QUERY_NESTED then None
    else Some(v.(status := v.status[k := Used]))
  }

  function Ran(v: View, name: string, text: bool, start: bool, inputs: bool): (w: Option<View>)
    requires Shaped(v)
    ensures w.Some? ==> Shaped(w.value)
  {
    if !text then Executed(v, name, start, inputs)
    else if start && Find(v.names, name) < 0 then None
    else
      var d := Defined(v, name);
      if d.None? then None else Executed(d.value, name, start, inputs)
  }

  /** One statement; none of what is not accepted. */
  function Effect(v: View, m: Markup): (w: Option<View>)
    requires Shaped(v)
    ensures w.Some? ==> Shaped(w.value)
  {
    match m
    case Define(name) => if Find(v.names, name) >= 0 then None else Defined(v, name)
    case Run(name, text, inputs) => Ran(v, name, text, false, inputs)
    case Start(name, text, inputs) => Ran(v, name, text, true, inputs)
    case Loop(name) =>
      var k := Find(v.names, name);
      if k < 0 || v.status[k] != Used then None else Opened(v, k)
    case AddInput(name, inputs) =>
      if Find(v.names, name) < 0 || v.running == [] || !inputs then None else Some(v)
    case Result(name) =>
      var k := Find(v.names, name);
      if k < 0 || v.running == [] || v.running[|v.running| - 1] != k || v.status[k] != Active then None else Some(v)
    case End =>
      if v.running == [] then None else
        var n := |v.running| - 1;
        Some(v.(status := v.status[v.running[n] := Used], running := v.running[..n], out := v.out + [Close]))
  }

  predicate Redefines(v: View, m: Markup)
    requires Shaped(v)
  {
    && (m.Run? || m.Start?) && m.text
    && Find(v.names, m.name) >= 0 && v.status[Find(v.names, m.name)] == Active
  }

  lemma DefinedKeeps(v: View, name: string)
    requires WellKept(v) && Defined(v, name).Some?
    ensures var d := Defined(v, name).value;
            var k := Find(v.names, name);
            && WellKept(d) && Find(d.names, name) >= 0
            && (k >= 0 ==> Find(d.names, name) == k && d.status[k] == Unused)
            && (Faithful(v) ==> (Faithful(d) <==> !(k >= 0 && v.status[k] == Active)))
            && (Faithful(v) && k >= 0 && v.status[k] == Active ==> k in d.running)
  {
    hide Unclosed, NoSelfNesting;
    if Faithful(v) {
      var k := Find(v.names, name);
      if k >= 0 { ExactReset(v.running, v.status, k); } else { ExactNew(v.running, v.status); }
    }
  }

  lemma OpenedKeeps(v: View, k: int)
    requires WellKept(v) && 0 <= k < |v.names| && v.status[k] != Active && Opened(v, k).Some?
    ensures WellKept(Opened(v, k).value) && (Faithful(v) ==> Faithful(Opened(v, k).value))
    ensures k in v.running ==> !Faithful(Opened(v, k).value)
  {
    hide Unclosed, NoSelfNesting, Exact;
    OpenBlock(v.out, v.running, v.status, k);
    if k in v.running { ExactLost(v.running, v.status, k); }
  }

  lemma ExecutedKeeps(v: View, name: string, start: bool, inputs: bool)
    requires WellKept(v) && Executed(v, name, start, inputs).Some?
    ensures var e := Executed(v, name, start, inputs).value;
            && WellKept(e) && (Faithful(v) ==> Faithful(e))
            && (Find(v.names, name) in v.running ==> !Faithful(e))
  {
    hide Unclosed, NoSelfNesting;
    var k := Find(v.names, name);
    if !start {
      OpenedKeeps(v, k);
    } else if k in v.running {
      ExactLost(v.running, v.status, k);
    }
  }

  /** Whatever a statement does, the emitted loops and the stack stay in step; and the statuses stay right
      exactly when it does not redefine an active query. */
  lemma EffectKeeps(v: View, m: Markup)
    requires WellKept(v) && Effect(v, m).Some?
    ensures var w := Effect(v, m).value; WellKept(w) && (Faithful(v) ==> (Faithful(w) <==> !Redefines(v, m)))
  {
    hide Unclosed, NoSelfNesting, Exact;
    match m
    case Define(name) => DefinedKeeps(v, name);
    case Run(name, text, inputs) => RanKeeps(v, name, text, false, inputs);
    case Start(name, text, inputs) => RanKeeps(v, name, text, true, inputs);
    case Loop(name) => OpenedKeeps(v, Find(v.names, name));
    case AddInput(_, _) =>
    case Result(_) =>
    case End => CloseBlock(v.out, v.running, v.status);
  }

  lemma RanKeeps(v: View, name: string, text: bool, start: bool, inputs: bool)
    requires WellKept(v) && Ran(v, name, text, start, inputs).Some?
    ensures var w := Ran(v, name, text, start, inputs).value;
            var k := Find(v.names, name);
            WellKept(w) && (Faithful(v) ==> (Faithful(w) <==> !(text && k >= 0 && v.status[k] == Active)))
  {
    hide Unclosed, Faithful, Executed;
    if text {
      DefinedKeeps(v, name);
      ExecutedKeeps(Defined(v, name).value, name, start, inputs);
    } else {
      ExecutedKeeps(v, name, start, inputs);
    }
  }

  /** All statements of a file, one after the other. */
  function Effects(v: View, file: seq<Markup>): (w: Option<View>)
    requires Shaped(v)
    ensures w.Some? ==> Shaped(w.value)
    decreases |file|
  {
    if file == [] then Some(v) else
      var w := Effect(v, file[0]);
      if w.None? then None else Effects(w.value, file[1..])
  }

  predicate RedefinesNone(v: View, file: seq<Markup>)
    requires Shaped(v)
    decreases |file|
  {
    file == [] ||
    (!Redefines(v, file[0]) && (Effect(v, file[0]).Some? ==> RedefinesNone(Effect(v, file[0]).value, file[1..])))
  }

  /** After the first `k` statements a query is active exactly when it is on the stack, once, and no loop nests in one
      over the same. */
  ghost predicate FaithfulAfter(v: View, file: seq<Markup>, k: nat)
    requires Shaped(v) && k <= |file|
  {
    Effects(v, file[..k]).Some? && Faithful(Effects(v, file[..k]).value)
  }

  lemma AfterFirst(v: View, file: seq<Markup>, k: nat)
    requires WellKept(v) && Effects(v, file).Some? && file != [] && 1 <= k <= |file|
    ensures FaithfulAfter(v, file, k) <==> FaithfulAfter(Effect(v, file[0]).value, file[1..], k - 1)
  {
    hide Effect, Faithful;
    assert file[..k][0] == file[0] && file[..k][1..] == file[1..][..k - 1];
  }

  /** Over whole files: every accepted one keeps the loops and the stack in step; and the statuses are right after each
      of its statements exactly when none redefines an active query. */
  lemma {:induction false} EffectsKeep(v: View, file: seq<Markup>)
    requires WellKept(v) && Effects(v, file).Some?
    ensures WellKept(Effects(v, file).value)
    ensures Faithful(v) ==> (RedefinesNone(v, file) <==> forall k :: 0 <= k <= |file| ==> FaithfulAfter(v, file, k))
    decreases |file|
  {
    hide Effect, Redefines, Faithful, Unclosed, FaithfulAfter;
    StartsFaithful(v, file);
    if file != [] {
      var w, rest := Effect(v, file[0]).value, file[1..];
      EffectKeeps(v, file[0]);
      EffectsKeep(w, rest);
      StartsFaithful(w, rest);
      forall k | 1 <= k <= |file| ensures FaithfulAfter(v, file, k) <==> FaithfulAfter(w, rest, k - 1) {
        AfterFirst(v, file, k);
      }
      assert forall k :: 0 <= k <= |rest| ==> (FaithfulAfter(w, rest, k) <==> FaithfulAfter(v, file, k + 1));
    }
  }

  lemma StartsFaithful(v: View, file: seq<Markup>)
    requires WellKept(v)
    ensures FaithfulAfter(v, file, 0) <==> Faithful(v)
  {
    hide Faithful;
  }

  /** A query that is redefined and run inside itself is accepted, and its loop is emitted inside its own. */
  lemma RedefinedInside()
    ensures var q := Run("q", true, true);
            var v := Effects(NOTHING, [q, q, End, End]);
            && v.Some? && v.value.running == [] && v.value.out == [For(0), For(0), Close, Close]
            && !NoSelfNesting(v.value.out)
  {
    hide Effect, NoSelfNesting;
    var q := Run("q", true, true);
    var file := [q, q, End, End];
    var v0 := View(["q"], [Active], [0], [For(0)]);
    var v1 := View(["q"], [Active], [0, 0], [For(0), For(0)]);
    var v2 := View(["q"], [Used], [0], [For(0), For(0), Close]);
    var v3 := View(["q"], [Used], [], [For(0), For(0), Close, Close]);
    RunInside();
    EndInside();
    assert file[1..] == [q, End, End] && [q, End, End][1..] == [End, End] && [End, End][1..] == [End];
    assert Effects(v3, []) == Some(v3);
    assert Effects(v2, [End]) == Some(v3) by { assert [End][1..] == []; }
    assert Effects(v1, [End, End]) == Some(v3);
    assert Effects(v0, [q, End, End]) == Some(v3);
    NestedInItself();
  }

  lemma RunInside()
    ensures var q := Run("q", true, true);
            var v0 := View(["q"], [Active], [0], [For(0)]);
            && Effect(NOTHING, q) == Some(v0)
            && Effect(v0, q) == Some(View(["q"], [Active], [0, 0], [For(0), For(0)]))
  {
    hide Opened;
    var v0 := View(["q"], [Active], [0], [For(0)]);
    assert Find([], "q") == -1 && Find(["q"], "q") == 0;
    assert [] + ["q"] == ["q"] && [] + [Unused] == [Unused];
    assert Defined(NOTHING, "q") == Some(View(["q"], [Unused], [], []));
    OpenedQ([], []);
    assert [] + [0] == [0] && [] + [For(0)] == [For(0)];
    assert [Active][0 := Unused] == [Unused];
    assert Defined(v0, "q") == Some(View(["q"], [Unused], [0], [For(0)]));
    OpenedQ([0], [For(0)]);
    assert [0] + [0] == [0, 0] && [For(0)] + [For(0)] == [For(0), For(0)];
  }

  lemma OpenedQ(running: seq<int>, out: seq<Brace>)
    requires InTable(running, 1) && |running| < 2
    ensures Opened(View(["q"], [Unused], running, out), 0) ==
            Some(View(["q"], [Active], running + [0], out + [For(0)]))
  {
    assert [Unused][0 := Active] == [Active];
  }

  lemma EndInside()
    ensures var v1 := View(["q"], [Active], [0, 0], [For(0), For(0)]);
            var v2 := View(["q"], [Used], [0], [For(0), For(0), Close]);
            && Effect(v1, End) == Some(v2)
            && Effect(v2, End) == Some(View(["q"], [Used], [], [For(0), For(0), Close, Close]))
  {
    assert [0, 0][..1] == [0] && [0][..0] == [];
    assert [Active][0 := Used] == [Used] && [Used][0 := Used] == [Used];
    assert [For(0), For(0)] + [Close] == [For(0), For(0), Close];
    assert [For(0), For(0), Close] + [Close] == [For(0), For(0), Close, Close];
  }

  lemma NestedInItself()
    ensures !NoSelfNesting([For(0), For(0), Close, Close])
  {
    hide Unclosed, NoSelfNesting;
    assert Unclosed([]) == Open([]) by { UnclosedNothing(); }
    UnclosedStep([], For(0));
    assert [] + [For(0)] == [For(0)] && [] + [0] == [0];
    UnclosedStep([For(0)], For(0));
    assert [For(0)] + [For(0)] == [For(0), For(0)] && [0] + [0] == [0, 0];
    assert [0, 0][0] == [0, 0][1];
    PrefixNesting([For(0), For(0), Close]);
    PrefixNesting([For(0), For(0), Close, Close]);
    assert [For(0), For(0), Close][..2] == [For(0), For(0)];
    assert [For(0), For(0), Close, Close][..3] == [For(0), For(0), Close];
  }

  lemma UnclosedNothing()
    ensures Unclosed([]) == Open([])
  {
  }

  lemma PrefixNesting(out: seq<Brace>)
    requires out != []
    ensures NoSelfNesting(out) ==> NoSelfNesting(out[..|out| - 1])
  {
  }

  // ----- The compiler's state

  class Front {
    var names: seq<string>
    var qryActive: seq<Status>
    var globalQryStack: array<int>
    var currQryPtr: nat
    var queryId: int
    var openQueries: int
    var out: seq<Brace>

    ghost function Abstract(): View
      requires currQryPtr <= globalQryStack.Length
      reads this, globalQryStack
    {
      View(names, qryActive, globalQryStack[..currQryPtr], out)
    }

    /** The counts agree: open queries, and the height of the stack, above which there is nothing. */
    ghost predicate Counted()
      reads this, globalQryStack
    {
      && globalQryStack.Length == CLD_MAX_QUERY_NESTED + 1
      && openQueries == currQryPtr < CLD_MAX_QUERY_NESTED
      && Shaped(Abstract()) && |names| < CLD_MAX_QUERY
      && -1 <= queryId < |names|
      && (forall k :: currQryPtr <= k <= CLD_MAX_QUERY_NESTED ==> globalQryStack[k] == -1)
    }

    ghost predicate Valid()
      reads this, globalQryStack
    {
      Counted() && (queryId == -1 <==> currQryPtr == 0)
    }

    constructor ()
      ensures Valid() && Abstract() == NOTHING && fresh(globalQryStack)
    {
      names, qryActive, out := [], [], [];
      globalQryStack := new int[CLD_MAX_QUERY_NESTED + 1](_ => -1);
      currQryPtr, queryId, openQueries := 0, -1, 0;
    }

    /** find_query */
    method FindQuery(name: string) returns (k: int)
      requires Counted()
      ensures k == Find(names, name)
    {
      k := 0;
      while k < |names|
        invariant 0 <= k <= |names| && name !in names[..k]
      {
        if names[k] == name { FindIs(names, name, k); return; }
        k := k + 1;
      }
      assert names[..k] == names;
      k := -1;
    }

    /** initialize_query: a new query, or a redefinition that makes an old one unused. */
    method InitializeQuery(name: string) returns (ok: bool)
      requires Valid()
      modifies this`names, this`qryActive
      ensures ok <==> Defined(old(Abstract()), name).Some?
      ensures ok ==> Valid() && Abstract() == Defined(old(Abstract()), name).value
    {
      var qry := FindQuery(name);
      if qry == -1 {
        names, qryActive := names + [name], qryActive + [Unused];
        ok := |names| < CLD_MAX_QUERY;
      } else {
        qryActive := qryActive[qry := Unused];
        ok := true;
      }
    }

    /** One level up: the query goes on the stack and is active. */
    method Push(k: int) returns (ok: bool)
      requires Counted() && 0 <= k < |names|
      modifies this`currQryPtr, this`openQueries, this`queryId, this`qryActive, globalQryStack
      ensures ok <==> old(currQryPtr) + 1 < CLD_MAX_QUERY_NESTED
      ensures ok ==> Valid() && Abstract() ==
                                old(Abstract()).(status := old(qryActive)[k := Active], running := old(Abstract()).running + [k])
    {
      queryId := k;
      openQueries := openQueries + 1;
      currQryPtr := currQryPtr + 1;
      if currQryPtr >= CLD_MAX_QUERY_NESTED { return false; }
      globalQryStack[currQryPtr - 1] := k;
      qryActive := qryActive[k := Active];
      ok := true;
    }

    /** end_query: back to the surrounding query; the loop is closed unless start-query never opened one. */
    method EndQuery(closeBlock: bool) returns (ok: bool)
      requires Valid()
      modifies this`currQryPtr, this`openQueries, this`queryId, this`qryActive, this`out, globalQryStack
      ensures ok <==> old(currQryPtr) > 0
      ensures ok ==>
                var v := old(Abstract());
                var n := |v.running| - 1;
                && Valid() && n >= 0 && 0 <= v.running[n] < |v.status|
                && Abstract() == v.(status := v.status[v.running[n] := Used], running := v.running[..n],
                                    out := if closeBlock then v.out + [Close] else v.out)
    {
      hide InTable;
      if queryId == -1 { return false; }
      TableTop(globalQryStack[..currQryPtr], |names|);
      assert globalQryStack[..currQryPtr][..currQryPtr - 1] == globalQryStack[..currQryPtr - 1];
      var leavingId := globalQryStack[currQryPtr - 1];
      qryActive := qryActive[leavingId := Used];
      globalQryStack[currQryPtr - 1] := -1;
      currQryPtr := currQryPtr - 1;
      if currQryPtr == 0 {
        queryId := -1;
      } else {
        queryId := globalQryStack[currQryPtr - 1];
      }
      if closeBlock {
        out := out + [Close];
      }
      openQueries := openQueries - 1;
      ok := true;
    }

    /** loop-query */
    method LoopQuery(name: string) returns (ok: bool)
      requires Valid()
      modifies this, globalQryStack
      ensures globalQryStack == old(globalQryStack)
      ensures ok <==> Effect(old(Abstract()), Loop(name)).Some?
      ensures ok ==> Valid() && Abstract() == Effect(old(Abstract()), Loop(name)).value
    {
      hide InTable;
      var k := FindQuery(name);
      if k == -1 { return false; }
      if qryActive[k] != Used { return false; }
      out := out + [For(k)];
      ok := Push(k);
    }

    /** run-query and start-query, once their query is defined. */
    method Execute(name: string, start: bool, inputs: bool) returns (ok: bool)
      requires Valid()
      modifies this, globalQryStack
      ensures globalQryStack == old(globalQryStack)
      ensures ok <==> Executed(old(Abstract()), name, start, inputs).Some?
      ensures ok ==> Valid() && Abstract() == Executed(old(Abstract()), name, start, inputs).value
    {
      hide InTable;
      ghost var v := Abstract();
      var k := FindQuery(name);
      if k == -1 { return false; }
      queryId := k;
      if !start && qryActive[k] == Used { return false; }
      if !inputs { return false; }
      if qryActive[k] == Active { return false; }
      ok := Push(k);
      if !ok { return; }
      if start {
        ok := EndQuery(false);
        assert (v.running + [k])[..|v.running|] == v.running;
        assert v.status[k := Active][k := Used] == v.status[k := Used];
      } else {
        out := out + [For(k)];
      }
    }

    /** run-query and start-query. */
    method RunQuery(name: string, text: bool, start: bool, inputs: bool) returns (ok: bool)
      requires Valid()
      modifies this, globalQryStack
      ensures globalQryStack == old(globalQryStack)
      ensures ok <==> Ran(old(Abstract()), name, text, start, inputs).Some?
      ensures ok ==> Valid() && Abstract() == Ran(old(Abstract()), name, text, start, inputs).value
    {
      hide InTable, Executed, Defined;
      if text {
        var k := FindQuery(name);
        if k == -1 && start { return false; }
        ok := InitializeQuery(name);
        if !ok { return; }
      }
      ok := Execute(name, start, inputs);
    }

    /** One statement.  A query's parameters and results may only be named where some query is open. */
    method Step(m: Markup) returns (ok: bool)
      requires Valid()
      modifies this, globalQryStack
      ensures globalQryStack == old(globalQryStack)
      ensures ok <==> Effect(old(Abstract()), m).Some?
      ensures ok ==> Valid() && Abstract() == Effect(old(Abstract()), m).value
    {
      hide InTable, Ran, Defined;
      match m
      case Define(name) =>
        var k := FindQuery(name);
        if k != -1 { return false; }
        ok := InitializeQuery(name);
      case Run(name, text, inputs) => ok := RunQuery(name, text, false, inputs);
      case Start(name, text, inputs) => ok := RunQuery(name, text, true, inputs);
      case Loop(name) => ok := LoopQuery(name);
      case AddInput(name, inputs) =>
        var k := FindQuery(name);
        if k == -1 || queryId == -1 || !inputs { return false; }
        queryId := k;
        ok := true;
      case Result(name) =>
        var k := FindQuery(name);
        if k == -1 || queryId == -1 { return false; }
        queryId := k;
        ok := globalQryStack[currQryPtr - 1] == queryId && qryActive[queryId] == Active;
      case End => ok := EndQuery(true);
    }
  }

  lemma {:induction false} FindIs(names: seq<string>, name: string, k: nat)
    requires k < |names| && names[k] == name && name !in names[..k]
    ensures Find(names, name) == k
  {
  }

  /** A source file: accepted exactly when every statement is and no query is left open, with the code of the
      specification; its blocks are balanced whatever is redefined, and as long as no active query is redefined,
      which is exactly when the statuses are right all the way, no loop over a query is inside another loop over it. */
  method Compile(file: seq<Markup>) returns (ok: bool, out: seq<Brace>)
    ensures ok <==> Effects(NOTHING, file).Some? && Effects(NOTHING, file).value.running == []
    ensures ok ==> out == Effects(NOTHING, file).value.out && Unclosed(out) == Open([])
    ensures ok ==> (RedefinesNone(NOTHING, file) <==> forall k :: 0 <= k <= |file| ==> FaithfulAfter(NOTHING, file, k))
    ensures ok && RedefinesNone(NOTHING, file) ==> NoSelfNesting(out)
  {
    hide Effect, Unclosed, Exact, NoSelfNesting, Distinct;
    Beginning();
    var f := new Front();
    ok, out := true, [];
    var k := 0;
    while k < |file|
      invariant 0 <= k <= |file| && fresh(f) && fresh(f.globalQryStack) && f.Valid()
      invariant Effects(NOTHING, file) == Effects(f.Abstract(), file[k..])
    {
      assert file[k..][0] == file[k] && file[k..][1..] == file[k + 1..];
      ok := f.Step(file[k]);
      if !ok { return; }
      k := k + 1;
    }
    assert file[k..] == [];
    ok, out := f.openQueries == 0, f.out;
    if Effects(NOTHING, file).Some? { WholeFile(file); }
  }

  lemma WholeFile(file: seq<Markup>)
    requires Effects(NOTHING, file).Some?
    ensures var w := Effects(NOTHING, file).value;
            && (w.running == [] ==> Unclosed(w.out) == Open([]))
            && (RedefinesNone(NOTHING, file) ==> NoSelfNesting(w.out))
            && (RedefinesNone(NOTHING, file) <==> forall k :: 0 <= k <= |file| ==> FaithfulAfter(NOTHING, file, k))
  {
    hide Effect, Unclosed, Exact, NoSelfNesting, Distinct;
    Beginning();
    EffectsKeep(NOTHING, file);
    assert file[..|file|] == file;
    assert RedefinesNone(NOTHING, file) ==> FaithfulAfter(NOTHING, file, |file|);
  }

  lemma Beginning()
    ensures WellKept(NOTHING) && Faithful(NOTHING)
  {
  }
}
