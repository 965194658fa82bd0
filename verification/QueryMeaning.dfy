/** What the expansion of a query template means: its SQL text and parameters, when it succeeds, and why
    nothing is lost by compaction. */
module QueryMeaning {
  import opened Wrappers
  import opened CStrings
  import opened ShardMatch
  import opened QueryTree
  import opened QueryExpand
  import SqlFill

  // ----- SQL text, parameters and expanded source of a template

  function SqlOf(n: Node): string
    decreases n, 0
  {
    match n
    case Plain(t) => t
    case Param(_) => HOLE
    case Fragment(_, splice) => Sql(splice)
    case Shard(_, body) => Sql(body)
  }

  function Sql(ns: seq<Node>): string
    decreases ns, 1
  {
    if ns == [] then "" else SqlOf(ns[0]) + Sql(ns[1..])
  }

  function ParamsOf(n: Node): seq<string>
    decreases n, 0
  {
    match n
    case Plain(_) => []
    case Param(p) => [p]
    case Fragment(_, splice) => Params(splice)
    case Shard(_, body) => Params(body)
  }

  function Params(ns: seq<Node>): seq<string>
    decreases ns, 1
  {
    if ns == [] then [] else ParamsOf(ns[0]) + Params(ns[1..])
  }

  function LeavesOf(n: Node): seq<Node>
    decreases n, 0
  {
    match n
    case Fragment(_, splice) => Leaves(splice)
    case Shard(_, body) => Leaves(body)
    case _ => [n]
  }

  /** The template with every fragment put in and every shard tag dropped, parameters kept as they are. */
  function Leaves(ns: seq<Node>): seq<Node>
    decreases ns, 1
  {
    if ns == [] then [] else LeavesOf(ns[0]) + Leaves(ns[1..])
  }

  /** The shard uses of a template, in the order in which they are met. */
  datatype Use = Use(name: string, text: string)

  function UsesOf(n: Node): seq<Use>
    decreases n, 0
  {
    match n
    case Fragment(_, splice) => Uses(splice)
    case Shard(name, body) => [Use(Trim(name), Print(body))] + Uses(body)
    case _ => []
  }

  function Uses(ns: seq<Node>): seq<Use>
    decreases ns, 1
  {
    if ns == [] then [] else UsesOf(ns[0]) + Uses(ns[1..])
  }

  /** Every fragment that is referred to is defined, and no shard is nested too deep. */
  predicate SoundNode(n: Node, fs: seq<FragmentDef>)
    decreases n, 0
  {
    match n
    case Fragment(name, splice) => FragmentIndex(fs, Trim(name), 0) >= 0 && Sound(splice, fs)
    case Shard(_, body) => 1 + Nest(body) <= MAX_NEST && Sound(body, fs)
    case _ => true
  }

  predicate Sound(ns: seq<Node>, fs: seq<FragmentDef>)
    decreases ns, 1
  {
    ns == [] || (SoundNode(ns[0], fs) && Sound(ns[1..], fs))
  }

  function UseAll(ss: seq<ShardDef>, us: seq<Use>): Option<seq<ShardDef>>
    decreases |us|
  {
    if us == [] then Some(ss) else
      var first := UseShard(ss, us[0].name, us[0].text);
      if first.None? then None else UseAll(first.value, us[1..])
  }

  lemma {:induction false} UseAllConcat(ss: seq<ShardDef>, a: seq<Use>, b: seq<Use>)
    ensures UseAll(ss, a + b) == (if UseAll(ss, a).None? then None else UseAll(UseAll(ss, a).value, b))
    decreases |a|
  {
    hide UseShard;
    if a == [] {
      assert a + b == b;
    } else {
      assert (a + b)[1..] == a[1..] + b;
      if UseShard(ss, a[0].name, a[0].text).Some? {
        UseAllConcat(UseShard(ss, a[0].name, a[0].text).value, a[1..], b);
      }
    }
  }

  predicate Room(have: nat, more: nat) {
    more == 0 || have + more < MAX_QUERY_INPUTS
  }

  /** Adding SQL text, parameters and shard uses to a state, where the limits and the shard table allow it. */
  function Added(st: State, sql: string, params: seq<string>, us: seq<Use>): Option<State> {
    var ss := UseAll(st.shards, us);
    if Room(|st.params|, |params|) && ss.Some? then Some(State(st.sql + sql, st.params + params, ss.value)) else None
  }

  lemma AddedTwice(st: State, sql: string, ps: seq<string>, us: seq<Use>, sql': string, ps': seq<string>, us': seq<Use>)
    ensures Added(st, sql + sql', ps + ps', us + us') ==
            (var one := Added(st, sql, ps, us); if one.None? then None else Added(one.value, sql', ps', us'))
  {
    hide UseAll;
    UseAllConcat(st.shards, us, us');
    assert st.sql + (sql + sql') == (st.sql + sql) + sql';
    assert st.params + (ps + ps') == (st.params + ps) + ps';
  }

  lemma AddedNothing(st: State)
    ensures Added(st, "", [], []) == Some(st)
  {
    assert st.sql + "" == st.sql && st.params + [] == st.params;
  }

  /** The expansion succeeds exactly when fragments are defined, nesting and parameters are within their
      limits and every shard use matches; it then yields the SQL text and the parameters of the tree. */
  lemma {:induction false} ExpandMeaning(ns: seq<Node>, st: State, fs: seq<FragmentDef>)
    ensures Expand(ns, st, fs) == if Sound(ns, fs) then Added(st, Sql(ns), Params(ns), Uses(ns)) else None
    decreases ns, 1
  {
    hide Step, SqlOf, ParamsOf, UsesOf, SoundNode, Added;
    if ns == [] {
      AddedNothing(st);
    } else {
      StepMeaning(ns[0], st, fs);
      AddedTwice(st, SqlOf(ns[0]), ParamsOf(ns[0]), UsesOf(ns[0]), Sql(ns[1..]), Params(ns[1..]), Uses(ns[1..]));
      var one := Step(ns[0], st, fs);
      if one.Some? {
        ExpandMeaning(ns[1..], one.value, fs);
      }
    }
  }

  lemma {:induction false} StepMeaning(n: Node, st: State, fs: seq<FragmentDef>)
    ensures Step(n, st, fs) == if SoundNode(n, fs) then Added(st, SqlOf(n), ParamsOf(n), UsesOf(n)) else None
    decreases n, 0
  {
    hide Expand, Sql, Params, Uses, Sound, UseShard, Print, Nest, Trim, FragmentIndex;
    match n
    case Plain(t) =>
      assert st.params + [] == st.params;
    case Param(p) =>
    case Fragment(name, splice) =>
      ExpandMeaning(splice, st, fs);
    case Shard(name, body) =>
      ShardMeaning(st, Use(Trim(name), Print(body)), Sql(body), Params(body), Uses(body));
      var ss := UseShard(st.shards, Trim(name), Print(body));
      if ss.Some? {
        ExpandMeaning(body, State(st.sql, st.params, ss.value), fs);
      }
  }

  lemma ShardMeaning(st: State, u: Use, sql: string, ps: seq<string>, us: seq<Use>)
    ensures var ss := UseShard(st.shards, u.name, u.text);
            Added(st, sql, ps, [u] + us) ==
            if ss.None? then None else Added(State(st.sql, st.params, ss.value), sql, ps, us)
  {
    hide UseShard;
    assert ([u] + us)[1..] == us;
  }

  // ----- Nothing is lost

  /** Putting <?p?> back for the placeholders of a query, from the left. */
  function Restored(sql: string, ps: seq<string>): string {
    if ps == [] then sql else
      var i := IndexOf(sql, HOLE);
      if i < 0 then sql else sql[..i] + (OPEN + (ps[0] + CLOSE)) + Restored(sql[i + 4..], ps[1..])
  }

  ghost predicate Flat(ls: seq<Node>) {
    forall k :: 0 <= k < |ls| ==> ls[k].Plain? || ls[k].Param?
  }

  lemma {:induction false} SqlConcat(a: seq<Node>, b: seq<Node>)
    ensures Sql(a + b) == Sql(a) + Sql(b) && Params(a + b) == Params(a) + Params(b)
    decreases |a|
  {
    hide SqlOf, ParamsOf;
    if a == [] {
      assert a + b == b;
    } else {
      assert (a + b)[1..] == a[1..] + b;
      SqlConcat(a[1..], b);
    }
  }

  /** The leaves have the SQL text and the parameters of the tree. */
  lemma {:induction false} LeavesMeaning(ns: seq<Node>)
    ensures Flat(Leaves(ns)) && Sql(Leaves(ns)) == Sql(ns) && Params(Leaves(ns)) == Params(ns)
    decreases ns
  {
    if ns != [] {
      var n := ns[0];
      LeavesMeaning(ns[1..]);
      SqlConcat(LeavesOf(n), Leaves(ns[1..]));
      if n.Fragment? {
        LeavesMeaning(n.splice);
      } else if n.Shard? {
        LeavesMeaning(n.body);
      } else {
        OneLeaf(n);
      }
    }
  }

  lemma OneLeaf(n: Node)
    ensures Sql([n]) == SqlOf(n) && Params([n]) == ParamsOf(n)
  {
    assert [n][1..] == [];
    assert SqlOf(n) + "" == SqlOf(n) && ParamsOf(n) + [] == ParamsOf(n);
  }

  lemma HoleCount(lead: string, u: string)
    ensures Count(lead + (HOLE + u), "%s") == Count(lead, "%s") + 1 + Count(u, "%s")
  {
    hide IndexOf, At;
    var s := lead + (HOLE + u);
    SqlFill.QuotedSplit(s, |lead|);
    assert s[..|lead| + 3] == lead + "'%s" && s[|lead| + 4..] == u;
    SqlFill.CountCut(lead, "'%s");
    SqlFill.IndexPercent("'%s");
    assert SqlFill.Percent("'%s", 1);
    assert "'%s"[3..] == "";
    SqlFill.IndexPercent("");
  }

  lemma HoleIndex(lead: string, u: string)
    requires Count(lead, "%s") == 0
    ensures IndexOf(lead + (HOLE + u), HOLE) == |lead|
  {
    hide IndexOf, At;
    var s := lead + (HOLE + u);
    SqlFill.IndexPercent(s);
    SqlFill.IndexPercent(lead);
    CountOnce(lead, "%s");
    NoneInLead(lead, u);
  }

  lemma NoneInLead(lead: string, u: string)
    requires forall k :: 0 <= k <= |lead| ==> !SqlFill.Percent(lead, k)
    ensures forall k :: 0 <= k < |lead| ==> !SqlFill.Quoted(lead + (HOLE + u), k)
    ensures SqlFill.Quoted(lead + (HOLE + u), |lead|)
  {
    forall k | 0 <= k < |lead| ensures !SqlFill.Quoted(lead + (HOLE + u), k) {
      assert !SqlFill.Percent(lead, k + 1);
    }
  }

  lemma {:induction false} CountAtLeast(lead: string, ls: seq<Node>)
    requires Flat(ls)
    ensures Count(lead + Sql(ls), "%s") >= |Params(ls)|
    decreases |ls|
  {
    if ls != [] {
      if ls[0].Plain? {
        assert lead + Sql(ls) == (lead + ls[0].t) + Sql(ls[1..]);
        CountAtLeast(lead + ls[0].t, ls[1..]);
      } else {
        HoleCount(lead, Sql(ls[1..]));
        CountAtLeast("", ls[1..]);
        assert "" + Sql(ls[1..]) == Sql(ls[1..]);
      }
    }
  }

  lemma LeafFirst(ls: seq<Node>)
    requires Flat(ls)
    ensures ls == [] ==> Sql(ls) == "" && Params(ls) == [] && Print(ls) == ""
    ensures ls != [] ==> Flat(ls[1..])
    ensures ls != [] && ls[0].Plain? ==>
              && Sql(ls) == ls[0].t + Sql(ls[1..]) && Params(ls) == Params(ls[1..])
              && Print(ls) == ls[0].t + Print(ls[1..])
    ensures ls != [] && ls[0].Param? ==>
              && Sql(ls) == HOLE + Sql(ls[1..]) && Params(ls) == [ls[0].p] + Params(ls[1..])
              && Print(ls) == (OPEN + (ls[0].p + CLOSE)) + Print(ls[1..])
  {
  }

  lemma {:induction false} RestoreLeaves(lead: string, ls: seq<Node>)
    requires Flat(ls) && Count(lead + Sql(ls), "%s") == |Params(ls)|
    ensures Restored(lead + Sql(ls), Params(ls)) == lead + Print(ls)
    ensures Count(lead + Sql(ls), HOLE) == |Params(ls)|
    decreases |ls|
  {
    hide IndexOf, Count, Sql, Params, Print;
    LeafFirst(ls);
    if ls == [] {
      SqlFill.QuotedWithin(lead + Sql(ls));
    } else if ls[0].Plain? {
      Assoc(lead, ls[0].t, Sql(ls[1..]));
      Assoc(lead, ls[0].t, Print(ls[1..]));
      RestoreLeaves(lead + ls[0].t, ls[1..]);
    } else {
      var u, rest := Sql(ls[1..]), ls[1..];
      HoleCount(lead, u);
      CountAtLeast("", rest);
      assert "" + u == u && "" + Print(rest) == Print(rest);
      RestoreLeaves("", rest);
      RestoreHole(lead, ls[0].p, u, Params(rest));
      Assoc(lead, OPEN + (ls[0].p + CLOSE), Print(rest));
    }
  }

  lemma RestoreHole(lead: string, p: string, u: string, ps: seq<string>)
    requires Count(lead, "%s") == 0
    ensures Restored(lead + (HOLE + u), [p] + ps) == lead + (OPEN + (p + CLOSE)) + Restored(u, ps)
    ensures Count(lead + (HOLE + u), HOLE) == 1 + Count(u, HOLE)
  {
    hide IndexOf, Count;
    var s := lead + (HOLE + u);
    HoleIndex(lead, u);
    CountOnce(s, HOLE);
    assert s[|lead| + 4..] == u && s[..|lead|] == lead;
    assert ([p] + ps)[1..] == ps;
  }

  /** No information is lost by compaction: whenever the query passes the count of placeholders, these are as
      many as the parameters, all of them quoted, and putting the parameters back gives the expanded template. */
  lemma NothingLost(ns: seq<Node>)
    requires Count(Sql(ns), "%s") == |Params(ns)|
    ensures Restored(Sql(ns), Params(ns)) == Print(Leaves(ns))
    ensures Count(Sql(ns), HOLE) == |Params(ns)|
  {
    hide Count, Restored;
    LeavesMeaning(ns);
    assert "" + Sql(ns) == Sql(ns) && "" + Print(Leaves(ns)) == Print(Leaves(ns));
    RestoreLeaves("", Leaves(ns));
  }

  // ----- What a compiled query is

  lemma CompiledMeaning(ns: seq<Node>, ss: seq<ShardDef>, fs: seq<FragmentDef>)
    requires Compiled(ns, ss, fs).Some?
    ensures var q := Compiled(ns, ss, fs).value;
            q.sql == Sql(ns) && q.inputs == DeEscaped(Params(ns))
    ensures IndexOf(Print(ns), OPEN) >= 0 ==>
              && Count(Sql(ns), "%s") == Count(Sql(ns), HOLE) == |Params(ns)|
              && Restored(Sql(ns), Params(ns)) == Print(Leaves(ns))
  {
    hide IndexOf, Count, Restored, Expand, UseAll, Sound;
    ExpandMeaning(ns, State("", [], ss), fs);
    assert "" + Sql(ns) == Sql(ns) && [] + Params(ns) == Params(ns);
    if IndexOf(Print(ns), OPEN) >= 0 { NothingLost(ns); }
  }
}
