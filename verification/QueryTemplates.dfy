/** Templates as trees against templates as texts (cld.c): a well-formed template is read as its tree is expanded. */
module QueryTemplates {
  import opened Wrappers
  import opened CStrings
  import opened ShardMatch
  import opened QueryTree
  import opened QueryExpand
  import opened QueryText
  import opened QueryMeaning

  // ----- Well-formed templates

  /** Every reference to a defined fragment, in the splices too, is to one of lower rank. */
  predicate Ranked(ns: seq<Node>, fs: seq<FragmentDef>, rank: seq<nat>, bound: nat)
    requires |rank| == |fs|
    decreases ns
  {
    ns == [] ||
    ((match ns[0]
      case Fragment(name, splice) =>
        var i := FragmentIndex(fs, Trim(name), 0);
        i >= 0 ==> rank[i] < bound && Ranked(splice, fs, rank, rank[i])
      case Shard(_, body) => Ranked(body, fs, rank, bound)
      case _ => true)
     && Ranked(ns[1..], fs, rank, bound))
  }

  lemma {:induction false} RankedConcat(a: seq<Node>, b: seq<Node>, fs: seq<FragmentDef>, rank: seq<nat>, bound: nat)
    requires |rank| == |fs| && Ranked(a, fs, rank, bound) && Ranked(b, fs, rank, bound)
    ensures Ranked(a + b, fs, rank, bound)
    decreases |a|
  {
    hide FragmentIndex, Trim;
    if a == [] {
      assert a + b == b;
    } else {
      assert (a + b)[1..] == a[1..] + b;
      RankedConcat(a[1..], b, fs, rank, bound);
    }
  }

  /** What is in a tag, and what is behind it, is ranked too. */
  lemma RankedFirst(ns: seq<Node>, fs: seq<FragmentDef>, rank: seq<nat>, bound: nat)
    requires |rank| == |fs| && Ranked(ns, fs, rank, bound) && ns != []
    ensures Ranked(ns[1..], fs, rank, bound)
    ensures ns[0].Fragment? ==>
              var i := FragmentIndex(fs, Trim(ns[0].name), 0);
              i >= 0 ==> rank[i] < bound && Ranked(ns[0].splice, fs, rank, rank[i])
    ensures ns[0].Shard? ==> Ranked(ns[0].body, fs, rank, bound) && Ranked(ns[0].body + ns[1..], fs, rank, bound)
  {
    hide FragmentIndex, Trim;
    if ns[0].Shard? { RankedConcat(ns[0].body, ns[1..], fs, rank, bound); }
  }

  lemma {:induction false} RankedLead(ns: seq<Node>, fs: seq<FragmentDef>, rank: seq<nat>, bound: nat)
    requires |rank| == |fs| && Ranked(ns, fs, rank, bound)
    ensures Ranked(DropLead(ns), fs, rank, bound)
  {
    if ns != [] && ns[0].Plain? { RankedLead(ns[1..], fs, rank, bound); }
  }

  /** The first tag of a printed template. */
  lemma TagOfTree(ns: seq<Node>, fs: seq<FragmentDef>)
    requires WellFormed(ns) && Consistent(ns, fs)
    ensures var s, rest, b := Print(ns), DropLead(ns), |Lead(ns)|;
            if rest == [] then FindTag(s) == NoTag && Lead(ns) == s
            else
              var e := b + 2 + |Inner(rest[0])|;
              && FindTag(s) == Tagged(b, e) && s[..b] == Lead(ns) && s[b + 2..e] == Inner(rest[0])
              && Todo(s, b, rest, fs)
  {
    hide Scan, At, Print, WellBefore, Consistent, Weight, Todo;
    var s := Print(ns);
    StartWork(ns, fs);
    NextTag(s, 0, ns, fs);
    LeadScan(s, 0, ns, fs);
    AtSlice(s, 0, Lead(ns));
    if DropLead(ns) != [] {
      AtSlice(s, |Lead(ns)| + 2, Inner(DropLead(ns)[0]));
      TagSize(DropLead(ns)[0]);
    } else {
      assert s[0..|s|] == s;
    }
  }

  /** What is behind a parameter or a fragment reference. */
  lemma AfterTag(s: string, b: nat, ns: seq<Node>, fs: seq<FragmentDef>)
    requires Todo(s, b, ns, fs) && ns != [] && (ns[0].Param? || ns[0].Fragment?)
    ensures b + 4 + |Inner(ns[0])| <= |s| && s[b + 4 + |Inner(ns[0])|..] == Print(ns[1..])
    ensures WellFormed(ns[1..]) && Consistent(ns[1..], fs) && !At(s, b, BEGIN) && Inner(ns[0]) != ""
    ensures ns[0].Param? ==> !(FRAGMENT <= ns[0].p) && Inner(ns[0]) == ns[0].p
    ensures ns[0].Fragment? ==> FRAGMENT <= Inner(ns[0]) && Inner(ns[0])[|FRAGMENT|..] == ns[0].name
  {
    hide At, Print, WellBefore, Scan, Tag;
    PrintedTag(s, b, ns, |s|);
    TagSize(ns[0]);
    TagFound(s, b, ns, fs);
    TagParts(ns[0]);
    PrintFirst(ns, "");
    AtSlice(s, b + |Tag(ns[0])|, Print(ns[1..]));
  }

  /** What is behind a shard tag. */
  lemma AfterShard(s: string, b: nat, ns: seq<Node>, fs: seq<FragmentDef>)
    requires Todo(s, b, ns, fs) && ns != [] && ns[0].Shard?
    ensures var q := b + 4 + |Inner(ns[0])|;
            var e := q + |Print(ns[0].body)|;
            && e + 13 <= |s| && At(s, b, BEGIN) && s[q..e] == Print(ns[0].body)
            && MatchFrom(s, q, 1) == (if 1 + Nest(ns[0].body) <= MAX_NEST then e else -1)
            && s[q..e] + s[e + 13..] == Print(ns[0].body + ns[1..])
    ensures WellFormed(ns[0].body + ns[1..]) && Consistent(ns[0].body + ns[1..], fs)
    ensures |Inner(ns[0])| >= 6 && Inner(ns[0])[6..] == ns[0].sname
  {
    hide At, Print, WellBefore, Consistent, Scan, MatchFrom, Tag, Todo, Nest;
    ShardRound(s, b, ns, fs);
    TagSize(ns[0]);
    TagParts(ns[0]);
    var q := b + |Tag(ns[0])|;
    var e := q + |Print(ns[0].body)|;
    Assoc(s[..b], s[q..e], s[e + 13..]);
    PrintedRest(s[..b], s[q..e] + s[e + 13..], ns[0].body + ns[1..], fs);
  }

  lemma PrintedRest(x: string, w: string, ns: seq<Node>, fs: seq<FragmentDef>)
    requires Todo(x + w, |x|, ns, fs)
    ensures w == Print(ns) && WellFormed(ns) && Consistent(ns, fs)
  {
    hide Print, WellBefore, Consistent;
    AtSlice(x + w, |x|, Print(ns));
    assert (x + w)[|x|..|x + w|] == w;
  }

  /** Well-formed templates are read as their trees are expanded. */
  lemma {:induction false} ReadTree(ns: seq<Node>, st: State, fs: seq<FragmentDef>, rank: seq<nat>, bound: nat)
    requires WellFormed(ns) && Consistent(ns, fs) && |rank| == |fs| && Ranked(ns, fs, rank, bound)
    ensures Reading(Print(ns), st, fs, rank, bound) == Expand(ns, st, fs)
    decreases Weight(ns), 1
  {
    hide At, Print, WellBefore, Consistent, Expand, FindTag, Ranked, Todo, Weight, Read;
    var s, b, rest := Print(ns), |Lead(ns)|, DropLead(ns);
    TagOfTree(ns, fs);
    LeadExpand(ns, st, fs);
    RankedLead(ns, fs, rank, bound);
    if rest == [] {
      ReadEnd(s, st, fs, rank, bound);
      NothingLeft(State(st.sql + Lead(ns), st.params, st.shards), fs);
    } else {
      WeightLead(ns, fs);
      match rest[0]
      case Param(_) => ReadParam(s, b, rest, st, fs, rank, bound);
      case Fragment(_, _) => ReadFragment(s, b, rest, st, fs, rank, bound);
      case Shard(_, _) => ReadShard(s, b, rest, st, fs, rank, bound);
    }
  }

  lemma WeightLead(ns: seq<Node>, fs: seq<FragmentDef>)
    requires WellFormed(ns) && Consistent(ns, fs)
    ensures Weight(DropLead(ns)) == Weight(ns)
  {
    hide At, Print, WellBefore, Consistent, Todo, Weight;
    StartWork(ns, fs);
    LeadScan(Print(ns), 0, ns, fs);
  }

  lemma {:induction false} ReadParam(s: string, b: nat, ns: seq<Node>, st: State, fs: seq<FragmentDef>, rank: seq<nat>, bound: nat)
    requires Todo(s, b, ns, fs) && ns != [] && ns[0].Param? && |rank| == |fs| && Ranked(ns, fs, rank, bound)
    requires b + 4 + |Inner(ns[0])| <= |s| && s[b + 2..b + 2 + |Inner(ns[0])|] == Inner(ns[0])
    requires FindTag(s) == Tagged(b, b + 2 + |Inner(ns[0])|)
    ensures Reading(s, st, fs, rank, bound) == Expand(ns, State(st.sql + s[..b], st.params, st.shards), fs)
    decreases Weight(ns), 0
  {
    hide At, Print, WellBefore, Consistent, Expand, FindTag, Ranked, Todo, Weight, Read,
         FragmentIndex, UseShard, MatchFrom, Trim, Nest;
    var st1 := State(st.sql + s[..b], st.params, st.shards);
    ExpandFirst(ns, st1, fs);
    RankedFirst(ns, fs, rank, bound);
    AfterTag(s, b, ns, fs);
    ParamRead(s, b, ns[0].p, st, fs, rank, bound);
    if |st.params| + 1 < MAX_QUERY_INPUTS {
      ReadTree(ns[1..], State(st1.sql + HOLE, st.params + [ns[0].p], st.shards), fs, rank, bound);
    }
  }

  lemma {:induction false} ReadFragment(s: string, b: nat, ns: seq<Node>, st: State, fs: seq<FragmentDef>, rank: seq<nat>, bound: nat)
    requires Todo(s, b, ns, fs) && ns != [] && ns[0].Fragment? && |rank| == |fs| && Ranked(ns, fs, rank, bound)
    requires b + 4 + |Inner(ns[0])| <= |s| && s[b + 2..b + 2 + |Inner(ns[0])|] == Inner(ns[0])
    requires FindTag(s) == Tagged(b, b + 2 + |Inner(ns[0])|)
    ensures Reading(s, st, fs, rank, bound) == Expand(ns, State(st.sql + s[..b], st.params, st.shards), fs)
    decreases Weight(ns), 0
  {
    hide At, Print, WellBefore, Consistent, Expand, FindTag, Ranked, Todo, Weight, Read,
         FragmentIndex, UseShard, MatchFrom, Trim, Nest;
    var st1 := State(st.sql + s[..b], st.params, st.shards);
    ExpandFirst(ns, st1, fs);
    RankedFirst(ns, fs, rank, bound);
    var name, splice := ns[0].name, ns[0].splice;
    AfterTag(s, b, ns, fs);
    FragmentRead(s, b, FRAGMENT + name, st, fs, rank, bound);
    var i := FragmentIndex(fs, Trim(name), 0);
    if i >= 0 {
      SplicePart(s, b, ns, fs);
      PrintConcat(splice, ns[1..], fs);
      ReadTree(splice, st1, fs, rank, rank[i]);
      ExpandConcat(splice, ns[1..], st1, fs);
      var st2 := Expand(splice, st1, fs);
      if st2.Some? { ReadTree(ns[1..], st2.value, fs, rank, bound); }
    }
  }

  lemma {:induction false} ReadShard(s: string, b: nat, ns: seq<Node>, st: State, fs: seq<FragmentDef>, rank: seq<nat>, bound: nat)
    requires Todo(s, b, ns, fs) && ns != [] && ns[0].Shard? && |rank| == |fs| && Ranked(ns, fs, rank, bound)
    requires b + 4 + |Inner(ns[0])| <= |s| && s[b + 2..b + 2 + |Inner(ns[0])|] == Inner(ns[0])
    requires FindTag(s) == Tagged(b, b + 2 + |Inner(ns[0])|)
    ensures Reading(s, st, fs, rank, bound) == Expand(ns, State(st.sql + s[..b], st.params, st.shards), fs)
    decreases Weight(ns), 0
  {
    hide At, Print, WellBefore, Consistent, Expand, FindTag, Ranked, Todo, Weight, Read,
         FragmentIndex, UseShard, MatchFrom, Trim, Nest;
    var st1 := State(st.sql + s[..b], st.params, st.shards);
    ExpandFirst(ns, st1, fs);
    RankedFirst(ns, fs, rank, bound);
    var name, body := ns[0].sname, ns[0].body;
    AfterShard(s, b, ns, fs);
    var e := b + 2 + |Inner(ns[0])|;
    ShardRead(s, st, b, e, fs, rank, bound);
    assert s[b + 8..e] == Inner(ns[0])[6..];
    var more := UseShard(st.shards, Trim(name), Print(body));
    if 1 + Nest(body) <= MAX_NEST && more.Some? {
      ShardLeft(s, b, e, fs);
      ReadTree(body + ns[1..], State(st1.sql, st.params, more.value), fs, rank, bound);
    }
  }

  /** The tree of a fragment reference is that of the fragment's text. */
  lemma SplicePart(s: string, b: nat, ns: seq<Node>, fs: seq<FragmentDef>)
    requires Todo(s, b, ns, fs) && ns != [] && ns[0].Fragment?
    ensures FragmentIndex(fs, Trim(ns[0].name), 0) >= 0 ==>
              && fs[FragmentIndex(fs, Trim(ns[0].name), 0)].text == Print(ns[0].splice)
              && WellFormed(ns[0].splice) && Consistent(ns[0].splice, fs)
  {
    hide FragmentIndex, Trim, Print, Head;
    PrintFirst(ns, "");
    BeforeOther(ns[0].splice, Head(ns[1..], ""), "");
  }

  lemma AtSlice(s: string, k: nat, x: string)
    requires At(s, k, x)
    ensures k + |x| <= |s| && s[k..k + |x|] == x
  {
  }

  /** For well-formed templates all this is the expansion of the tree. */
  lemma TreeCompiles(tree: seq<Node>, ss: seq<ShardDef>, fs: seq<FragmentDef>, rank: seq<nat>)
    requires WellFormed(tree) && Consistent(tree, fs) && |rank| == |fs| && Ranked(tree, fs, rank, Top(rank))
    ensures Expanded(Print(tree), ss, fs, rank) == Expand(tree, State("", [], ss), fs)
    ensures CompiledText(Print(tree), ss, fs, rank) == Compiled(tree, ss, fs)
  {
    hide Print, WellBefore, Consistent, Ranked, Expand, Scan, At, Finish;
    var u, st := Print(tree), State("", [], ss);
    ReadTree(tree, st, fs, rank, Top(rank));
    if IndexOf(u, OPEN) < 0 {
      TagOfTree(tree, fs);
      ReadEnd(u, st, fs, rank, Top(rank));
      assert "" + u == u;
    }
  }
}
