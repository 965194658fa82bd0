/** What query templates expand to (cld.c): the tables of fragments and shards, the recursive expansion of a tree, the
    printed template from its next tag on, and the checks that make a query of what comes out. */
module QueryExpand {
  import opened Wrappers
  import opened CStrings
  import opened ShardMatch
  import opened QueryTree

  const HOLE := "'%s'"
  const MAX_QUERY_INPUTS := 200
  const MAX_QUERY_SHARDS := 200
  const MAX_QUERY_FRAGMENTS := 200

  datatype FragmentDef = FragmentDef(name: string, text: string)

  datatype ShardDef = ShardDef(name: string, text: string, soft: bool)

  datatype Query = Query(sql: string, inputs: seq<string>)

  /** What expansion has produced so far: SQL text, parameters in order, and the shard table. */
  datatype State = State(sql: string, params: seq<string>, shards: seq<ShardDef>)

  // ----- The tables

  function FragmentIndex(fs: seq<FragmentDef>, name: string, i: nat): (r: int)
    requires i <= |fs|
    ensures r == -1 || (i <= r < |fs| && fs[r].name == name)
    decreases |fs| - i
  {
    if i == |fs| then -1 else if fs[i].name == name then i else FragmentIndex(fs, name, i + 1)
  }

  function ShardIndex(ss: seq<ShardDef>, name: string, i: nat): (r: int)
    requires i <= |ss|
    ensures r == -1 || (i <= r < |ss| && ss[r].name == name)
    decreases |ss| - i
  {
    if i == |ss| then -1 else if ss[i].name == name then i else ShardIndex(ss, name, i + 1)
  }

  /** The first fragment of that name from `i` on, and none exactly when there is none. */
  lemma {:induction false} FirstFragment(fs: seq<FragmentDef>, name: string, i: nat)
    requires i <= |fs|
    ensures var r := FragmentIndex(fs, name, i);
            && (r < 0 <==> forall k :: i <= k < |fs| ==> fs[k].name != name)
            && (r >= 0 ==> i <= r < |fs| && fs[r].name == name && forall k :: i <= k < r ==> fs[k].name != name)
    decreases |fs| - i
  {
    if i < |fs| { FirstFragment(fs, name, i + 1); }
  }

  /** The same for shards. */
  lemma {:induction false} FirstShard(ss: seq<ShardDef>, name: string, i: nat)
    requires i <= |ss|
    ensures var r := ShardIndex(ss, name, i);
            && (r < 0 <==> forall k :: i <= k < |ss| ==> ss[k].name != name)
            && (r >= 0 ==> i <= r < |ss| && ss[r].name == name && forall k :: i <= k < r ==> ss[k].name != name)
    decreases |ss| - i
  {
    if i < |ss| { FirstShard(ss, name, i + 1); }
  }

  /** The text with every <?...?> turned into a placeholder; nothing when one is not closed. */
  function RemoveParams(s: string): Option<string>
    decreases |s|
  {
    var i := IndexOf(s, OPEN);
    if i < 0 then Some(s) else
      var e := Scan(s, CLOSE, i + 2);
      if e < 0 then None else
        var r := RemoveParams(s[e + 2..]);
        if r.None? then None else Some(s[..i] + HOLE + r.value)
  }

  /** A shard use: the first text used with a declared shard defines it, every later one must match it,
      up to parameters for a soft shard. */
  function UseShard(ss: seq<ShardDef>, name: string, text: string): Option<seq<ShardDef>> {
    var i := ShardIndex(ss, name, 0);
    if i < 0 then None
    else if ss[i].text == "" then Some(ss[i := ss[i].(text := text)])
    else if ss[i].soft then
      var oldText, newText := RemoveParams(ss[i].text), RemoveParams(text);
      if oldText.Some? && newText.Some? && oldText.value == newText.value then Some(ss) else None
    else if ss[i].text == text then Some(ss) else None
  }

  // ----- The recursive expansion

  function Step(n: Node, st: State, fs: seq<FragmentDef>): Option<State>
    decreases n, 0
  {
    match n
    case Plain(t) => Some(st.(sql := st.sql + t))
    case Param(p) =>
      if |st.params| + 1 >= MAX_QUERY_INPUTS then None
      else Some(st.(sql := st.sql + HOLE, params := st.params + [p]))
    case Fragment(name, splice) =>
      if FragmentIndex(fs, Trim(name), 0) < 0 then None else Expand(splice, st, fs)
    case Shard(name, body) =>
      var ss := UseShard(st.shards, Trim(name), Print(body));
      if 1 + Nest(body) > MAX_NEST || ss.None? then None
      else Expand(body, st.(shards := ss.value), fs)
  }

  function Expand(ns: seq<Node>, st: State, fs: seq<FragmentDef>): Option<State>
    decreases ns, 1
  {
    if ns == [] then Some(st) else
      var first := Step(ns[0], st, fs);
      if first.None? then None else Expand(ns[1..], first.value, fs)
  }

  /** The defined fragments have the texts of their trees. */
  ghost predicate Consistent(ns: seq<Node>, fs: seq<FragmentDef>)
    decreases ns
  {
    ns == [] ||
    ((match ns[0]
      case Plain(_) => true
      case Param(_) => true
      case Fragment(name, splice) =>
        var i := FragmentIndex(fs, Trim(name), 0);
        (i >= 0 ==> fs[i].text == Print(splice)) && Consistent(splice, fs)
      case Shard(_, body) => Consistent(body, fs))
     && Consistent(ns[1..], fs))
  }

  /** The number of tags in the fully expanded template. */
  function Weight(ns: seq<Node>): nat
    decreases ns
  {
    if ns == [] then 0 else
      (match ns[0]
       case Plain(_) => 0
       case Param(_) => 1
       case Fragment(_, splice) => 1 + Weight(splice)
       case Shard(_, body) => 1 + Weight(body)) + Weight(ns[1..])
  }

  lemma {:induction false} ExpandConcat(a: seq<Node>, b: seq<Node>, st: State, fs: seq<FragmentDef>)
    ensures Expand(a + b, st, fs) ==
            (if Expand(a, st, fs).None? then None else Expand(b, Expand(a, st, fs).value, fs))
    decreases |a|
  {
    hide Step;
    if a == [] {
      assert a + b == b;
    } else {
      assert (a + b)[1..] == a[1..] + b;
      if Step(a[0], st, fs).Some? {
        ExpandConcat(a[1..], b, Step(a[0], st, fs).value, fs);
      }
    }
  }

  lemma {:induction false} PrintConcat(a: seq<Node>, b: seq<Node>, fs: seq<FragmentDef>)
    ensures Print(a + b) == Print(a) + Print(b)
    ensures Weight(a + b) == Weight(a) + Weight(b)
    ensures Consistent(a, fs) && Consistent(b, fs) ==> Consistent(a + b, fs)
    decreases |a|
  {
    hide PrintNode, Tag, Inner, PlainText, TagInner, ParamText, FragmentIndex;
    if a == [] {
      assert a + b == b;
    } else {
      assert (a + b)[1..] == a[1..] + b;
      PrintConcat(a[1..], b, fs);
    }
  }

  lemma {:induction false} WellConcat(a: seq<Node>, b: seq<Node>, h: string)
    requires WellBefore(a, Head(b, h)) && WellBefore(b, h)
    ensures WellBefore(a + b, h)
    decreases |a|
  {
    hide Print, PlainText, TagInner, ParamText, Inner;
    if a == [] {
      assert a + b == b;
    } else {
      assert (a + b)[1..] == a[1..] + b;
      WellConcat(a[1..], b, h);
      HeadConcat(a[1..], b, h);
    }
  }

  lemma HeadConcat(a: seq<Node>, b: seq<Node>, h: string)
    ensures Head(a + b, h) == Head(a, Head(b, h))
  {
    hide Print;
    PrintConcat(a, b, []);
  }

  // ----- Up to the next tag

  function Lead(ns: seq<Node>): string {
    if ns == [] || !ns[0].Plain? then "" else ns[0].t + Lead(ns[1..])
  }

  function DropLead(ns: seq<Node>): (r: seq<Node>)
    ensures r != [] ==> !r[0].Plain?
  {
    if ns == [] || !ns[0].Plain? then ns else DropLead(ns[1..])
  }

  /** The worklist: the rest of the text is the printed form of well-formed, consistent nodes. */
  ghost predicate Todo(s: string, k: nat, ns: seq<Node>, fs: seq<FragmentDef>) {
    PrintedAt(s, k, ns, |s|) && Consistent(ns, fs)
  }

  lemma {:induction false} LeadScan(s: string, k: nat, ns: seq<Node>, fs: seq<FragmentDef>)
    requires Todo(s, k, ns, fs)
    ensures Todo(s, k + |Lead(ns)|, DropLead(ns), fs) && At(s, k, Lead(ns))
    ensures forall j :: k <= j < k + |Lead(ns)| ==> !At(s, j, OPEN) && !At(s, j, CLOSE)
    ensures Weight(DropLead(ns)) == Weight(ns)
    decreases |ns|
  {
    hide PrintNode, WellBefore, FragmentIndex, Begins, Ends;
    if ns != [] && ns[0].Plain? {
      PrintedText(s, k, ns, |s|);
      LeadScan(s, k + |ns[0].t|, ns[1..], fs);
      AtSplit(s, k, ns[0].t, Lead(ns[1..]));
    }
  }

  lemma {:induction false} LeadExpand(ns: seq<Node>, st: State, fs: seq<FragmentDef>)
    ensures Expand(ns, st, fs) == Expand(DropLead(ns), State(st.sql + Lead(ns), st.params, st.shards), fs)
    decreases |ns|
  {
    hide FragmentIndex, UseShard, Print, Nest, Trim;
    if ns != [] && ns[0].Plain? {
      var st1 := State(st.sql + ns[0].t, st.params, st.shards);
      assert Step(ns[0], st, fs) == Some(st1);
      LeadExpand(ns[1..], st1, fs);
      assert st1.sql + Lead(ns[1..]) == st.sql + Lead(ns);
      assert Expand(ns, st, fs) == Expand(ns[1..], st1, fs);
    } else {
      assert st.sql + Lead(ns) == st.sql;
      assert State(st.sql + Lead(ns), st.params, st.shards) == st;
    }
  }

  /** The next tag of the worklist: where it begins, where it closes, and what is in it. */
  lemma NextTag(s: string, k: nat, ns: seq<Node>, fs: seq<FragmentDef>)
    requires Todo(s, k, ns, fs)
    ensures var b, rest := k + |Lead(ns)|, DropLead(ns);
            if rest == [] then Scan(s, OPEN, k) == -1 && Scan(s, CLOSE, k) == -1 && b == |s| else
              && Scan(s, OPEN, k) == b && At(s, b, Tag(rest[0])) && Todo(s, b, rest, fs)
              && Scan(s, CLOSE, b + 2) == b + 2 + |Inner(rest[0])| && b + |Tag(rest[0])| <= |s|
              && At(s, b + 2, Inner(rest[0]))
  {
    hide Scan, Begins, Ends, Free, PrintNode, WellBefore, FragmentIndex;
    LeadScan(s, k, ns, fs);
    var b, rest := k + |Lead(ns)|, DropLead(ns);
    if rest == [] {
      assert b == |s|;
      AtPair(s, b);
      NoneFrom(s, k);
    } else {
      FirstTagAt(s, b, rest);
      TagCloses(s, b, Inner(rest[0]));
      FoundAt(s, k, b);
    }
  }

  lemma FirstTagAt(s: string, b: nat, ns: seq<Node>)
    requires PrintedAt(s, b, ns, |s|) && ns != [] && !ns[0].Plain?
    ensures At(s, b, Tag(ns[0])) && TagInner(Inner(ns[0])) && b + |Tag(ns[0])| <= |s|
  {
    hide WellBefore, Print, At, Tag;
    PrintFirst(ns, "");
    AtSplit(s, b, Tag(ns[0]), Print(ns[1..]));
    if ns[0].Shard? { AtSplit(s, b, Tag(ns[0]), Print(ns[0].body) + (END + Print(ns[1..]))); }
    AtFits(s, b, Tag(ns[0]));
  }

  lemma NoneFrom(s: string, k: nat)
    requires k <= |s| && forall j :: k <= j < |s| ==> !At(s, j, OPEN) && !At(s, j, CLOSE)
    ensures Scan(s, OPEN, k) == -1 && Scan(s, CLOSE, k) == -1
  {
    hide Scan;
    AtPair(s, |s|);
  }

  lemma FoundAt(s: string, k: nat, b: nat)
    requires k <= b <= |s| && At(s, b, OPEN) && forall j :: k <= j < b ==> !At(s, j, OPEN)
    ensures Scan(s, OPEN, k) == b
  {
    hide Scan, At;
    var r := Scan(s, OPEN, k);
    assert r >= 0 ==> At(s, r, OPEN);
  }

  // ----- One round of the worklist

  /** Replacing what is before the rest of the worklist. */
  lemma Respliced(s: string, b: nat, x: string, q: nat, rest: seq<Node>, more: seq<Node>, fs: seq<FragmentDef>)
    requires b <= |s| && Todo(s, q, rest, fs) && Consistent(more, fs) && x == Print(more)
    requires WellBefore(more, Head(rest, ""))
    ensures var s' := s[..b] + x + s[q..];
            Todo(s', b, more + rest, fs) && s'[..b] == s[..b]
  {
    hide Print, WellBefore, Consistent, Weight, Head;
    PrintConcat(more, rest, fs);
    WellConcat(more, rest, "");
    var s' := s[..b] + x + s[q..];
    assert s[q..] == Print(rest);
    assert s' == s[..b] + Print(more + rest);
    Headed(s', b, more + rest);
  }

  lemma Headed(s: string, b: nat, ns: seq<Node>)
    requires b <= |s| && s[b..] == Print(ns) && WellFormed(ns)
    ensures PrintedAt(s, b, ns, |s|)
  {
    hide Print, WellBefore;
    assert s[b..b + |Print(ns)|] == s[b..];
  }

  /** After a shard: both its tags are cut out, and scanning starts at the beginning of its body. */
  lemma ShardRound(s: string, b: nat, ns: seq<Node>, fs: seq<FragmentDef>)
    requires Todo(s, b, ns, fs) && ns != [] && ns[0].Shard?
    ensures b + |Tag(ns[0])| + |Print(ns[0].body)| + 13 <= |s|
    ensures var q := b + |Tag(ns[0])|;
            var e := q + |Print(ns[0].body)|;
            var s' := s[..b] + s[q..e] + s[e + 13..];
            && Begins(s, b) && s[q..e] == Print(ns[0].body)
            && MatchFrom(s, q, 1) == (if 1 + Nest(ns[0].body) <= MAX_NEST then e else -1)
            && Todo(s', b, ns[0].body + ns[1..], fs) && s'[..b] == s[..b]
  {
    hide WellBefore, Begins, Ends, Free, FragmentIndex, Print, MatchFrom;
    var q, e := PrintedShard(s, b, ns, |s|);
    MatchOver(s, q, ns[0].body, e, 1);
    EndMatches(s, e);
    PrintFirst(ns, "");
    PrintConcat(ns[0].body, ns[1..], fs);
    Respliced(s, b, Print(ns[0].body), e + 13, ns[1..], ns[0].body, fs);
  }

  lemma EndMatches(s: string, e: nat)
    requires Ends(s, e) && e <= |s|
    ensures e + 13 <= |s| && MatchFrom(s, e, 1) == e
  {
    OneTag(s, e);
    EndsAt(s, e);
  }

  /** The expansion of a template that starts with a tag, as the worklist goes about it. */
  function Onward(ns: seq<Node>, st: State, fs: seq<FragmentDef>): Option<State>
    requires ns != []
  {
    match ns[0]
    case Plain(_) => Expand(ns, st, fs)
    case Param(p) =>
      if |st.params| + 1 >= MAX_QUERY_INPUTS then None
      else Expand(ns[1..], State(st.sql + HOLE, st.params + [p], st.shards), fs)
    case Fragment(name, splice) =>
      if FragmentIndex(fs, Trim(name), 0) < 0 then None else Expand(splice + ns[1..], st, fs)
    case Shard(name, body) =>
      var ss := UseShard(st.shards, Trim(name), Print(body));
      if 1 + Nest(body) > MAX_NEST || ss.None? then None
      else Expand(body + ns[1..], State(st.sql, st.params, ss.value), fs)
  }

  /** Putting the content of a tag in front of what follows changes nothing, and leaves one tag less. */
  lemma ExpandFirst(ns: seq<Node>, st: State, fs: seq<FragmentDef>)
    requires ns != [] && !ns[0].Plain?
    ensures Expand(ns, st, fs) == Onward(ns, st, fs)
    ensures ns[0].Param? ==> Weight(ns) == 1 + Weight(ns[1..])
    ensures ns[0].Fragment? ==> Weight(ns) == 1 + Weight(ns[0].splice + ns[1..])
    ensures ns[0].Shard? ==> Weight(ns) == 1 + Weight(ns[0].body + ns[1..])
  {
    hide FragmentIndex, UseShard, Trim, Print, Nest;
    if ns[0].Fragment? {
      PrintConcat(ns[0].splice, ns[1..], fs);
      ExpandConcat(ns[0].splice, ns[1..], st, fs);
    } else if ns[0].Shard? {
      PrintConcat(ns[0].body, ns[1..], fs);
      var ss := UseShard(st.shards, Trim(ns[0].sname), Print(ns[0].body));
      if ss.Some? {
        ExpandConcat(ns[0].body, ns[1..], State(st.sql, st.params, ss.value), fs);
      }
    }
  }

  lemma StartWork(tree: seq<Node>, fs: seq<FragmentDef>)
    requires WellFormed(tree) && Consistent(tree, fs)
    ensures var s := Print(tree); Todo(s, 0, tree, fs) && s[..0] == "" && IndexOf(s, OPEN) == Scan(s, OPEN, 0)
  {
    hide WellBefore, Print, Scan;
    assert Print(tree)[0..] == Print(tree);
    Headed(Print(tree), 0, tree);
  }

  lemma TagFound(s: string, b: nat, rest: seq<Node>, fs: seq<FragmentDef>)
    requires Todo(s, b, rest, fs) && rest != [] && !rest[0].Plain?
    ensures At(s, b, BEGIN) <==> rest[0].Shard?
    ensures Inner(rest[0]) != "" && (rest[0].Fragment? <==> !rest[0].Shard? && FRAGMENT <= Inner(rest[0]))
  {
    hide Scan, Print, WellBefore, Consistent, Weight;
    TagParts(rest[0]);
    FirstTagAt(s, b, rest);
    PrintFirst(rest, "");
    if rest[0].Shard? { ShardTag(s, b, rest[0]); } else { OtherTag(s, b, rest[0]); }
  }

  lemma NothingLeft(st: State, fs: seq<FragmentDef>)
    ensures Expand([], st, fs) == Some(st)
  {
  }

  /** The names in tags, and what tells parameters from fragment references. */
  lemma TagParts(n: Node)
    requires !n.Plain?
    ensures n.Shard? ==> |Inner(n)| >= 6 && Inner(n)[6..] == n.sname
    ensures n.Fragment? ==> FRAGMENT <= Inner(n) && Inner(n)[|FRAGMENT|..] == n.name
    ensures n.Param? ==> Inner(n) == n.p
  {
  }

  // ----- The compiled query

  function DeEscaped(params: seq<string>): seq<string> {
    if params == [] then [] else DeEscaped(params[..|params| - 1]) + [ReplaceAll(params[|params| - 1], "\\\"", "\"")]
  }

  /** The checks after expansion. */
  function Finish(compact: bool, st: State): Option<Query> {
    var totInp := Count(st.sql, "%s");
    if compact && totInp != |st.params| then None
    else if totInp >= MAX_QUERY_INPUTS then None
    else if st.sql != "" && st.sql[|st.sql| - 1] == ';' then None
    else Some(Query(st.sql, DeEscaped(st.params)))
  }

  function Compiled(ns: seq<Node>, ss: seq<ShardDef>, fs: seq<FragmentDef>): Option<Query> {
    var st := Expand(ns, State("", [], ss), fs);
    if st.None? then None else Finish(IndexOf(Print(ns), OPEN) >= 0, st.value)
  }
}
