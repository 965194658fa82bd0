/** Which texts are templates (cld.c): the exact condition, on the text, and two texts that new_query accepts although
    they are none. */
module QueryProper {
  import opened Wrappers
  import opened CStrings
  import opened ShardMatch
  import opened QueryTree
  import opened QueryExpand
  import opened QueryText
  import opened QueryTemplates
  import opened QueryMeaning

  // ----- The condition

  /** The text of a shard that ends at `x`, and what follows it. */
  function Body(u: string, e: nat, x: nat): (v: string)
    requires e + 2 <= x && x + |END| <= |u|
    ensures |v| < |u|
  {
    u[e + 2..x]
  }

  function Tail(u: string, x: nat): (v: string)
    requires x + |END| <= |u|
    ensures |v| < |u|
  {
    u[x + |END|..]
  }

  /** In front of text that begins with `h`: every tag is closed and holds no other, no closing stands alone, every shard
      ends where its body is a template of its own, no tag is empty or a stray shard end, no half of a tag meets its other
      half where tags are taken out, and so it is in every fragment that is referred to, each of lower rank. */
  predicate Proper(u: string, h: string, fs: seq<FragmentDef>, rank: seq<nat>, bound: nat)
    requires |rank| == |fs|
    decreases bound, |u|
  {
    match FindTag(u)
    case Broken => false
    case NoTag => Fits(u, h)
    case Tagged(b, e) =>
      var inner := u[b + 2..e];
      && IndexOf(u[..b], CLOSE) < 0 && IndexOf(inner, OPEN) < 0
      && if At(u, b, BEGIN) then
           var x := MatchFrom(u, e + 2, 1);
           && x >= 0
           && Proper(Body(u, e, x), First(Tail(u, x), h), fs, rank, bound) && Proper(Tail(u, x), h, fs, rank, bound)
         else
           var v, i := BehindTag(u, e), Reference(u, fs);
           && inner != "" && inner != STRAY
           && (i >= 0 ==> rank[i] < bound && Proper(fs[i].text, First(v, h), fs, rank, rank[i]))
           && Proper(v, h, fs, rank, bound)
  }

  function TreeOf(u: string, h: string, fs: seq<FragmentDef>, rank: seq<nat>, bound: nat): seq<Node>
    requires |rank| == |fs| && Proper(u, h, fs, rank, bound)
    decreases bound, |u|
  {
    hide At, IndexOf, MatchFrom, FragmentIndex, Trim, Scan, FindTag, Reference, Fits;
    match FindTag(u)
    case NoTag => [Plain(u)]
    case Tagged(b, e) =>
      if At(u, b, BEGIN) then
        var x := MatchFrom(u, e + 2, 1);
        [Plain(u[..b]), Shard(u[b + 8..e], TreeOf(Body(u, e, x), First(Tail(u, x), h), fs, rank, bound))]
        + TreeOf(Tail(u, x), h, fs, rank, bound)
      else
        var inner, v, i := u[b + 2..e], BehindTag(u, e), Reference(u, fs);
        var n :=
          if !(FRAGMENT <= inner) then Param(inner)
          else Fragment(inner[|FRAGMENT|..], if i < 0 then [] else TreeOf(fs[i].text, First(v, h), fs, rank, rank[i]));
        [Plain(u[..b]), n] + TreeOf(v, h, fs, rank, bound)
  }

  /** No shard is nested too deep, in the defined fragments neither. */
  predicate Shallow(ns: seq<Node>, fs: seq<FragmentDef>) {
    ns == [] ||
    ((match ns[0]
      case Fragment(name, splice) => FragmentIndex(fs, Trim(name), 0) >= 0 ==> Shallow(splice, fs)
      case Shard(_, body) => 1 + Nest(body) <= MAX_NEST && Shallow(body, fs)
      case _ => true)
     && Shallow(ns[1..], fs))
  }

  /** A template in front of `h`, with fragments of lower rank that are templates where they stand. */
  ghost predicate Template(ns: seq<Node>, h: string, fs: seq<FragmentDef>, rank: seq<nat>, bound: nat)
    requires |rank| == |fs|
  {
    WellBefore(ns, h) && Consistent(ns, fs) && Ranked(ns, fs, rank, bound) && Shallow(ns, fs)
  }

  // ----- From texts to trees

  lemma FoundParts(u: string)
    requires FindTag(u).Tagged?
    ensures var b, e := FindTag(u).b, FindTag(u).e;
            && At(u, b, OPEN) && At(u, e, CLOSE)
            && (forall k :: 0 <= k < b ==> !At(u, k, OPEN)) && (forall k :: b + 2 <= k < e ==> !At(u, k, CLOSE))
  {
    hide At;
  }

  lemma AtPart(u: string, i: nat, j: nat, k: int, p: string)
    requires i <= j <= |u| && At(u[i..j], k, p)
    ensures At(u, i + k, p) && 0 <= k && i + k + |p| <= j
  {
    assert u == u[..i] + (u[i..j] + u[j..]);
    AtLeft(u[i..j], u[j..], k, p);
    AtRight(u[..i], u[i..j] + u[j..], k, p);
  }

  lemma LeadIsPlain(u: string)
    requires FindTag(u).Tagged? && IndexOf(u[..FindTag(u).b], CLOSE) < 0
    ensures PlainText(u[..FindTag(u).b])
  {
    hide At, FindTag, IndexOf;
    FoundParts(u);
    var b := FindTag(u).b;
    forall k | 0 <= k <= b ensures !At(u[..b], k, OPEN) {
      if At(u[..b], k, OPEN) { AtPart(u, 0, b, k, OPEN); }
    }
  }

  lemma InnerIsInner(u: string)
    requires FindTag(u).Tagged? && IndexOf(u[FindTag(u).b + 2..FindTag(u).e], OPEN) < 0
    ensures TagInner(u[FindTag(u).b + 2..FindTag(u).e])
  {
    hide At, FindTag, IndexOf;
    FoundParts(u);
    var b, e := FindTag(u).b, FindTag(u).e;
    var inner := u[b + 2..e];
    forall k | 0 <= k <= |inner| ensures !At(inner, k, CLOSE) {
      if At(inner, k, CLOSE) {
        AtPart(u, b + 2, e, k, CLOSE);
        assert false;
      }
    }
  }

  /** The tag, cut out of its text. */
  lemma TagText(u: string)
    requires FindTag(u).Tagged?
    ensures var b, e := FindTag(u).b, FindTag(u).e;
            && u == u[..b] + ((OPEN + (u[b + 2..e] + CLOSE)) + BehindTag(u, e))
            && (At(u, b, BEGIN) ==> u[b + 2..e] == SHARD + u[b + 8..e])
            && (SHARD <= u[b + 2..e] ==> At(u, b, BEGIN))
  {
    hide FindTag;
    FoundParts(u);
    var b, e := FindTag(u).b, FindTag(u).e;
    assert u[b..b + 2] == OPEN && u[e..e + 2] == CLOSE;
    if At(u, b, BEGIN) {
      assert u[b..b + 8] == BEGIN;
      assert u[b + 2..b + 8] == SHARD;
    }
    if SHARD <= u[b + 2..e] {
      assert u[b + 2..b + 8] == SHARD;
      assert u[b..b + 8] == BEGIN;
    }
  }

  lemma ShardText(u: string, q: nat, x: nat)
    requires q <= |u| && MatchFrom(u, q, 1) == x
    ensures q <= x && x + 13 <= |u| && u[q..] == u[q..x] + (END + u[x + 13..]) && At(u, x, END)
  {
    hide MatchFrom;
    MatchIffFirstReturn(u, q, x);
    assert u[x..x + 13] == END;
  }

  lemma NodeOf(u: string, h: string, fs: seq<FragmentDef>, rank: seq<nat>, bound: nat)
    requires |rank| == |fs| && Proper(u, h, fs, rank, bound) && FindTag(u).Tagged? && !At(u, FindTag(u).b, BEGIN)
    ensures var b, e := FindTag(u).b, FindTag(u).e;
            var x, inner, v, i := TreeOf(u, h, fs, rank, bound), u[b + 2..e], BehindTag(u, e), Reference(u, fs);
            && |x| >= 2 && x[0] == Plain(u[..b]) && x[2..] == TreeOf(v, h, fs, rank, bound)
            && Inner(x[1]) == inner && Tag(x[1]) == OPEN + (inner + CLOSE) && !x[1].Plain? && !x[1].Shard?
            && inner != "" && inner != STRAY
            && (x[1].Param? ==> !(FRAGMENT <= inner))
            && (x[1].Fragment? ==>
                  && i == FragmentIndex(fs, Trim(x[1].name), 0)
                  && x[1].splice == if i < 0 then [] else TreeOf(fs[i].text, First(v, h), fs, rank, rank[i]))
  {
    hide FindTag, At, IndexOf, MatchFrom, FragmentIndex, Trim, BehindTag;
  }

  lemma ShardOf(u: string, h: string, fs: seq<FragmentDef>, rank: seq<nat>, bound: nat, b: nat, e: nat, x: nat)
    requires |rank| == |fs| && Proper(u, h, fs, rank, bound)
    requires FindTag(u) == Tagged(b, e) && At(u, b, BEGIN) && MatchFrom(u, e + 2, 1) == x
    requires b + 8 <= e && e + 2 <= x && x + |END| <= |u|
    ensures Proper(Tail(u, x), h, fs, rank, bound) && Proper(Body(u, e, x), First(Tail(u, x), h), fs, rank, bound)
    ensures TreeOf(u, h, fs, rank, bound) ==
            [Plain(u[..b]), Shard(u[b + 8..e], TreeOf(Body(u, e, x), First(Tail(u, x), h), fs, rank, bound))]
            + TreeOf(Tail(u, x), h, fs, rank, bound)
  {
    hide FindTag, At, IndexOf, MatchFrom;
  }

  /** Two nodes in front of others. */
  lemma TwoFirst(ns: seq<Node>, h: string, fs: seq<FragmentDef>, rank: seq<nat>, bound: nat)
    requires |rank| == |fs| && |ns| >= 2 && ns[0].Plain? && !ns[1].Plain? && PlainText(ns[0].t)
    requires Template(ns[1..], h, fs, rank, bound)
    ensures Template(ns, h, fs, rank, bound) && Print(ns) == ns[0].t + (PrintNode(ns[1]) + Print(ns[2..]))
  {
    hide PlainText;
    assert ns[1..][1..] == ns[2..] && ns[1..][0] == ns[1];
    assert Print(ns[1..]) == PrintNode(ns[1]) + Print(ns[2..]);
    TagAhead(ns[1..], h);
  }

  lemma TagAhead(ns: seq<Node>, h: string)
    requires ns != [] && !ns[0].Plain?
    ensures Head(ns, h) == "<"
  {
    hide Inner;
    assert PrintNode(ns[0])[0] == '<';
  }

  /** A proper text is the print of its tree. */
  lemma {:induction false} TreeOfIs(u: string, h: string, fs: seq<FragmentDef>, rank: seq<nat>, bound: nat)
    requires |rank| == |fs| && Proper(u, h, fs, rank, bound)
    ensures var ns := TreeOf(u, h, fs, rank, bound); Print(ns) == u && Template(ns, h, fs, rank, bound)
    decreases bound, |u|
  {
    hide FindTag, At, IndexOf, MatchFrom, TreeOf, Print, Template, Reference;
    match FindTag(u)
    case NoTag => PlainTree(u, h, fs, rank, bound);
    case Tagged(b, e) =>
      if At(u, b, BEGIN) {
        var x := MatchFrom(u, e + 2, 1);
        TreeOfIs(Body(u, e, x), First(Tail(u, x), h), fs, rank, bound);
        TreeOfIs(Tail(u, x), h, fs, rank, bound);
        ShardTree(u, h, fs, rank, bound, b, e, x);
      } else {
        var v, i := BehindTag(u, e), Reference(u, fs);
        if i >= 0 { TreeOfIs(fs[i].text, First(v, h), fs, rank, rank[i]); }
        TreeOfIs(v, h, fs, rank, bound);
        TagTree(u, h, fs, rank, bound);
      }
  }

  lemma EmptyTemplate(h: string, fs: seq<FragmentDef>, rank: seq<nat>, bound: nat)
    requires |rank| == |fs|
    ensures Template([], h, fs, rank, bound) && Print([]) == ""
  {
  }

  lemma PlainTree(u: string, h: string, fs: seq<FragmentDef>, rank: seq<nat>, bound: nat)
    requires |rank| == |fs| && Proper(u, h, fs, rank, bound) && FindTag(u) == NoTag
    ensures var ns := TreeOf(u, h, fs, rank, bound); Print(ns) == u && Template(ns, h, fs, rank, bound)
  {
    hide At;
    assert [Plain(u)][1..] == [];
    EmptyTemplate(h, fs, rank, bound);
  }

  lemma TagTree(u: string, h: string, fs: seq<FragmentDef>, rank: seq<nat>, bound: nat)
    requires |rank| == |fs| && Proper(u, h, fs, rank, bound) && FindTag(u).Tagged? && !At(u, FindTag(u).b, BEGIN)
    requires var v, i := BehindTag(u, FindTag(u).e), Reference(u, fs);
             && Proper(v, h, fs, rank, bound)
             && Print(TreeOf(v, h, fs, rank, bound)) == v && Template(TreeOf(v, h, fs, rank, bound), h, fs, rank, bound)
             && (i >= 0 ==>
                   && rank[i] < bound && Proper(fs[i].text, First(v, h), fs, rank, rank[i])
                   && Print(TreeOf(fs[i].text, First(v, h), fs, rank, rank[i])) == fs[i].text
                   && Template(TreeOf(fs[i].text, First(v, h), fs, rank, rank[i]), First(v, h), fs, rank, rank[i]))
    ensures var ns := TreeOf(u, h, fs, rank, bound); Print(ns) == u && Template(ns, h, fs, rank, bound)
  {
    hide FindTag, At, IndexOf, MatchFrom, TreeOf, PlainText, TagInner, Print, Tag, Template, BehindTag, Reference,
         FragmentIndex, Trim;
    NodeOf(u, h, fs, rank, bound);
    LeadIsPlain(u);
    InnerIsInner(u);
    TagText(u);
    var ns := TreeOf(u, h, fs, rank, bound);
    assert ns[1..][0] == ns[1] && ns[1..][1..] == ns[2..];
    NodeWell(ns[1..], h, fs, rank, bound);
    TwoFirst(ns, h, fs, rank, bound);
  }

  /** A parameter or a fragment reference in front of others. */
  lemma NodeWell(ns: seq<Node>, h: string, fs: seq<FragmentDef>, rank: seq<nat>, bound: nat)
    requires |rank| == |fs| && ns != [] && (ns[0].Fragment? || ns[0].Param?) && Template(ns[1..], h, fs, rank, bound)
    requires TagInner(Inner(ns[0])) && (ns[0].Param? ==> ParamText(ns[0].p))
    requires ns[0].Fragment? ==>
               var i := FragmentIndex(fs, Trim(ns[0].name), 0);
               if i < 0 then ns[0].splice == []
               else
                 && rank[i] < bound && Print(ns[0].splice) == fs[i].text
                 && Template(ns[0].splice, Head(ns[1..], h), fs, rank, rank[i])
    ensures Template(ns, h, fs, rank, bound) && PrintNode(ns[0]) == Tag(ns[0])
  {
    hide Print, Head, Tag, TagInner, ParamText, FragmentIndex, Trim;
    EmptyTemplate(Head(ns[1..], h), fs, rank, bound);
  }

  lemma ShardTree(u: string, h: string, fs: seq<FragmentDef>, rank: seq<nat>, bound: nat, b: nat, e: nat, x: nat)
    requires |rank| == |fs| && Proper(u, h, fs, rank, bound)
    requires FindTag(u) == Tagged(b, e) && At(u, b, BEGIN) && MatchFrom(u, e + 2, 1) == x
    requires b + 8 <= e && e + 2 <= x && x + |END| <= |u|
    requires Proper(Tail(u, x), h, fs, rank, bound) && Proper(Body(u, e, x), First(Tail(u, x), h), fs, rank, bound)
    requires var g := First(Tail(u, x), h);
             var body, more := TreeOf(Body(u, e, x), g, fs, rank, bound), TreeOf(Tail(u, x), h, fs, rank, bound);
             && Print(body) == Body(u, e, x) && Template(body, g, fs, rank, bound)
             && Print(more) == Tail(u, x) && Template(more, h, fs, rank, bound)
    ensures var ns := TreeOf(u, h, fs, rank, bound); Print(ns) == u && Template(ns, h, fs, rank, bound)
  {
    hide FindTag, At, IndexOf, MatchFrom, TreeOf, PlainText, TagInner, Print, Tag, Nest, Template, Reference, Head, Proper;
    ShardOf(u, h, fs, rank, bound, b, e, x);
    ProperLead(u, h, fs, rank, bound);
    LeadIsPlain(u);
    InnerIsInner(u);
    TagText(u);
    ShardText(u, e + 2, x);
    var ns := TreeOf(u, h, fs, rank, bound);
    assert ns[1..][0] == ns[1] && ns[1..][1..] == ns[2..] == TreeOf(Tail(u, x), h, fs, rank, bound);
    BodyNests(u, e + 2, ns[1].body, x, First(Tail(u, x), h), fs, rank, bound);
    assert Head(ns[2..], h) == First(Print(ns[2..]), h) by { HeadFirst(ns[2..], h); }
    ShardWell(ns[1..], h, fs, rank, bound);
    TwoFirst(ns, h, fs, rank, bound);
    TagSize(ns[1]);
    ShardAssoc(Tag(ns[1]), Body(u, e, x), Tail(u, x));
  }

  lemma ProperLead(u: string, h: string, fs: seq<FragmentDef>, rank: seq<nat>, bound: nat)
    requires |rank| == |fs| && Proper(u, h, fs, rank, bound) && FindTag(u).Tagged?
    ensures IndexOf(u[..FindTag(u).b], CLOSE) < 0 && IndexOf(u[FindTag(u).b + 2..FindTag(u).e], OPEN) < 0
  {
    hide FindTag, At, IndexOf, MatchFrom, Reference;
  }

  /** The body of a shard that is matched is not nested too deep. */
  lemma BodyNests(u: string, q: nat, body: seq<Node>, x: nat, g: string, fs: seq<FragmentDef>, rank: seq<nat>, bound: nat)
    requires |rank| == |fs| && Template(body, g, fs, rank, bound)
    requires q <= x && x + 13 <= |u| && u[q..x] == Print(body) && At(u, x, END) && MatchFrom(u, q, 1) == x
    ensures 1 + Nest(body) <= MAX_NEST
  {
    hide MatchFrom, Print, WellBefore, Nest, Consistent, Ranked, Shallow;
    AtChar(u, x, END, 0);
    BeforeOther(body, g, "<");
    assert HeadAt(u, x) == "<";
    MatchOver(u, q, body, x, 1);
  }

  lemma ShardWell(ns: seq<Node>, h: string, fs: seq<FragmentDef>, rank: seq<nat>, bound: nat)
    requires |rank| == |fs| && ns != [] && ns[0].Shard? && Template(ns[1..], h, fs, rank, bound)
    requires TagInner(Inner(ns[0])) && 1 + Nest(ns[0].body) <= MAX_NEST
    requires Template(ns[0].body, Head(ns[1..], h), fs, rank, bound)
    ensures Template(ns, h, fs, rank, bound) && PrintNode(ns[0]) == Tag(ns[0]) + (Print(ns[0].body) + END)
  {
    hide Nest, Print, Tag, Head, FragmentIndex, Trim, TagInner;
  }

  lemma HeadFirst(ns: seq<Node>, h: string)
    ensures Head(ns, h) == First(Print(ns), h)
  {
  }

  lemma ShardAssoc(tag: string, body: string, more: string)
    ensures (tag + (body + END)) + more == tag + (body + (END + more))
  {
  }

  // ----- From trees to texts

  lemma {:induction false} LeadParts(ns: seq<Node>, h: string, fs: seq<FragmentDef>, rank: seq<nat>, bound: nat)
    requires |rank| == |fs| && Template(ns, h, fs, rank, bound)
    ensures Template(DropLead(ns), h, fs, rank, bound)
    ensures DropLead(ns) == [] ==> Fits(Print(ns), h)
  {
    hide PlainText, TagInner, ParamText, Nest, FragmentIndex, Trim;
    if ns != [] && ns[0].Plain? {
      LeadParts(ns[1..], h, fs, rank, bound);
    }
  }

  lemma LeadNoClose(ns: seq<Node>, fs: seq<FragmentDef>)
    requires WellFormed(ns) && Consistent(ns, fs) && |Lead(ns)| <= |Print(ns)|
    ensures IndexOf(Print(ns)[..|Lead(ns)|], CLOSE) < 0
  {
    hide Print, WellBefore, Consistent, At, IndexOf, Todo, Weight;
    StartWork(ns, fs);
    LeadScan(Print(ns), 0, ns, fs);
    var s, b := Print(ns), |Lead(ns)|;
    var i := IndexOf(s[..b], CLOSE);
    if i >= 0 {
      AtPart(s, 0, b, i, CLOSE);
    }
  }

  lemma NodeInner(ns: seq<Node>, h: string, fs: seq<FragmentDef>, rank: seq<nat>, bound: nat)
    requires |rank| == |fs| && ns != [] && !ns[0].Plain? && Template(ns, h, fs, rank, bound)
    ensures IndexOf(Inner(ns[0]), OPEN) < 0
    ensures !ns[0].Shard? ==> Inner(ns[0]) != STRAY
    ensures Template(ns[1..], h, fs, rank, bound) && Weight(ns[1..]) < Weight(ns)
    ensures ns[0].Shard? ==>
              && Template(ns[0].body, Head(ns[1..], h), fs, rank, bound) && Weight(ns[0].body) < Weight(ns)
              && 1 + Nest(ns[0].body) <= MAX_NEST
    ensures ns[0].Fragment? && FragmentIndex(fs, Trim(ns[0].name), 0) >= 0 ==>
              var i := FragmentIndex(fs, Trim(ns[0].name), 0);
              && rank[i] < bound && fs[i].text == Print(ns[0].splice) && Weight(ns[0].splice) < Weight(ns)
              && Template(ns[0].splice, Head(ns[1..], h), fs, rank, rank[i])
  {
    hide Print, At, Nest, Head, FragmentIndex, Trim;
    PrintFirst(ns, h);
    if ns[0].Fragment? { assert Inner(ns[0])[0] == 'q'; }
  }

  /** What follows a shard. */
  lemma ShardTail(s: string, b: nat, ns: seq<Node>, fs: seq<FragmentDef>)
    requires Todo(s, b, ns, fs) && ns != [] && ns[0].Shard?
    ensures var e := b + 4 + |Inner(ns[0])| + |Print(ns[0].body)|;
            e + 13 <= |s| && s[e + 13..] == Print(ns[1..])
  {
    hide Print, At, WellBefore, Consistent, Begins, Ends, Inner, Tag;
    var q, e := PrintedShard(s, b, ns, |s|);
    TagSize(ns[0]);
    AtSlice(s, e + |END|, Print(ns[1..]));
  }

  /** The print of a well-formed template is a proper text. */
  lemma {:induction false} TreeIsProper(ns: seq<Node>, h: string, fs: seq<FragmentDef>, rank: seq<nat>, bound: nat)
    requires |rank| == |fs| && Template(ns, h, fs, rank, bound)
    ensures Proper(Print(ns), h, fs, rank, bound)
    decreases Weight(ns)
  {
    hide Print, WellBefore, Shallow, Consistent, Ranked, Proper, FindTag, At, IndexOf, MatchFrom, Todo, Weight, Nest, Head,
         FragmentIndex, Trim;
    BeforeOther(ns, h, "");
    TagOfTree(ns, fs);
    LeadParts(ns, h, fs, rank, bound);
    WeightLead(ns, fs);
    var s, b, rest := Print(ns), |Lead(ns)|, DropLead(ns);
    if rest == [] {
      ProperPlain(s, h, fs, rank, bound);
    } else {
      LeadNoClose(ns, fs);
      NodeInner(rest, h, fs, rank, bound);
      HeadFirst(rest[1..], h);
      TreeIsProper(rest[1..], h, fs, rank, bound);
      if rest[0].Shard? {
        AfterShard(s, b, rest, fs);
        ShardTail(s, b, rest, fs);
        TreeIsProper(rest[0].body, Head(rest[1..], h), fs, rank, bound);
        ProperShard(s, h, fs, rank, bound);
      } else {
        AfterTag(s, b, rest, fs);
        ReferenceOf(s, b, rest[0], fs);
        if Reference(s, fs) >= 0 { TreeIsProper(rest[0].splice, Head(rest[1..], h), fs, rank, rank[Reference(s, fs)]); }
        ProperTag(s, h, fs, rank, bound);
      }
    }
  }

  lemma ReferenceOf(s: string, b: nat, n: Node, fs: seq<FragmentDef>)
    requires n.Param? || n.Fragment?
    requires FindTag(s) == Tagged(b, b + 2 + |Inner(n)|) && s[b + 2..b + 2 + |Inner(n)|] == Inner(n) && !At(s, b, BEGIN)
    requires n.Param? ==> !(FRAGMENT <= n.p)
    ensures Reference(s, fs) == if n.Param? then -1 else FragmentIndex(fs, Trim(n.name), 0)
  {
    hide FindTag, At, FragmentIndex, Trim;
    TagParts(n);
  }

  lemma ProperPlain(u: string, h: string, fs: seq<FragmentDef>, rank: seq<nat>, bound: nat)
    requires |rank| == |fs| && FindTag(u) == NoTag && Fits(u, h)
    ensures Proper(u, h, fs, rank, bound)
  {
  }

  lemma ProperTag(u: string, h: string, fs: seq<FragmentDef>, rank: seq<nat>, bound: nat)
    requires |rank| == |fs| && FindTag(u).Tagged? && !At(u, FindTag(u).b, BEGIN)
    requires var b, e, i := FindTag(u).b, FindTag(u).e, Reference(u, fs);
             var inner := u[b + 2..e];
             && IndexOf(u[..b], CLOSE) < 0 && IndexOf(inner, OPEN) < 0 && inner != "" && inner != STRAY
             && (i >= 0 ==> rank[i] < bound && Proper(fs[i].text, First(u[e + 2..], h), fs, rank, rank[i]))
             && Proper(u[e + 2..], h, fs, rank, bound)
    ensures Proper(u, h, fs, rank, bound)
  {
    hide FindTag, At, IndexOf, Reference;
  }

  lemma ProperShard(u: string, h: string, fs: seq<FragmentDef>, rank: seq<nat>, bound: nat)
    requires |rank| == |fs| && FindTag(u).Tagged? && At(u, FindTag(u).b, BEGIN)
    requires var b, e := FindTag(u).b, FindTag(u).e;
             var x := MatchFrom(u, e + 2, 1);
             && IndexOf(u[..b], CLOSE) < 0 && IndexOf(u[b + 2..e], OPEN) < 0 && x >= 0
             && Proper(u[e + 2..x], First(u[x + |END|..], h), fs, rank, bound)
             && Proper(u[x + |END|..], h, fs, rank, bound)
    ensures Proper(u, h, fs, rank, bound)
  {
    hide FindTag, At, IndexOf, MatchFrom;
  }

  // ----- The exact condition

  /** A text has a template with the trees of its fragments exactly when it is proper. */
  lemma ProperIff(u: string, fs: seq<FragmentDef>, rank: seq<nat>)
    requires |rank| == |fs|
    ensures (exists ns: seq<Node> :: Template(ns, "", fs, rank, Top(rank)) && Print(ns) == u) <==>
            Proper(u, "", fs, rank, Top(rank))
  {
    hide Print, Template, Proper, TreeOf;
    if Proper(u, "", fs, rank, Top(rank)) {
      TreeOfIs(u, "", fs, rank, Top(rank));
      var ns := TreeOf(u, "", fs, rank, Top(rank));
      assert Template(ns, "", fs, rank, Top(rank)) && Print(ns) == u;
    }
    forall ns: seq<Node> | Template(ns, "", fs, rank, Top(rank)) && Print(ns) == u
      ensures Proper(u, "", fs, rank, Top(rank))
    {
      TreeIsProper(ns, "", fs, rank, Top(rank));
    }
  }

  lemma {:induction false} WithoutFragments(ns: seq<Node>)
    ensures Consistent(ns, []) && Ranked(ns, [], [], 0)
  {
    if ns != [] {
      WithoutFragments(ns[1..]);
      match ns[0]
      case Fragment(_, splice) => WithoutFragments(splice);
      case Shard(_, body) => WithoutFragments(body);
      case _ =>
    }
  }

  /** The same for the text alone, whatever fragments it refers to. */
  lemma TextIff(u: string)
    ensures (exists ns: seq<Node> :: WellFormed(ns) && Shallow(ns, []) && Print(ns) == u) <==> Proper(u, "", [], [], 0)
  {
    hide Print, WellBefore, Shallow, Consistent, Ranked, Proper;
    ProperIff(u, [], []);
    forall ns: seq<Node> ensures Template(ns, "", [], [], Top([])) <==> WellFormed(ns) && Shallow(ns, []) {
      WithoutFragments(ns);
    }
  }

  /** What is left of a template after its first tag. */
  function After(ns: seq<Node>): seq<Node> {
    if ns == [] then [] else if ns[0].Shard? then ns[0].body + ns[1..] else ns[1..]
  }

  lemma AfterWeight(ns: seq<Node>)
    requires ns != [] && !ns[0].Plain?
    ensures Weight(After(ns)) < Weight(ns)
  {
    if ns[0].Shard? { PrintConcat(ns[0].body, ns[1..], []); }
  }

  lemma LeftOfTag(s: string, b: nat, ns: seq<Node>)
    requires Todo(s, b, ns, []) && ns != [] && !ns[0].Plain? && FindTag(s) == Tagged(b, b + 2 + |Inner(ns[0])|)
    ensures WellFormed(After(ns))
    ensures Left(s).Some? ==> Left(s).value == Print(After(ns)) && (ns[0].Shard? ==> 1 + Nest(ns[0].body) <= MAX_NEST)
  {
    hide At, Print, WellBefore, Consistent, FindTag, Todo, Left, MatchFrom, Nest, Inner;
    if ns[0].Shard? {
      AfterShard(s, b, ns, []);
      LeftShard(s, b, b + 2 + |Inner(ns[0])|);
    } else {
      AfterTag(s, b, ns, []);
      LeftTag(s, b, b + 2 + |Inner(ns[0])|);
    }
  }

  lemma LeftOfTree(ns: seq<Node>)
    requires WellFormed(ns)
    ensures var rest := DropLead(ns);
            if rest == [] then Shallow(ns, [])
            else
              && FindTag(Print(ns)).Tagged? && WellFormed(After(rest)) && Weight(After(rest)) < Weight(ns)
              && (Left(Print(ns)).Some? ==>
                    Left(Print(ns)).value == Print(After(rest)) && (Shallow(After(rest), []) ==> Shallow(ns, [])))
  {
    hide At, Print, WellBefore, Consistent, FindTag, Todo, Weight, Left, Shallow, Nest, Inner;
    WithoutFragments(ns);
    TagOfTree(ns, []);
    WeightLead(ns, []);
    ShallowLead(ns);
    var rest := DropLead(ns);
    if rest != [] {
      AfterWeight(rest);
      ShallowParts(rest);
      LeftOfTag(Print(ns), |Lead(ns)|, rest);
    }
  }

  /** What is accepted is not nested too deep. */
  lemma {:induction false} AcceptedShallow(ns: seq<Node>, st: State, fs: seq<FragmentDef>, rank: seq<nat>, bound: nat)
    requires |rank| == |fs| && WellFormed(ns) && Reading(Print(ns), st, fs, rank, bound).Some?
    ensures Shallow(ns, [])
    decreases Weight(ns)
  {
    hide Print, WellBefore, FindTag, Weight, Read, Left, Shallow, After;
    LeftOfTree(ns);
    if DropLead(ns) != [] {
      ReadLeft(Print(ns), st, fs, rank, bound);
      AcceptedShallow(After(DropLead(ns)), Read(Print(ns), st, fs, rank, bound).st, fs, rank, bound);
    }
  }

  lemma {:induction false} ShallowLead(ns: seq<Node>)
    ensures Shallow(DropLead(ns), []) <==> Shallow(ns, [])
    ensures DropLead(ns) == [] ==> Shallow(ns, [])
  {
    if ns != [] && ns[0].Plain? { ShallowLead(ns[1..]); }
  }

  lemma ShallowParts(ns: seq<Node>)
    requires ns != [] && !ns[0].Plain?
    ensures !ns[0].Shard? && Shallow(ns[1..], []) ==> Shallow(ns, [])
    ensures ns[0].Shard? && 1 + Nest(ns[0].body) <= MAX_NEST && Shallow(ns[0].body + ns[1..], []) ==> Shallow(ns, [])
  {
    hide Nest;
    if ns[0].Shard? && Shallow(ns[0].body + ns[1..], []) { ShallowSplit(ns[0].body, ns[1..]); }
  }

  lemma {:induction false} ShallowSplit(a: seq<Node>, b: seq<Node>)
    requires Shallow(a + b, [])
    ensures Shallow(a, []) && Shallow(b, [])
  {
    hide Nest;
    if a == [] {
      assert a + b == b;
    } else {
      assert (a + b)[1..] == a[1..] + b;
      ShallowSplit(a[1..], b);
    }
  }

  /** Whatever is read on goes on with what is left. */
  lemma ReadLeft(u: string, st: State, fs: seq<FragmentDef>, rank: seq<nat>, bound: nat)
    requires |rank| == |fs| && FindTag(u).Tagged?
    ensures var t := Read(u, st, fs, rank, bound); !t.End? && (t.Go? ==> Left(u) == Some(t.u))
  {
    hide FindTag, At, MatchFrom, UseShard, FragmentIndex, Reading, Trim;
  }

  lemma LeftTag(u: string, b: nat, e: nat)
    requires FindTag(u) == Tagged(b, e) && !At(u, b, BEGIN)
    ensures e + 2 <= |u| && Left(u) == Some(u[e + 2..])
  {
    hide FindTag, At;
  }

  lemma LeftShard(u: string, b: nat, e: nat)
    requires FindTag(u) == Tagged(b, e) && At(u, b, BEGIN)
    ensures var x := MatchFrom(u, e + 2, 1);
            if x < 0 then Left(u) == None
            else x + 13 <= |u| && e + 2 <= x && Left(u) == Some(u[e + 2..x] + u[x + 13..])
  {
    hide FindTag, At;
  }

  /** Which accepted texts are templates: exactly the proper ones. */
  lemma AcceptedIff(u: string, ss: seq<ShardDef>, fs: seq<FragmentDef>, rank: seq<nat>)
    requires |rank| == |fs| && Expanded(u, ss, fs, rank).Some?
    ensures (exists ns: seq<Node> :: WellFormed(ns) && Print(ns) == u) <==> Proper(u, "", [], [], 0)
    ensures (exists ns: seq<Node> :: WellFormed(ns) && Consistent(ns, fs) && Ranked(ns, fs, rank, Top(rank)) && Print(ns) == u)
            <==> Proper(u, "", fs, rank, Top(rank))
  {
    hide Print, WellBefore, Consistent, Ranked, Shallow, Proper, Reading, IndexOf, Expand;
    TextIff(u);
    ProperIff(u, fs, rank);
    forall ns: seq<Node> | WellFormed(ns) && Print(ns) == u ensures Shallow(ns, []) {
      WithoutFragments(ns);
      if IndexOf(u, OPEN) < 0 { NoShards(ns); } else { AcceptedShallow(ns, State("", [], ss), fs, rank, Top(rank)); }
    }
    forall ns: seq<Node> | WellFormed(ns) && Consistent(ns, fs) && Ranked(ns, fs, rank, Top(rank)) && Print(ns) == u
      ensures Shallow(ns, fs)
    {
      TreeCompiles(ns, ss, fs, rank);
      ExpandMeaning(ns, State("", [], ss), fs);
      SoundShallow(ns, fs);
    }
  }

  lemma NoShards(ns: seq<Node>)
    requires WellFormed(ns) && IndexOf(Print(ns), OPEN) < 0
    ensures Shallow(ns, [])
  {
    hide Print, WellBefore, Consistent, Todo, At, Scan, IndexOf;
    WithoutFragments(ns);
    TagOfTree(ns, []);
    ShallowLead(ns);
  }

  lemma {:induction false} SoundShallow(ns: seq<Node>, fs: seq<FragmentDef>)
    requires Sound(ns, fs)
    ensures Shallow(ns, fs)
  {
    hide Nest, FragmentIndex, Trim;
    if ns != [] {
      SoundShallow(ns[1..], fs);
      match ns[0]
      case Fragment(_, splice) => SoundShallow(splice, fs);
      case Shard(_, body) => SoundShallow(body, fs);
      case _ =>
    }
  }

  // ----- What new_query makes of proper texts

  /** A proper text can be put where it is proper. */
  lemma {:induction false} ProperContained(u: string, h: string, fs: seq<FragmentDef>, rank: seq<nat>, bound: nat)
    requires |rank| == |fs| && Proper(u, h, fs, rank, bound)
    ensures SelfContained(u, h, fs, rank, bound)
    decreases bound, |u|
  {
    hide FindTag, At, IndexOf, MatchFrom, Reference, Left, Fits;
    if FindTag(u).Tagged? {
      var b, e := FindTag(u).b, FindTag(u).e;
      if At(u, b, BEGIN) {
        var x := MatchFrom(u, e + 2, 1);
        ShardLeft(u, b, e, fs);
        ProperContained(Body(u, e, x), First(Tail(u, x), h), fs, rank, bound);
        ProperContained(Tail(u, x), h, fs, rank, bound);
        ContainedConcat(Body(u, e, x), Tail(u, x), h, fs, rank, bound, bound);
      } else {
        var i := Reference(u, fs);
        LeftTag(u, b, e);
        if i >= 0 { ProperContained(fs[i].text, First(BehindTag(u, e), h), fs, rank, rank[i]); }
        ProperContained(BehindTag(u, e), h, fs, rank, bound);
      }
    }
  }

  lemma {:induction false} ContainedReady(u: string, fs: seq<FragmentDef>, rank: seq<nat>, bound: nat)
    requires |rank| == |fs| && SelfContained(u, "", fs, rank, bound)
    ensures Ready(u, fs, rank, bound)
    decreases |u|
  {
    hide FindTag, Reference, Left, Fits, First;
    if Left(u).Some? {
      if !FindTag(u).Tagged? { NoLeft(u); }
      ContainedReady(Left(u).value, fs, rank, bound);
    }
  }

  /** A proper text is one that new_query takes, and it makes of it the compiled query of its tree: the SQL text and the
      parameters of the tree, and when these are put back for the placeholders, the text with its fragments put in. */
  lemma ProperCompiles(u: string, ss: seq<ShardDef>, fs: seq<FragmentDef>, rank: seq<nat>)
    requires |rank| == |fs| && Proper(u, "", fs, rank, Top(rank))
    ensures Ready(u, fs, rank, Top(rank))
    ensures var tree := TreeOf(u, "", fs, rank, Top(rank));
            && CompiledText(u, ss, fs, rank) == Compiled(tree, ss, fs)
            && (CompiledText(u, ss, fs, rank).Some? ==>
                  var q := CompiledText(u, ss, fs, rank).value;
                  && q.sql == Sql(tree) && q.inputs == DeEscaped(Params(tree))
                  && (IndexOf(u, OPEN) >= 0 ==> Restored(q.sql, Params(tree)) == Print(Leaves(tree))))
  {
    hide Proper, TreeOf, Print, WellBefore, Consistent, Ranked, Shallow, SelfContained, Ready, CompiledText, Compiled, IndexOf,
         Restored, DeEscaped, Sql, Params, Leaves;
    ProperContained(u, "", fs, rank, Top(rank));
    ContainedReady(u, fs, rank, Top(rank));
    TreeOfIs(u, "", fs, rank, Top(rank));
    var tree := TreeOf(u, "", fs, rank, Top(rank));
    TreeCompiles(tree, ss, fs, rank);
    if Compiled(tree, ss, fs).Some? { CompiledMeaning(tree, ss, fs); }
  }

  // ----- Two texts that are accepted, but are no templates

  /** <?shard#a?><?x<?end-shard?>y?> */
  const CROSSED := BEGIN + ("a?>" + ("<?x" + (END + "y?>")))

  /** The end of the shard is inside the parameter: once the shard's tags are cut out, the parameter is closed by what
      was behind the shard.  The text is accepted, though no well-formed template prints it. */
  lemma AcceptedWithoutTree()
    ensures CROSSED == "<?shard#a?><?x<?end-shard?>y?>"
    ensures CompiledText(CROSSED, [ShardDef("a", "", false)], [], []) == Some(Query("'%s'", ["xy"]))
    ensures forall ns: seq<Node> :: WellFormed(ns) ==> Print(ns) != CROSSED
  {
    hide Print, WellBefore, FindTag, At, IndexOf, Scan, MatchFrom, Proper;
    CrossedIsRead();
    CrossedImproper();
    NoneIn(CROSSED, [ShardDef("a", "", false)]);
  }

  lemma CrossedImproper()
    ensures !Proper(CROSSED, "", [], [], 0)
  {
    hide FindTag, At, IndexOf, MatchFrom;
    CrossedTag();
    CrossedParts();
    OpenOnly();
    assert Body(CROSSED, 9, 14) == "<?x";
  }

  /** ?><?x?> */
  const UNOPENED := CLOSE + "<?x?>"

  /** A closing without an opening is noticed behind the last tag only. */
  lemma AcceptedUnopened(ss: seq<ShardDef>)
    ensures CompiledText(UNOPENED, ss, [], []) == Some(Query("?>'%s'", ["x"]))
    ensures forall ns: seq<Node> :: WellFormed(ns) ==> Print(ns) != UNOPENED
  {
    hide Print, WellBefore, FindTag, At, IndexOf, Proper, Read, Reading, Finish;
    var end := State("?>'%s'", ["x"], ss);
    UnopenedTag();
    UnopenedRead(ss);
    Follow(UNOPENED, State("", [], ss), "", end);
    ReadNothing(end);
    OneParam("?>", "x", ss);
    assert "?>" + HOLE == "?>'%s'";
    NoneIn(UNOPENED, ss);
  }

  lemma UnopenedTag()
    ensures FindTag(UNOPENED) == Tagged(2, 5) && IndexOf(UNOPENED, OPEN) >= 0 && !Proper(UNOPENED, "", [], [], 0)
  {
    hide At, IndexOf, Scan;
    FirstTagIs(UNOPENED, 2, 5);
    assert UNOPENED[..2] == CLOSE;
    AtPair(CLOSE, 0);
  }

  lemma UnopenedRead(ss: seq<ShardDef>)
    ensures Read(UNOPENED, State("", [], ss), [], [], 0) == Go("", State("?>'%s'", ["x"], ss))
  {
    hide FindTag, At, Scan, IndexOf, Read, Proper;
    var u := UNOPENED;
    UnopenedTag();
    assert u[4..5] == "x" && u[7..] == "" && u[..2] == "?>" && "" + "?>" + "'%s'" == "?>'%s'" && [] + ["x"] == ["x"];
    assert !At(u, 2, BEGIN) by { AtFits(u, 2, BEGIN); }
    ParamRead(u, 2, "x", State("", [], ss), [], [], 0);
  }

  /** No template prints an accepted text that is not proper. */
  lemma NoneIn(u: string, ss: seq<ShardDef>)
    requires CompiledText(u, ss, [], []).Some? && !Proper(u, "", [], [], 0)
    ensures forall ns: seq<Node> :: WellFormed(ns) ==> Print(ns) != u
  {
    hide Print, WellBefore, Proper, Expanded, Finish;
    AcceptedIff(u, ss, [], []);
  }

  lemma CrossedTag()
    ensures FindTag(CROSSED) == Tagged(0, 9) && At(CROSSED, 0, BEGIN) && MatchFrom(CROSSED, 11, 1) == 14
  {
    hide Scan, IndexOf, MatchFrom, FindTag;
    var u := CROSSED;
    assert u[0..8] == BEGIN;
    FirstTagIs(u, 0, 9);
    forall j | 11 <= j < 14 ensures !Begins(u, j) && !Ends(u, j) {
      if Begins(u, j) || Ends(u, j) { TagHead(u, j); }
    }
    MatchSkip(u, 11, 14, 1);
    assert u[14..27] == END;
    EndMatches(u, 14);
  }

  lemma CrossedParts()
    ensures |CROSSED| == 30 && CROSSED[2..9] == "shard#a" && CROSSED[8..9] == "a"
    ensures CROSSED[11..14] == "<?x" && CROSSED[27..] == "y?>" && CROSSED[..0] == ""
  {
  }

  /** A tag is found by its first `<?` and the next `?>`. */
  lemma FirstTagIs(u: string, b: nat, e: nat)
    requires b + 2 <= e && e + 2 <= |u| && u[b] == '<' && u[b + 1] == '?' && u[e] == '?' && u[e + 1] == '>'
    requires forall k :: 0 <= k < b ==> !(u[k] == '<' && u[k + 1] == '?')
    requires forall k :: b + 2 <= k < e ==> !(u[k] == '?' && u[k + 1] == '>')
    ensures FindTag(u) == Tagged(b, e)
  {
    hide Scan, IndexOf, At;
    AtPair(u, b);
    AtPair(u, e);
    AtPair(u, IndexOf(u, OPEN));
    AtPair(u, Scan(u, CLOSE, b + 2));
  }

  lemma NoTagIn(u: string)
    requires '?' !in u
    ensures FindTag(u) == NoTag
  {
    hide Scan, IndexOf, At;
    AtPair(u, IndexOf(u, OPEN));
    AtPair(u, IndexOf(u, CLOSE));
  }

  lemma CrossedIsRead()
    ensures CompiledText(CROSSED, [ShardDef("a", "", false)], [], []) == Some(Query("'%s'", ["xy"]))
  {
    hide Read, Reading, Finish;
    var ss, ss' := [ShardDef("a", "", false)], [ShardDef("a", "<?x", false)];
    var end := State("'%s'", ["xy"], ss');
    CrossedFirst();
    Follow(CROSSED, State("", [], ss), "<?xy?>", State("", [], ss'));
    CrossedParam(ss');
    Follow("<?xy?>", State("", [], ss'), "", end);
    ReadNothing(end);
    CrossedTag();
    OneParam("", "xy", ss');
    assert "" + HOLE == HOLE;
  }

  lemma Follow(u: string, st: State, w: string, st': State)
    requires Read(u, st, [], [], 0) == Go(w, st')
    ensures Reading(u, st, [], [], 0) == Reading(w, st', [], [], 0)
  {
    hide Read;
  }

  lemma ReadNothing(st: State)
    ensures Reading("", st, [], [], 0) == Some(st)
  {
    hide Read;
    NoTagIn("");
    ReadEnd("", st, [], [], 0);
    assert st.sql + "" == st.sql;
  }

  lemma CrossedFirst()
    ensures Read(CROSSED, State("", [], [ShardDef("a", "", false)]), [], [], 0) ==
            Go("<?xy?>", State("", [], [ShardDef("a", "<?x", false)]))
  {
    hide Read, FindTag, At, UseShard, Trim, MatchFrom;
    CrossedTag();
    CrossedParts();
    CrossedShard();
    ShardRead(CROSSED, State("", [], [ShardDef("a", "", false)]), 0, 9, [], [], 0);
    assert "<?x" + "y?>" == "<?xy?>" && "" + "" == "";
  }

  lemma CrossedShard()
    ensures UseShard([ShardDef("a", "", false)], Trim("a"), "<?x") == Some([ShardDef("a", "<?x", false)])
  {
    hide Trim, RemoveParams;
    TrimUnique("a", 0, 1);
    assert "a"[0..1] == "a";
    var ss := [ShardDef("a", "", false)];
    assert ShardIndex(ss, "a", 0) == 0;
    assert ss[0 := ss[0].(text := "<?x")] == [ShardDef("a", "<?x", false)];
  }

  lemma CrossedParam(ss: seq<ShardDef>)
    ensures Read("<?xy?>", State("", [], ss), [], [], 0) == Go("", State("'%s'", ["xy"], ss))
  {
    hide FindTag, At, Scan, IndexOf;
    var u := "<?xy?>";
    FirstTagIs(u, 0, 4);
    assert u[2..4] == "xy" && u[6..] == "" && u[..0] == "" && "" + "" + "'%s'" == "'%s'" && [] + ["xy"] == ["xy"];
    assert !At(u, 0, BEGIN) by { AtFits(u, 0, BEGIN); }
    ParamRead(u, 0, "xy", State("", [], ss), [], [], 0);
  }

  /** Referring to the only fragment of the table. */
  lemma OnlyFragment(ss: seq<ShardDef>)
    ensures CompiledText("select 1 where <?query-fragment#f?>", ss, [FragmentDef("f", "x=1")], [0]) ==
            Some(Query("select 1 where x=1", []))
  {
    hide FindTag, At, IndexOf, Read, Reading, Finish;
    var u, fs := "select 1 where <?query-fragment#f?>", [FragmentDef("f", "x=1")];
    FragmentTag();
    FragmentFirst(ss);
    var st := State("select 1 where x=1", [], ss);
    assert Reading(u, State("", [], ss), fs, [0], 1) == Reading("", st, fs, [0], 1) by { FollowOn(u, ss, fs, st); }
    NoTagIn("");
    ReadIt("", st, fs, 1);
    assert st.sql + "" == st.sql;
    NoParams(st);
    assert Top([0]) == 1 by { assert [0][1..] == []; }
  }

  lemma FragmentTag()
    ensures FindTag("select 1 where <?query-fragment#f?>") == Tagged(15, 33)
    ensures IndexOf("select 1 where <?query-fragment#f?>", OPEN) >= 0
    ensures !At("select 1 where <?query-fragment#f?>", 15, BEGIN)
  {
    hide At, IndexOf, Scan;
    var u := "select 1 where <?query-fragment#f?>";
    FirstTagIs(u, 15, 33);
    if At(u, 15, BEGIN) { AtChar(u, 15, BEGIN, 2); }
  }

  lemma FragmentFirst(ss: seq<ShardDef>)
    ensures Read("select 1 where <?query-fragment#f?>", State("", [], ss), [FragmentDef("f", "x=1")], [0], 1) ==
            Go("", State("select 1 where x=1", [], ss))
  {
    hide FindTag, At, IndexOf, Read, Reading, Trim;
    var u, fs := "select 1 where <?query-fragment#f?>", [FragmentDef("f", "x=1")];
    FragmentTag();
    assert u[17..33] == "query-fragment#f" && "query-fragment#f"[15..] == "f" && u[..15] == "select 1 where " && u[35..] == "";
    TrimUnique("f", 0, 1);
    assert "f"[0..1] == "f";
    FragmentRead(u, 15, "query-fragment#f", State("", [], ss), fs, [0], 1);
    NoTagIn("x=1");
    ReadIt("x=1", State("select 1 where ", [], ss), fs, 0);
    assert "" + "select 1 where " == "select 1 where " && "select 1 where " + "x=1" == "select 1 where x=1";
    FirstFragment(fs, "f", 0);
    assert fs[0].name == "f";
  }

  lemma FollowOn(u: string, ss: seq<ShardDef>, fs: seq<FragmentDef>, st: State)
    requires |fs| == 1 && Read(u, State("", [], ss), fs, [0], 1) == Go("", st)
    ensures Reading(u, State("", [], ss), fs, [0], 1) == Reading("", st, fs, [0], 1)
  {
    hide Read;
  }

  lemma ReadIt(u: string, st: State, fs: seq<FragmentDef>, bound: nat)
    requires |fs| == 1 && FindTag(u) == NoTag
    ensures Reading(u, st, fs, [0], bound) == Some(st.(sql := st.sql + u))
  {
    hide Read, FindTag;
    ReadEnd(u, st, fs, [0], bound);
  }

  lemma NoParams(st: State)
    requires st.params == [] && '%' !in st.sql && (st.sql != "" ==> st.sql[|st.sql| - 1] != ';')
    ensures Finish(true, st) == Some(Query(st.sql, []))
  {
    hide At, IndexOf;
    if IndexOf(st.sql, "%s") >= 0 { AtChar(st.sql, IndexOf(st.sql, "%s"), "%s", 0); }
  }

  lemma OneParam(lead: string, p: string, ss: seq<ShardDef>)
    requires '%' !in lead && '\\' !in p
    ensures Finish(true, State(lead + HOLE, [p], ss)) == Some(Query(lead + HOLE, [p]))
  {
    hide IndexOf, At, ReplaceAll, Count;
    OneHole(lead);
    NoEscapes(p);
    assert [p][..0] == [] && DeEscaped([]) == [] && [] + [p] == [p];
  }

  lemma OneHole(lead: string)
    requires '%' !in lead
    ensures Count(lead + HOLE, "%s") == 1
  {
    hide At, IndexOf;
    HoleCount(lead, "");
    assert HOLE + "" == HOLE;
    if IndexOf(lead, "%s") >= 0 { AtChar(lead, IndexOf(lead, "%s"), "%s", 0); }
  }

  lemma NoEscapes(p: string)
    requires '\\' !in p
    ensures ReplaceAll(p, "\\\"", "\"") == p
  {
    hide At;
    var i := IndexOf(p, "\\\"");
    if i >= 0 { AtChar(p, i, "\\\"", 0); }
  }

  lemma OpenOnly()
    ensures FindTag("<?x") == Broken
  {
    hide Scan, IndexOf, At;
    AtPair("<?x", 0);
    AtPair("<?x", Scan("<?x", CLOSE, 2));
  }
}
