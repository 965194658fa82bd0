/** Query templates as trees: text, <?parameters?>, <?query-fragment#...?> references that carry the text they
    stand for, and <?shard#...?> regions; their printed form, and what they expand to. */
module QueryTree {
  import opened CStrings
  import opened ShardMatch

  const OPEN := "<?"
  const CLOSE := "?>"
  const SHARD := "shard#"
  const FRAGMENT := "query-fragment#"
  const STRAY := "end-shard"

  /** A fragment reference is finite only when references are acyclic: it holds the tree of its text. */
  datatype Node =
    | Plain(t: string)
    | Param(p: string)
    | Fragment(name: string, splice: seq<Node>)
    | Shard(sname: string, body: seq<Node>)

  /** What is between the opening and the closing of a tag. */
  function Inner(n: Node): string {
    match n
    case Plain(_) => ""
    case Param(p) => p
    case Fragment(name, _) => FRAGMENT + name
    case Shard(name, _) => SHARD + name
  }

  function Tag(n: Node): string {
    OPEN + (Inner(n) + CLOSE)
  }

  function PrintNode(n: Node): string
    decreases n, 0
  {
    match n
    case Plain(t) => t
    case Shard(_, body) => Tag(n) + (Print(body) + END)
    case _ => Tag(n)
  }

  /** The template text. */
  function Print(ns: seq<Node>): string
    decreases ns, 1
  {
    if ns == [] then "" else PrintNode(ns[0]) + Print(ns[1..])
  }

  /** How deep shards are nested in the printed text; fragment references do not count. */
  function Nest(ns: seq<Node>): nat {
    if ns == [] then 0 else
      var rest := Nest(ns[1..]);
      if ns[0].Shard? then (if 1 + Nest(ns[0].body) > rest then 1 + Nest(ns[0].body) else rest) else rest
  }

  // ----- Well-formed templates

  ghost predicate Free(s: string, p: string) {
    forall k :: 0 <= k <= |s| ==> !At(s, k, p)
  }

  ghost predicate PlainText(t: string) {
    Free(t, OPEN) && Free(t, CLOSE)
  }

  /** Text does not end in half a tag that what follows, beginning with `h`, completes. */
  predicate Fits(t: string, h: string) {
    t != "" && h != "" ==> !(t[|t| - 1] == '<' && h[0] == '?') && !(t[|t| - 1] == '?' && h[0] == '>')
  }

  /** The first character of a text, or of what follows it. */
  function First(v: string, h: string): string {
    if v == "" then h else v[..1]
  }

  function Head(ns: seq<Node>, h: string): string {
    First(Print(ns), h)
  }

  ghost predicate TagInner(x: string) {
    Free(x, OPEN) && Free(x, CLOSE)
  }

  ghost predicate ParamText(p: string) {
    TagInner(p) && p != "" && p != STRAY && !(SHARD <= p) && !(FRAGMENT <= p)
  }

  /** Well-formed in front of text that begins with `h`, also where the tags of shards and fragments are taken out. */
  ghost predicate WellBefore(ns: seq<Node>, h: string) {
    ns == [] ||
    ((match ns[0]
      case Plain(t) => PlainText(t) && Fits(t, Head(ns[1..], h))
      case Param(p) => ParamText(p)
      case Fragment(_, splice) => TagInner(Inner(ns[0])) && WellBefore(splice, Head(ns[1..], h))
      case Shard(_, body) => TagInner(Inner(ns[0])) && WellBefore(body, Head(ns[1..], h)))
     && WellBefore(ns[1..], h))
  }

  ghost predicate WellFormed(ns: seq<Node>) {
    WellBefore(ns, "")
  }

  /** In front of other text. */
  lemma {:induction false} BeforeOther(ns: seq<Node>, g: string, h: string)
    requires WellBefore(ns, g) && (h == g || h == "" || (h[0] != '?' && h[0] != '>'))
    ensures WellBefore(ns, h)
  {
    hide Print, PlainText, TagInner, ParamText;
    if ns != [] {
      BeforeOther(ns[1..], g, h);
      HeadOther(ns[1..], g, h);
      match ns[0]
      case Fragment(_, splice) => BeforeOther(splice, Head(ns[1..], g), Head(ns[1..], h));
      case Shard(_, body) => BeforeOther(body, Head(ns[1..], g), Head(ns[1..], h));
      case _ =>
    }
  }

  lemma HeadOther(ns: seq<Node>, g: string, h: string)
    ensures Head(ns, h) == Head(ns, g) || (Head(ns, h) == h && Head(ns, g) == g)
  {
  }

  // ----- Reading tags off the text

  lemma AtPair(s: string, k: int)
    ensures At(s, k, OPEN) <==> 0 <= k && k + 2 <= |s| && s[k] == '<' && s[k + 1] == '?'
    ensures At(s, k, CLOSE) <==> 0 <= k && k + 2 <= |s| && s[k] == '?' && s[k + 1] == '>'
  {
    if 0 <= k && k + 2 <= |s| { assert s[k..k + 2] == [s[k], s[k + 1]]; }
  }

  function HeadAt(s: string, m: nat): string {
    if m < |s| then s[m..m + 1] else ""
  }

  /** Neither opening nor closing starts inside a plain text, unless what follows completes one. */
  lemma TextHasNoTag(s: string, k: nat, t: string)
    requires At(s, k, t) && PlainText(t) && Fits(t, HeadAt(s, k + |t|))
    ensures forall j :: k <= j < k + |t| ==> !At(s, j, OPEN) && !At(s, j, CLOSE)
  {
    forall j | k <= j < k + |t| ensures !At(s, j, OPEN) && !At(s, j, CLOSE) {
      AtPair(s, j);
      AtPair(t, j - k);
      AtChar(s, k, t, j - k);
      if j + 1 < k + |t| { AtChar(s, k, t, j + 1 - k); }
    }
  }

  /** The first closing behind an opening is the one of its tag. */
  lemma TagCloses(s: string, k: nat, x: string)
    requires At(s, k, OPEN + (x + CLOSE)) && TagInner(x)
    ensures At(s, k, OPEN) && At(s, k + 2, x) && At(s, k + 2 + |x|, CLOSE)
    ensures k + 4 + |x| <= |s| && Scan(s, CLOSE, k + 2) == k + 2 + |x|
  {
    hide Scan;
    AtSplit(s, k, OPEN, x + CLOSE);
    AtSplit(s, k + 2, x, CLOSE);
    var e := k + 2 + |x|;
    AtPair(s, e);
    forall j | k + 2 <= j < e ensures !At(s, j, CLOSE) {
      AtPair(s, j);
      AtPair(x, j - k - 2);
      AtChar(s, k + 2, x, j - k - 2);
      if j + 1 < e { AtChar(s, k + 2, x, j - k - 1); }
    }
  }

  /** Inside a tag, behind its first character, no shard tag starts. */
  lemma InnerHasNoTag(s: string, k: nat, x: string)
    requires At(s, k, OPEN + (x + CLOSE)) && TagInner(x)
    ensures forall j :: k < j < k + |x| + 4 ==> !Begins(s, j) && !Ends(s, j)
  {
    hide Scan, Begins, Ends;
    TagCloses(s, k, x);
    AtPair(s, k);
    var e := k + 2 + |x|;
    AtPair(s, e);
    forall j | k < j < k + |x| + 4 ensures !Begins(s, j) && !Ends(s, j) {
      AtPair(x, j - k - 2);
      if k + 2 <= j < e { AtChar(s, k + 2, x, j - k - 2); }
      if k + 2 <= j < e - 1 { AtChar(s, k + 2, x, j - k - 1); }
      if Begins(s, j) || Ends(s, j) { TagHead(s, j); }
    }
  }

  /** What occurs at the same place agrees. */
  lemma SamePlace(s: string, k: int, x: string, y: string)
    requires At(s, k, x) && At(s, k, y) && |y| <= |x|
    ensures y <= x
  {
    forall j | 0 <= j < |y| ensures x[j] == y[j] {
      AtChar(s, k, x, j);
      AtChar(s, k, y, j);
    }
  }

  /** A word without question marks read off a closed tag is no longer than what is in the tag. */
  lemma WordInTag(s: string, k: nat, x: string, word: string)
    requires At(s, k, x) && At(s, k + |x|, CLOSE) && At(s, k, word)
    requires forall j :: 0 <= j < |word| ==> word[j] != '?'
    ensures word <= x
  {
    AtPair(s, k + |x|);
    if |word| <= |x| {
      SamePlace(s, k, x, word);
    } else {
      AtChar(s, k, word, |x|);
    }
  }

  lemma BeginsInner(s: string, k: nat, x: string)
    requires At(s, k, OPEN + (x + CLOSE)) && TagInner(x) && Begins(s, k)
    ensures SHARD <= x
  {
    hide Scan;
    TagCloses(s, k, x);
    assert BEGIN == OPEN + SHARD;
    AtSplit(s, k, OPEN, SHARD);
    WordInTag(s, k + 2, x, SHARD);
  }

  lemma EndsInner(s: string, k: nat, x: string)
    requires At(s, k, OPEN + (x + CLOSE)) && TagInner(x) && Ends(s, k)
    ensures x == STRAY
  {
    hide Scan;
    TagCloses(s, k, x);
    assert END == OPEN + (STRAY + CLOSE);
    AtSplit(s, k, OPEN, STRAY + CLOSE);
    AtSplit(s, k + 2, STRAY, CLOSE);
    WordInTag(s, k + 2, x, STRAY);
    assert At(s, k + 2 + |STRAY|, CLOSE);
  }

  /** A parameter or a fragment reference is no shard tag. */
  lemma OtherTag(s: string, k: nat, n: Node)
    requires At(s, k, Tag(n)) && TagInner(Inner(n))
    requires n.Fragment? || (n.Param? && ParamText(n.p))
    ensures !Begins(s, k) && !Ends(s, k)
  {
    hide Begins, Ends;
    var x := Inner(n);
    assert n.Fragment? ==> x[0] == 'q';
    assert SHARD[0] == 's' && STRAY[0] == 'e';
    if Begins(s, k) { BeginsInner(s, k, x); }
    if Ends(s, k) { EndsInner(s, k, x); }
  }

  lemma ShardTag(s: string, k: nat, n: Node)
    requires n.Shard? && At(s, k, Tag(n))
    ensures Begins(s, k)
  {
    assert Tag(n) == BEGIN + (n.sname + CLOSE);
    AtSplit(s, k, BEGIN, n.sname + CLOSE);
  }

  // ----- Matching over printed templates

  ghost predicate PrintedAt(s: string, k: nat, ns: seq<Node>, m: nat) {
    k <= m <= |s| && m == k + |Print(ns)| && At(s, k, Print(ns)) && WellBefore(ns, HeadAt(s, m))
  }

  lemma HeadIs(s: string, k: nat, ns: seq<Node>, m: nat)
    requires k <= m <= |s| && m == k + |Print(ns)| && At(s, k, Print(ns))
    ensures Head(ns, HeadAt(s, m)) == HeadAt(s, k)
  {
    hide Print;
    if Print(ns) != "" {
      AtChar(s, k, Print(ns), 0);
    }
  }

  /** The matching of shards passes over a printed template unless that nests too deep. */
  lemma {:induction false} MatchOver(s: string, k: nat, ns: seq<Node>, m: nat, d: nat)
    requires PrintedAt(s, k, ns, m) && 1 <= d <= MAX_NEST
    ensures MatchFrom(s, k, d) == if d + Nest(ns) <= MAX_NEST then MatchFrom(s, m, d) else -1
    decreases ns
  {
    hide PrintNode, WellBefore, Begins, Ends, At, Tag, MatchFrom;
    if ns != [] {
      var n, rest := ns[0], ns[1..];
      if n.Plain? {
        PrintedText(s, k, ns, m);
        MatchSkip(s, k, k + |n.t|, d);
        MatchOver(s, k + |n.t|, rest, m, d);
      } else if n.Shard? {
        MatchShard(s, k, ns, m, d);
      } else {
        PrintedTag(s, k, ns, m);
        MatchSkip(s, k, k + |Tag(n)|, d);
        MatchOver(s, k + |Tag(n)|, rest, m, d);
      }
    }
  }

  /** The first node of a printed template, whatever it is. */
  lemma PrintFirst(ns: seq<Node>, h: string)
    requires ns != [] && WellBefore(ns, h)
    ensures WellBefore(ns[1..], h)
    ensures ns[0].Plain? ==>
              PlainText(ns[0].t) && Fits(ns[0].t, Head(ns[1..], h)) && Print(ns) == ns[0].t + Print(ns[1..])
    ensures !ns[0].Plain? ==> TagInner(Inner(ns[0]))
    ensures ns[0].Param? ==> ParamText(ns[0].p) && Print(ns) == Tag(ns[0]) + Print(ns[1..])
    ensures ns[0].Fragment? ==>
              WellBefore(ns[0].splice, Head(ns[1..], h)) && Print(ns) == Tag(ns[0]) + Print(ns[1..])
    ensures ns[0].Shard? ==>
              && WellBefore(ns[0].body, Head(ns[1..], h))
              && Print(ns) == Tag(ns[0]) + (Print(ns[0].body) + (END + Print(ns[1..])))
  {
    hide Head;
    if ns[0].Shard? {
      var x, y, z := Tag(ns[0]), Print(ns[0].body), Print(ns[1..]);
      assert (x + (y + END)) + z == x + (y + (END + z));
    }
  }

  lemma PrintedText(s: string, k: nat, ns: seq<Node>, m: nat)
    requires PrintedAt(s, k, ns, m) && ns != [] && ns[0].Plain?
    ensures PrintedAt(s, k + |ns[0].t|, ns[1..], m) && At(s, k, ns[0].t)
    ensures forall j :: k <= j < k + |ns[0].t| ==> !At(s, j, OPEN) && !At(s, j, CLOSE) && !Begins(s, j) && !Ends(s, j)
  {
    hide Begins, Ends, Free, Print, WellBefore, Head, HeadAt;
    PrintFirst(ns, HeadAt(s, m));
    var t := ns[0].t;
    AtSplit(s, k, t, Print(ns[1..]));
    HeadIs(s, k + |t|, ns[1..], m);
    TextHasNoTag(s, k, t);
    forall j | k <= j < k + |t| ensures !Begins(s, j) && !Ends(s, j) {
      AtPair(s, j);
      if Begins(s, j) || Ends(s, j) { TagHead(s, j); }
    }
  }

  lemma PrintedTag(s: string, k: nat, ns: seq<Node>, m: nat)
    requires PrintedAt(s, k, ns, m) && ns != [] && (ns[0].Param? || ns[0].Fragment?)
    ensures PrintedAt(s, k + |Tag(ns[0])|, ns[1..], m) && At(s, k, Tag(ns[0]))
    ensures forall j :: k <= j < k + |Tag(ns[0])| ==> !Begins(s, j) && !Ends(s, j)
  {
    hide Begins, Ends, Free, Print, WellBefore, At, Head, HeadAt;
    PrintFirst(ns, HeadAt(s, m));
    AtFits(s, k, Tag(ns[0]));
    AtSplit(s, k, Tag(ns[0]), Print(ns[1..]));
    OtherTag(s, k, ns[0]);
    InnerHasNoTag(s, k, Inner(ns[0]));
  }

  lemma EndsAt(s: string, e: nat)
    ensures At(s, e, END) <==> Ends(s, e)
    ensures Ends(s, e) ==> e + |END| <= |s|
  {
  }

  lemma TagSize(n: Node)
    ensures |Tag(n)| == |Inner(n)| + 4 && Tag(n) == OPEN + (Inner(n) + CLOSE)
  {
  }

  lemma AtFits(s: string, k: int, p: string)
    ensures At(s, k, p) ==> 0 <= k && k + |p| <= |s|
  {
  }

  lemma PrintedShard(s: string, k: nat, ns: seq<Node>, m: nat) returns (b: nat, e: nat)
    requires PrintedAt(s, k, ns, m) && ns != [] && ns[0].Shard?
    ensures b == k + |Tag(ns[0])| && At(s, k, Tag(ns[0])) && Begins(s, k)
    ensures PrintedAt(s, b, ns[0].body, e) && Ends(s, e)
    ensures PrintedAt(s, e + |END|, ns[1..], m)
    ensures forall j :: k < j < b ==> !Begins(s, j) && !Ends(s, j)
  {
    hide Begins, Ends, Free, Print, WellBefore, At, Tag, Head;
    PrintFirst(ns, HeadAt(s, m));
    var n := ns[0];
    b := k + |Tag(n)|;
    e := b + |Print(n.body)|;
    AtSplit(s, k, Tag(n), Print(n.body) + (END + Print(ns[1..])));
    AtSplit(s, b, Print(n.body), END + Print(ns[1..]));
    AtSplit(s, e, END, Print(ns[1..]));
    EndsAt(s, e);
    TagHead(s, e);
    BeforeOther(n.body, Head(ns[1..], HeadAt(s, m)), HeadAt(s, e));
    ShardTag(s, k, n);
    TagSize(n);
    InnerHasNoTag(s, k, Inner(n));
  }

  lemma {:induction false} MatchShard(s: string, k: nat, ns: seq<Node>, m: nat, d: nat)
    requires PrintedAt(s, k, ns, m) && 1 <= d <= MAX_NEST && ns != [] && ns[0].Shard?
    ensures MatchFrom(s, k, d) == if d + Nest(ns) <= MAX_NEST then MatchFrom(s, m, d) else -1
    decreases ns, 0
  {
    hide Begins, Ends, Print, WellBefore, At;
    var b, e := PrintedShard(s, k, ns, m);
    OneTag(s, k);
    OneTag(s, e);
    InsideTag(s, e);
    if d < MAX_NEST {
      MatchSkip(s, k + 1, b, d + 1);
      MatchOver(s, b, ns[0].body, e, d + 1);
      EndsAt(s, e);
      MatchSkip(s, e + 1, e + |END|, d);
      MatchOver(s, e + |END|, ns[1..], m, d);
    }
  }
}
