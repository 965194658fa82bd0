/** What makes a query of a template, and what makes shards the same everywhere (cld.c), told on the template and on
    all uses at once. */
module QueryUses {
  import opened Wrappers
  import opened CStrings
  import opened CharMaps
  import opened ShardMatch
  import opened QueryTree
  import opened QueryExpand
  import opened QueryMeaning
  import QueryText
  import QueryRewrite

  // ----- The uses of a shard

  /** Texts of a shard agree when they are the same, and those of a soft one when they are with every tag turned into a
      placeholder. */
  predicate Agree(soft: bool, a: string, b: string) {
    if !soft then a == b
    else RemoveParams(a).Some? && RemoveParams(b).Some? && RemoveParams(a).value == RemoveParams(b).value
  }

  /** The use `j` gives the shard its text: no use before it has one. */
  predicate Defines(us: seq<Use>, j: nat, name: string)
    requires j < |us|
  {
    && us[j].name == name && us[j].text != ""
    && forall m :: 0 <= m < j && us[m].name == name ==> us[m].text == ""
  }

  /** The shard is declared, and the use agrees with its text, which is the declared one or that of the first use. */
  predicate Fitting(ss: seq<ShardDef>, us: seq<Use>, k: nat)
    requires k < |us|
  {
    var i := ShardIndex(ss, us[k].name, 0);
    && i >= 0
    && (ss[i].text != "" ==> Agree(ss[i].soft, ss[i].text, us[k].text))
    && (ss[i].text == "" ==> forall j :: 0 <= j < k && Defines(us, j, us[k].name) ==> Agree(ss[i].soft, us[j].text, us[k].text))
  }

  lemma {:induction false} IndexKept(ss: seq<ShardDef>, i: nat, text: string, name: string, from: nat)
    requires i < |ss| && from <= |ss|
    ensures ShardIndex(ss[i := ss[i].(text := text)], name, from) == ShardIndex(ss, name, from)
    decreases |ss| - from
  {
    if from < |ss| { IndexKept(ss, i, text, name, from + 1); }
  }

  lemma DefinesNext(us: seq<Use>, j: nat, name: string)
    requires 0 < j < |us|
    ensures Defines(us, j, name) <==> Defines(us[1..], j - 1, name) && (us[0].name == name ==> us[0].text == "")
  {
    var vs := us[1..];
    assert forall m :: 1 <= m < |us| ==> us[m] == vs[m - 1];
    assert forall m :: 0 <= m < |vs| ==> vs[m] == us[m + 1];
  }

  lemma FittingFirst(ss: seq<ShardDef>, us: seq<Use>)
    requires us != []
    ensures Fitting(ss, us, 0) <==> UseShard(ss, us[0].name, us[0].text).Some?
  {
    hide RemoveParams;
  }

  lemma FittingNext(ss: seq<ShardDef>, us: seq<Use>, k: nat)
    requires 0 < k < |us| && UseShard(ss, us[0].name, us[0].text).Some?
    ensures Fitting(ss, us, k) <==> Fitting(UseShard(ss, us[0].name, us[0].text).value, us[1..], k - 1)
  {
    hide RemoveParams, Defines, Agree;
    var i, name := ShardIndex(ss, us[0].name, 0), us[k].name;
    var more := UseShard(ss, us[0].name, us[0].text).value;
    assert us[1..][k - 1] == us[k];
    if ss[i].text == "" { IndexKept(ss, i, us[0].text, name, 0); }
    forall j | 0 < j < k
      ensures us[1..][j - 1] == us[j]
      ensures Defines(us, j, name) <==> Defines(us[1..], j - 1, name) && (us[0].name == name ==> us[0].text == "")
    {
      DefinesNext(us, j, name);
    }
    DefinesStart(us, name);
    FittingBehind(ss, us, k, more);
  }

  lemma DefinesStart(us: seq<Use>, name: string)
    requires us != []
    ensures Defines(us, 0, name) <==> us[0].name == name && us[0].text != ""
  {
  }

  lemma FittingBehind(ss: seq<ShardDef>, us: seq<Use>, k: nat, more: seq<ShardDef>)
    requires 0 < k < |us| && us[1..][k - 1] == us[k] && UseShard(ss, us[0].name, us[0].text) == Some(more)
    requires var i := ShardIndex(ss, us[0].name, 0); i >= 0 && (ss[i].text == "" ==> ShardIndex(more, us[k].name, 0) == ShardIndex(ss, us[k].name, 0))
    requires forall j :: 0 < j < k ==>
               && us[1..][j - 1] == us[j]
               && (Defines(us, j, us[k].name) <==> Defines(us[1..], j - 1, us[k].name) && (us[0].name == us[k].name ==> us[0].text == ""))
    requires Defines(us, 0, us[k].name) <==> us[0].name == us[k].name && us[0].text != ""
    ensures Fitting(ss, us, k) <==> Fitting(more, us[1..], k - 1)
  {
    hide RemoveParams, Defines, Agree;
    var vs, name := us[1..], us[k].name;
    if Fitting(ss, us, k) {
      forall j | 0 <= j < k - 1 && Defines(vs, j, name) && Fitting(ss, us, k)
        ensures us[0].name != name || us[0].text == "" ==> Defines(us, j + 1, name) && vs[j] == us[j + 1]
      {
        assert vs[j + 1 - 1] == us[j + 1];
      }
    }
    if Fitting(more, vs, k - 1) {
      forall j | 0 < j < k && Defines(us, j, name) ensures Defines(vs, j - 1, name) && vs[j - 1] == us[j] {}
    }
  }

  /** All uses of shards are accepted exactly when each agrees with the text of its shard, which is its declared one or
      else that of its first use. */
  lemma {:induction false} UsesIff(ss: seq<ShardDef>, us: seq<Use>)
    ensures UseAll(ss, us).Some? <==> forall k :: 0 <= k < |us| ==> Fitting(ss, us, k)
    decreases |us|
  {
    hide UseShard, Fitting;
    if us != [] {
      FittingFirst(ss, us);
      if UseShard(ss, us[0].name, us[0].text).Some? {
        var more := UseShard(ss, us[0].name, us[0].text).value;
        UsesIff(more, us[1..]);
        forall k | 0 < k < |us| ensures Fitting(ss, us, k) <==> Fitting(more, us[1..], k - 1) {
          FittingNext(ss, us, k);
        }
        assert forall k :: 0 <= k < |us[1..]| ==> (Fitting(more, us[1..], k) <==> Fitting(ss, us, k + 1));
      }
    }
  }

  // ----- What a soft shard compares

  /** The template as bare tags and text: both ends of a shard are tags of their own. */
  function TokensOf(n: Node): seq<Node>
    decreases n, 0
  {
    match n
    case Fragment(name, _) => [Param(FRAGMENT + name)]
    case Shard(name, body) => [Param(SHARD + name)] + (Tokens(body) + [Param(STRAY)])
    case _ => [n]
  }

  function Tokens(ns: seq<Node>): seq<Node>
    decreases ns, 1
  {
    if ns == [] then [] else TokensOf(ns[0]) + Tokens(ns[1..])
  }

  /** Only text and tags, and no half of a tag meets its other half. */
  ghost predicate Bare(ts: seq<Node>, h: string) {
    forall k :: 0 <= k < |ts| ==>
      match ts[k]
      case Plain(t) => PlainText(t) && Fits(t, Head(ts[k + 1..], h))
      case Param(p) => TagInner(p)
      case _ => false
  }

  lemma BareConcat(a: seq<Node>, b: seq<Node>, h: string)
    requires Bare(a, Head(b, h)) && Bare(b, h)
    ensures Bare(a + b, h)
  {
    hide Print, PlainText, TagInner, Head;
    var ts := a + b;
    forall k | 0 <= k < |a| ensures ts[k] == a[k] && Head(ts[k + 1..], h) == Head(a[k + 1..], Head(b, h)) {
      assert ts[k + 1..] == a[k + 1..] + b;
      HeadConcat(a[k + 1..], b, h);
    }
    forall k | |a| <= k < |ts| ensures ts[k] == b[k - |a|] && ts[k + 1..] == b[k - |a| + 1..] {}
  }

  lemma OneTag(p: string, h: string)
    requires TagInner(p)
    ensures Bare([Param(p)], h) && Print([Param(p)]) == OPEN + (p + CLOSE)
  {
    hide TagInner;
    assert [Param(p)][1..] == [];
  }

  lemma OneText(t: string, h: string)
    requires PlainText(t) && Fits(t, h)
    ensures Bare([Plain(t)], h) && Print([Plain(t)]) == t
  {
    hide PlainText;
    assert [Plain(t)][1..] == [] && Print([]) == "";
  }

  lemma StrayTag()
    ensures TagInner(STRAY) && OPEN + (STRAY + CLOSE) == END
  {
    forall k | 0 <= k <= |STRAY| ensures !At(STRAY, k, OPEN) && !At(STRAY, k, CLOSE) { AtPair(STRAY, k); }
  }

  lemma {:induction false} TokensPrint(ns: seq<Node>, h: string)
    requires WellBefore(ns, h)
    ensures Print(Tokens(ns)) == Print(ns) && Bare(Tokens(ns), h)
    decreases ns, 1
  {
    hide Print, PlainText, TagInner, ParamText, Head, Bare, TokensOf, PrintNode, WellBefore;
    if ns == [] {
      NoTokens(h);
    } else {
      PrintFirst(ns, h);
      TokensPrint(ns[1..], h);
      HeadPrinted(ns[1..], Tokens(ns[1..]), h);
      TokensOfPrint(ns, h);
      PrintConcat(TokensOf(ns[0]), Tokens(ns[1..]), []);
      BareConcat(TokensOf(ns[0]), Tokens(ns[1..]), h);
      assert Print(ns) == PrintNode(ns[0]) + Print(ns[1..]) by { PrintOne(ns); }
    }
  }

  lemma PrintOne(ns: seq<Node>)
    requires ns != []
    ensures Print(ns) == PrintNode(ns[0]) + Print(ns[1..])
  {
  }

  lemma {:induction false} TokensOfPrint(ns: seq<Node>, h: string)
    requires ns != [] && WellBefore(ns, h)
    ensures Print(TokensOf(ns[0])) == PrintNode(ns[0]) && Bare(TokensOf(ns[0]), Head(ns[1..], h))
    decreases ns, 0
  {
    hide Print, PlainText, TagInner, ParamText, Head, Bare, WellBefore, Tokens;
    PrintFirst(ns, h);
    if !ns[0].Plain? { TagParts(ns[0]); }
    match ns[0]
    case Plain(t) => OneText(t, Head(ns[1..], h));
    case Param(p) => OneTag(p, Head(ns[1..], h));
    case Fragment(name, _) => OneTag(FRAGMENT + name, Head(ns[1..], h));
    case Shard(name, body) =>
      var end, inner := [Param(STRAY)], Tokens(body);
      var g := Head(ns[1..], h);
      StrayTag();
      OneTag(STRAY, g);
      TagStarts(STRAY, g);
      BeforeOther(body, g, "<");
      TokensPrint(body, "<");
      PrintConcat(inner, end, []);
      BareConcat(inner, end, g);
      OneTag(SHARD + name, Head(inner + end, g));
      PrintConcat([Param(SHARD + name)], inner + end, []);
      BareConcat([Param(SHARD + name)], inner + end, g);
  }

  lemma NoTokens(h: string)
    ensures Tokens([]) == [] && Bare([], h)
  {
  }

  lemma HeadPrinted(a: seq<Node>, b: seq<Node>, h: string)
    requires Print(a) == Print(b)
    ensures Head(a, h) == Head(b, h)
  {
  }

  lemma TagStarts(p: string, h: string)
    ensures Head([Param(p)], h) == "<"
  {
    assert [Param(p)][1..] == [];
    var u := OPEN + (p + CLOSE);
    assert Print([Param(p)]) == u + "" == u && u[..1] == "<";
  }

  lemma RemoveText(t: string, rest: seq<Node>)
    requires PlainText(t) && Fits(t, Head(rest, ""))
    ensures RemoveParams(t + Print(rest)) ==
            (var r := RemoveParams(Print(rest)); if r.None? then None else Some(t + r.value))
  {
    hide Print, At, Scan, IndexOf, PlainText, RemoveParams;
    var u := Print(rest);
    var s := t + u;
    QueryRewrite.RemoveFirst(s);
    QueryRewrite.RemoveFirst(u);
    assert At(s, 0, t) by { AtStart(t, u); }
    assert HeadAt(s, |t|) == Head(rest, "") by { assert u != "" ==> s[|t|..|t| + 1] == u[..1]; }
    TextHasNoTag(s, 0, t);
    IndexSkip(t, u, OPEN);
    var i := IndexOf(u, OPEN);
    if i >= 0 {
      QueryText.ScanBehind(t, u, CLOSE, i + 2);
      var e := Scan(u, CLOSE, i + 2);
      if e >= 0 {
        AtFits(u, e, CLOSE);
        assert s[|t| + e + 2..] == u[e + 2..] && s[..|t| + i] == t + u[..i];
        var r := RemoveParams(u[e + 2..]);
        if r.Some? { assert t + u[..i] + HOLE + r.value == t + (u[..i] + HOLE + r.value); }
      }
    }
  }

  lemma RemoveTag(p: string, u: string)
    requires TagInner(p)
    ensures RemoveParams(OPEN + (p + CLOSE) + u) ==
            (var r := RemoveParams(u); if r.None? then None else Some(HOLE + r.value))
  {
    hide At, Scan, TagInner;
    var x := OPEN + (p + CLOSE);
    var s := x + u;
    assert At(s, 0, x) by { AtStart(x, u); }
    TagCloses(s, 0, p);
    assert IndexOf(s, OPEN) == 0;
    assert s[2 + |p| + 2..] == u && s[..0] == "";
    var r := RemoveParams(u);
    if r.Some? { assert "" + HOLE + r.value == HOLE + r.value; }
  }

  /** Taking the parameters out of a printed template puts a placeholder for each of its tags, and nothing else. */
  lemma {:induction false} RemovedBare(ts: seq<Node>)
    requires Bare(ts, "")
    ensures RemoveParams(Print(ts)) == Some(Sql(ts))
    decreases |ts|
  {
    hide PlainText, TagInner, RemoveParams, Head;
    if ts == [] {
      RemoveNothing();
    } else {
      assert forall k :: 0 <= k < |ts[1..]| ==> ts[1..][k] == ts[k + 1] && ts[1..][k + 1..] == ts[k + 1..][1..];
      BareRest(ts);
      RemovedBare(ts[1..]);
      match ts[0]
      case Plain(t) => RemoveText(t, ts[1..]);
      case Param(p) => RemoveTag(p, Print(ts[1..]));
    }
  }

  lemma BareRest(ts: seq<Node>)
    requires ts != [] && Bare(ts, "")
    ensures Bare(ts[1..], "")
  {
    hide PlainText, TagInner, Head;
    var rest := ts[1..];
    forall k | 0 <= k < |rest| ensures rest[k] == ts[k + 1] && rest[k + 1..] == ts[k + 2..] {}
  }

  lemma RemoveNothing()
    ensures RemoveParams("") == Some("") && Print([]) == "" && Sql([]) == ""
  {
  }

  /** Uses of a soft shard agree exactly when their texts are the same but for what is in their tags. */
  lemma SoftAgree(a: seq<Node>, b: seq<Node>)
    requires WellFormed(a) && WellFormed(b)
    ensures Agree(true, Print(a), Print(b)) <==> Sql(Tokens(a)) == Sql(Tokens(b))
  {
    hide Print, WellBefore, Bare, RemoveParams, Tokens, Sql;
    TokensPrint(a, "");
    TokensPrint(b, "");
    RemovedBare(Tokens(a));
    RemovedBare(Tokens(b));
  }

  // ----- When a template is a query, and which

  /** A template is a query exactly when its fragments are defined and its shards not nested too deep, its uses of shards
      are accepted, its parameters are fewer than 200 and are all its placeholders, and it does not end in a semicolon. */
  lemma CompiledIff(ns: seq<Node>, ss: seq<ShardDef>, fs: seq<FragmentDef>)
    ensures Compiled(ns, ss, fs).Some? <==>
            && Sound(ns, fs) && (forall k :: 0 <= k < |Uses(ns)| ==> Fitting(ss, Uses(ns), k))
            && |Params(ns)| < 200 && Count(Sql(ns), "%s") < 200
            && (IndexOf(Print(ns), OPEN) >= 0 ==> Count(Sql(ns), "%s") == |Params(ns)|)
            && (Sql(ns) != "" ==> Sql(ns)[|Sql(ns)| - 1] != ';')
  {
    hide IndexOf, Count, Expand, UseAll, Sound, Fitting, Print, Sql, Params, Uses;
    ExpandMeaning(ns, State("", [], ss), fs);
    UsesIff(ss, Uses(ns));
    assert "" + Sql(ns) == Sql(ns) && [] + Params(ns) == Params(ns);
  }

  /** Each parameter is de-escaped by itself. */
  lemma {:induction false} DeEscapedIs(params: seq<string>, k: nat)
    requires k < |params|
    ensures |DeEscaped(params)| == |params| && DeEscaped(params)[k] == ReplaceAll(params[k], "\\\"", "\"")
  {
    hide ReplaceAll;
    var n := |params| - 1;
    if n > 0 { DeEscapedIs(params[..n], if k < n then k else 0); }
  }

  const ESCAPED: Table := map['"' := "\\\""]

  /** A parameter whose quotes are escaped comes back without the backslashes. */
  lemma {:induction false} QuotesComeBack(v: string)
    ensures ReplaceAll(MapChars(v, ESCAPED), "\\\"", "\"") == v
    ensures v != "" ==> MapChars(v, ESCAPED) != "" && MapChars(v, ESCAPED)[0] != '"'
  {
    hide ReplaceAll;
    if v == "" {
      NoQuotes();
    } else {
      QuotesComeBack(v[1..]);
      var u := MapChars(v[1..], ESCAPED);
      if v[0] == '"' { QuoteMatched(u); } else { QuoteUnmatched(v[0], u); }
    }
  }

  lemma NoQuotes()
    ensures ReplaceAll("", "\\\"", "\"") == "" && MapChars("", ESCAPED) == ""
  {
    assert IndexOf("", "\\\"") < 0;
  }

  lemma QuoteMatched(t: string)
    ensures ReplaceAll("\\\"" + t, "\\\"", "\"") == "\"" + ReplaceAll(t, "\\\"", "\"")
  {
    var s := "\\\"" + t;
    assert s[..2] == "\\\"" && s[2..] == t;
    assert IndexOf(s, "\\\"") == 0 by { assert At(s, 0, "\\\""); }
    assert s[..0] + "\"" == "\"";
  }

  lemma NoEscapedQuote(c: char, t: string)
    requires t == "" || t[0] != '"'
    ensures !At([c] + t, 0, "\\\"")
  {
    var s := [c] + t;
    assert t != "" ==> s[0..2] == [c, t[0]];
  }

  lemma QuoteUnmatched(c: char, t: string)
    requires t == "" || t[0] != '"'
    ensures ReplaceAll([c] + t, "\\\"", "\"") == [c] + ReplaceAll(t, "\\\"", "\"")
  {
    hide At;
    var s := [c] + t;
    NoEscapedQuote(c, t);
    IndexSkip([c], t, "\\\"");
    var i := IndexOf(t, "\\\"");
    if i >= 0 {
      assert s[..i + 1] == [c] + t[..i] && s[i + 3..] == t[i + 2..];
      assert [c] + (t[..i] + "\"" + ReplaceAll(t[i + 2..], "\\\"", "\"")) ==
             [c] + t[..i] + "\"" + ReplaceAll(t[i + 2..], "\\\"", "\"");
    }
  }
}
