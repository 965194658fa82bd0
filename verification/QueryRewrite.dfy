/** new_query (cld.c): the worklist that rewrites a query in its buffer, against the reading of the text. */
module QueryRewrite {
  import opened Wrappers
  import opened CStrings
  import opened ShardMatch
  import opened QueryTree
  import opened QueryExpand
  import opened QueryText

  // ----- One round of the worklist, in the buffer

  /** Scanning from `curr` on is looking for the first tag of the rest. */
  lemma FoundIn(s: string, curr: nat)
    requires curr <= |s|
    ensures match FindTag(s[curr..])
            case NoTag => Scan(s, OPEN, curr) < 0 && Scan(s, CLOSE, curr) < 0
            case Broken =>
              if Scan(s, OPEN, curr) < 0 then Scan(s, CLOSE, curr) >= 0 else Scan(s, CLOSE, Scan(s, OPEN, curr) + 2) < 0
            case Tagged(b, e) =>
              && Scan(s, OPEN, curr) == curr + b && Scan(s, CLOSE, curr + b + 2) == curr + e
              && (At(s, curr + b, BEGIN) <==> At(s[curr..], b, BEGIN))
    ensures Scan(s, OPEN, curr) >= 0 ==> Scan(s, OPEN, curr) + 2 <= |s|
  {
    hide Scan, At;
    var x, v := s[..curr], s[curr..];
    assert s == x + v;
    ScanBehind(x, v, OPEN, 0);
    ScanBehind(x, v, CLOSE, 0);
    var b := IndexOf(v, OPEN);
    if b >= 0 {
      ScanBehind(x, v, CLOSE, b + 2);
      AtRight(x, v, b, BEGIN);
    }
  }

  /** What comes of the text from `curr` on, behind what is expanded before it; and the tags still in it. */
  function Ongoing(s: string, curr: nat, params: seq<string>, ss: seq<ShardDef>, fs: seq<FragmentDef>, rank: seq<nat>): Option<State>
    requires curr <= |s| && |rank| == |fs|
  {
    Reading(s[curr..], State(s[..curr], params, ss), fs, rank, Top(rank))
  }

  function Ahead(s: string, curr: nat, fs: seq<FragmentDef>, rank: seq<nat>): nat
    requires curr <= |s| && |rank| == |fs|
  {
    Tags(s[curr..], fs, rank, Top(rank))
  }

  /** The fragments still to be met can be put in their places. */
  predicate Prepared(s: string, curr: nat, fs: seq<FragmentDef>, rank: seq<nat>)
    requires curr <= |s| && |rank| == |fs|
  {
    Ready(s[curr..], fs, rank, Top(rank))
  }

  /** From one text, position and tables to the next with the same to come, and with fewer tags ahead. */
  predicate GoesOn(s: string, curr: nat, params: seq<string>, ss: seq<ShardDef>,
                   s': string, curr': nat, params': seq<string>, ss': seq<ShardDef>, fs: seq<FragmentDef>, rank: seq<nat>)
    requires curr <= |s| && |rank| == |fs|
  {
    && curr' <= |s'|
    && Ongoing(s, curr, params, ss, fs, rank) == Ongoing(s', curr', params', ss', fs, rank)
    && Ahead(s', curr', fs, rank) < Ahead(s, curr, fs, rank) && Prepared(s', curr', fs, rank)
  }

  lemma NoTurn(s: string, curr: nat, params: seq<string>, ss: seq<ShardDef>, fs: seq<FragmentDef>, rank: seq<nat>)
    requires curr <= |s| && |rank| == |fs|
    ensures FindTag(s[curr..]).NoTag? ==> Ongoing(s, curr, params, ss, fs, rank) == Some(State(s, params, ss))
    ensures FindTag(s[curr..]).Broken? ==> Ongoing(s, curr, params, ss, fs, rank) == None
  {
    hide FindTag;
    var u, st := s[curr..], State(s[..curr], params, ss);
    assert s[..curr] + u == s;
    if FindTag(u).NoTag? { ReadEnd(u, st, fs, rank, Top(rank)); }
    if FindTag(u).Broken? { assert Read(u, st, fs, rank, Top(rank)) == Stop; }
  }

  lemma ParamTurn(s: string, curr: nat, params: seq<string>, ss: seq<ShardDef>, fs: seq<FragmentDef>, rank: seq<nat>, b: nat, e: nat)
    requires curr <= |s| && |rank| == |fs| && FindTag(s[curr..]) == Tagged(b, e) && !At(s[curr..], b, BEGIN)
    requires !(FRAGMENT <= s[curr + b + 2..curr + e])
    ensures var inner := s[curr + b + 2..curr + e];
            var s' := s[..curr + b] + HOLE + s[curr + e + 2..];
            && Ongoing(s, curr, params, ss, fs, rank) ==
               (if inner == "" || |params| + 1 >= MAX_QUERY_INPUTS then None
                else Ongoing(s', curr + b + 4, params + [inner], ss, fs, rank))
            && Ahead(s', curr + b + 4, fs, rank) < Ahead(s, curr, fs, rank)
            && (Prepared(s, curr, fs, rank) ==> Prepared(s', curr + b + 4, fs, rank))
  {
    hide FindTag, At, MatchFrom, FragmentIndex, Trim;
    BufferCuts(s, curr, b, e);
    var u, inner := s[curr..], s[curr + b + 2..curr + e];
    assert Read(u, State(s[..curr], params, ss), fs, rank, Top(rank)) ==
           if inner == "" || |params| + 1 >= MAX_QUERY_INPUTS then Stop
           else Go(u[e + 2..], State(s[..curr + b] + HOLE, params + [inner], ss));
    assert Left(u) == Some(u[e + 2..]) && Reference(u, fs) == -1;
    var s' := s[..curr + b] + HOLE + s[curr + e + 2..];
    assert s'[curr + b + 4..] == s[curr + e + 2..] && s'[..curr + b + 4] == s[..curr + b] + HOLE;
  }

  lemma BufferCuts(s: string, curr: nat, b: nat, e: nat)
    requires b + 2 <= e && curr + e + 2 <= |s|
    ensures var u := s[curr..];
            && s[..curr] + u[..b] == s[..curr + b] && u[b + 2..e] == s[curr + b + 2..curr + e]
            && u[e + 2..] == s[curr + e + 2..]
  {
  }

  lemma MatchIn(s: string, curr: nat, k: nat)
    requires curr <= |s| && k <= |s| - curr
    ensures MatchFrom(s, curr + k, 1) ==
            if MatchFrom(s[curr..], k, 1) < 0 then -1 else curr + MatchFrom(s[curr..], k, 1)
  {
    assert s == s[..curr] + s[curr..];
    MatchBehind(s[..curr], s[curr..], k, 1);
  }

  lemma ShardTurn(s: string, curr: nat, params: seq<string>, ss: seq<ShardDef>, fs: seq<FragmentDef>, rank: seq<nat>, b: nat, e: nat)
    requires curr <= |s| && |rank| == |fs| && FindTag(s[curr..]) == Tagged(b, e) && At(s[curr..], b, BEGIN)
    ensures var begin, end := curr + b, curr + e;
            var x := MatchFrom(s, end + 2, 1);
            var more := if x < 0 then None else UseShard(ss, Trim(s[begin + 8..end]), s[end + 2..x]);
            if more.None? then Ongoing(s, curr, params, ss, fs, rank) == None
            else
              var s' := s[..begin] + s[end + 2..x] + s[x + |END|..];
              && Ongoing(s, curr, params, ss, fs, rank) == Ongoing(s', begin, params, more.value, fs, rank)
              && Ahead(s', begin, fs, rank) < Ahead(s, curr, fs, rank)
              && (Prepared(s, curr, fs, rank) ==> Prepared(s', begin, fs, rank))
  {
    hide FindTag, At, MatchFrom, FragmentIndex, Trim, UseShard, Read, Left, Reference, Unwrapped;
    BufferCuts(s, curr, b, e);
    MatchIn(s, curr, e + 2);
    var u, st := s[curr..], State(s[..curr], params, ss);
    var y := MatchFrom(u, e + 2, 1);
    ShardRead(u, st, b, e, fs, rank, Top(rank));
    if y >= 0 {
      ShardCuts(s, curr, b, e, y);
      ShardLeft(u, b, e, fs);
    }
  }

  lemma ShardCuts(s: string, curr: nat, b: nat, e: nat, y: nat)
    requires b + 8 <= e && e + 2 <= y && curr + y + 13 <= |s|
    ensures var u, begin, end, x := s[curr..], curr + b, curr + e, curr + y;
            var s' := s[..begin] + s[end + 2..x] + s[x + 13..];
            && u[b + 8..e] == s[begin + 8..end] && u[e + 2..y] == s[end + 2..x]
            && s'[..begin] == s[..begin] && s'[begin..] == Unwrapped(u, e, y)
  {
  }

  lemma FragmentTurn(s: string, curr: nat, params: seq<string>, ss: seq<ShardDef>, fs: seq<FragmentDef>, rank: seq<nat>, b: nat, e: nat)
    requires curr <= |s| && |rank| == |fs| && FindTag(s[curr..]) == Tagged(b, e) && !At(s[curr..], b, BEGIN)
    requires Prepared(s, curr, fs, rank) && FRAGMENT <= s[curr + b + 2..curr + e]
    ensures var begin, end := curr + b, curr + e;
            var i := FragmentIndex(fs, Trim(s[begin + 2..end][|FRAGMENT|..]), 0);
            if i < 0 then Ongoing(s, curr, params, ss, fs, rank) == None
            else
              var s' := s[..begin] + fs[i].text + s[end + 2..];
              && Ongoing(s, curr, params, ss, fs, rank) == Ongoing(s', begin, params, ss, fs, rank)
              && Ahead(s', begin, fs, rank) < Ahead(s, curr, fs, rank) && Prepared(s', begin, fs, rank)
  {
    hide FindTag, At, MatchFrom, FragmentIndex, Trim, UseShard, SelfContained;
    BufferCuts(s, curr, b, e);
    var u, st, top := s[curr..], State(s[..curr], params, ss), Top(rank);
    var i := FragmentIndex(fs, Trim(s[curr + b + 2..curr + e][|FRAGMENT|..]), 0);
    var st1 := State(s[..curr + b], params, ss);
    if i < 0 {
      assert Read(u, st, fs, rank, top) == Stop;
    } else {
      var x, v := fs[i].text, s[curr + e + 2..];
      var st2 := Reading(x, st1, fs, rank, rank[i]);
      assert Left(u) == Some(v) && Reference(u, fs) == i;
      assert Read(u, st, fs, rank, top) == if st2.None? then Stop else Go(v, st2.value);
      ReadConcat(x, v, st1, fs, rank, rank[i], top);
      TagsConcat(x, v, fs, rank, rank[i], top);
      ContainedConcat(x, v, "", fs, rank, rank[i], top);
      var s' := s[..curr + b] + x + v;
      assert s'[..curr + b] == s[..curr + b] && s'[curr + b..] == x + v;
    }
  }

  /** What the removal makes of a text whose first `curr` characters are done. */
  function Removing(s: string, curr: nat): Option<string>
    requires curr <= |s|
  {
    var r := RemoveParams(s[curr..]);
    if r.None? then None else Some(s[..curr] + r.value)
  }

  lemma RemoveStart(s: string)
    ensures Removing(s, 0) == RemoveParams(s)
  {
    assert s[0..] == s && s[..0] == "";
    var r := RemoveParams(s);
    if r.Some? { assert "" + r.value == r.value; }
  }

  /** The search goes on two characters into the placeholder; there is no tag in the rest of that. */
  lemma RemoveHole(v: string)
    ensures RemoveParams("s'" + v) == var r := RemoveParams(v); if r.None? then None else Some("s'" + r.value)
  {
    hide At, Scan, IndexOf, RemoveParams, Text;
    var s := "s'" + v;
    RemoveFirst(s);
    RemoveFirst(v);
    AtPair(s, 0);
    AtPair(s, 1);
    IndexSkip("s'", v, OPEN);
    var i := IndexOf(v, OPEN);
    if i >= 0 {
      ScanBehind("s'", v, CLOSE, i + 2);
      var e := Scan(v, CLOSE, i + 2);
      if e >= 0 {
        AtFits(v, e, CLOSE);
        assert s[2 + e + 2..] == v[e + 2..] && s[..2 + i] == "s'" + v[..i];
        var r := RemoveParams(v[e + 2..]);
        if r.Some? { assert "s'" + v[..i] + HOLE + r.value == "s'" + (v[..i] + HOLE + r.value); }
      }
    }
  }

  lemma RemoveStep(s: string, curr: nat)
    requires curr <= |s|
    ensures var opening := Scan(s, OPEN, curr);
            if opening < 0 then Removing(s, curr) == Some(s)
            else
              var ending := Scan(s, CLOSE, opening + 2);
              && opening + 2 <= |s|
              && if ending < 0 then Removing(s, curr) == None
                 else
                   var s' := s[..opening] + HOLE + s[ending + 2..];
                   && ending + 2 <= |s| && opening + 2 <= |s'| && |s'| - (opening + 2) < |s| - curr
                   && Removing(s', opening + 2) == Removing(s, curr)
  {
    hide At, Scan, IndexOf, RemoveParams;
    var x, v := s[..curr], s[curr..];
    assert s == x + v;
    ScanBehind(x, v, OPEN, 0);
    RemoveFirst(v);
    var i := IndexOf(v, OPEN);
    if i >= 0 {
      AtFits(v, i, OPEN);
      ScanBehind(x, v, CLOSE, i + 2);
      var e := Scan(v, CLOSE, i + 2);
      if e >= 0 {
        AtFits(v, e, CLOSE);
        RemoveHole(v[e + 2..]);
        RemoveCuts(x, v, i, e);
      }
    }
  }

  lemma RemoveFirst(v: string)
    ensures var i := IndexOf(v, OPEN);
            RemoveParams(v) ==
            if i < 0 then Some(v)
            else if Scan(v, CLOSE, i + 2) < 0 then None
            else
              var r := RemoveParams(v[Scan(v, CLOSE, i + 2) + 2..]);
              if r.None? then None else Some(v[..i] + HOLE + r.value)
  {
  }

  lemma RemoveCuts(x: string, v: string, i: nat, e: nat)
    requires i + 2 <= e && e + 2 <= |v|
    ensures var s := x + v;
            var s' := s[..|x| + i] + HOLE + s[|x| + e + 2..];
            && s'[|x| + i + 2..] == "s'" + v[e + 2..] && s'[..|x| + i + 2] == x + v[..i] + "'%"
            && s[..|x|] == x && s[|x|..] == v
    ensures forall r: string :: x + v[..i] + "'%" + ("s'" + r) == x + (v[..i] + HOLE + r)
  {
  }

  lemma CutTwice(s: string, b: nat, q: nat, e: nat)
    requires b <= q <= e && e + 13 <= |s|
    ensures var t := s[..e] + "" + s[e + 13..];
            |t| == |s| - 13 && t[..b] + "" + t[q..] == s[..b] + s[q..e] + s[e + 13..]
  {
  }

  lemma TextClean(a: seq<char>, b: nat, q: nat)
    requires b <= q <= |Text(a)|
    ensures NUL !in Text(a)[..b] && NUL !in Text(a)[q..]
  {
  }

  ghost predicate CleanShards(ss: seq<ShardDef>) {
    forall k :: 0 <= k < |ss| ==> NUL !in ss[k].text
  }

  ghost predicate CleanDefs(fs: seq<FragmentDef>) {
    forall k :: 0 <= k < |fs| ==> NUL !in fs[k].text
  }

  /** The fragment and shard tables of one compilation. */
  class QueryTables {
    var fragments: seq<FragmentDef>
    var shards: seq<ShardDef>

    constructor ()
      ensures fragments == [] && shards == []
    {
      fragments, shards := [], [];
    }

    /** find_query_fragment */
    method FindQueryFragment(name: string) returns (i: int)
      ensures i == FragmentIndex(fragments, name, 0)
      ensures i < 0 <==> forall k :: 0 <= k < |fragments| ==> fragments[k].name != name
      ensures i >= 0 ==> i < |fragments| && fragments[i].name == name && forall k :: 0 <= k < i ==> fragments[k].name != name
    {
      FirstFragment(fragments, name, 0);
      i := 0;
      while i < |fragments|
        invariant 0 <= i <= |fragments|
        invariant FragmentIndex(fragments, name, 0) == FragmentIndex(fragments, name, i)
      {
        if fragments[i].name == name { return; }
        i := i + 1;
      }
      i := -1;
    }

    /** add_query_fragment */
    method AddQueryFragment(name: string, text: string) returns (ok: bool)
      modifies this`fragments
      ensures ok <==> FragmentIndex(old(fragments), name, 0) < 0 && |old(fragments)| != MAX_QUERY_FRAGMENTS
      ensures fragments == if ok then old(fragments) + [FragmentDef(name, text)] else old(fragments)
    {
      var i := FindQueryFragment(name);
      ok := i < 0 && |fragments| != MAX_QUERY_FRAGMENTS;
      if ok { fragments := fragments + [FragmentDef(name, text)]; }
    }

    /** find_query_shard */
    method FindQueryShard(name: string) returns (i: int)
      ensures i == ShardIndex(shards, name, 0)
      ensures i < 0 <==> forall k :: 0 <= k < |shards| ==> shards[k].name != name
      ensures i >= 0 ==> i < |shards| && shards[i].name == name && forall k :: 0 <= k < i ==> shards[k].name != name
    {
      FirstShard(shards, name, 0);
      i := 0;
      while i < |shards|
        invariant 0 <= i <= |shards|
        invariant ShardIndex(shards, name, 0) == ShardIndex(shards, name, i)
      {
        if shards[i].name == name { return; }
        i := i + 1;
      }
      i := -1;
    }

    /** add_query_shard: a declared shard that has no text yet gets its text, keeping its kind. */
    method AddQueryShard(name: string, text: string, soft: bool) returns (ok: bool)
      modifies this`shards
      ensures var i := ShardIndex(old(shards), name, 0);
              && (ok <==> if i < 0 then |old(shards)| != MAX_QUERY_SHARDS else old(shards)[i].text == "")
              && shards == (if !ok then old(shards)
                            else if i < 0 then old(shards) + [ShardDef(name, text, soft)]
                            else old(shards)[i := old(shards)[i].(text := text)])
    {
      var i := FindQueryShard(name);
      if i < 0 {
        ok := |shards| != MAX_QUERY_SHARDS;
        if ok { shards := shards + [ShardDef(name, text, soft)]; }
      } else {
        ok := shards[i].text == "";
        if ok { shards := shards[i := shards[i].(text := text)]; }
      }
    }

    /** remove_sql_params: every <?...?> becomes a placeholder, in place. */
    static method RemoveSqlParams(sql: array<char>) returns (ok: bool)
      requires IsCStr(sql[..])
      modifies sql
      ensures ok == RemoveParams(old(Text(sql[..]))).Some?
      ensures ok ==> IsCStr(sql[..]) && Text(sql[..]) == RemoveParams(old(Text(sql[..]))).value
    {
      hide IsCStr, Text, Scan, RemoveParams, Removing;
      ghost var whole := RemoveParams(Text(sql[..]));
      var curr: nat := 0;
      RemoveStart(Text(sql[..]));
      while true
        invariant IsCStr(sql[..]) && curr <= |Text(sql[..])| && whole == Removing(Text(sql[..]), curr)
        decreases |Text(sql[..])| - curr
      {
        ghost var s := Text(sql[..]);
        RemoveStep(s, curr);
        var opening := Scan(Text(sql[..]), OPEN, curr);
        if opening < 0 { return true; }
        var ending := Scan(Text(sql[..]), CLOSE, opening + 2);
        if ending < 0 { return false; }
        Splice(sql, opening, ending + 2 - opening, HOLE);
        curr := opening + 2;
      }
    }

    /** The shard part of new_query: look up, define or compare. */
    method CheckShard(name: string, text: string) returns (ok: bool)
      requires NUL !in text && CleanShards(shards)
      modifies this`shards
      ensures ok <==> UseShard(old(shards), name, text).Some?
      ensures ok ==> shards == UseShard(old(shards), name, text).value && CleanShards(shards)
    {
      hide RemoveParams, IsCStr, Text;
      var i := FindQueryShard(name);
      if i < 0 { return false; }
      if shards[i].text == "" {
        ok := AddQueryShard(name, text, false);
      } else if shards[i].soft {
        var existingCopy := NewCString(shards[i].text, |shards[i].text| + 1);
        var newCopy := NewCString(text, |text| + 1);
        var ok1 := RemoveSqlParams(existingCopy);
        if !ok1 { return false; }
        var ok2 := RemoveSqlParams(newCopy);
        if !ok2 { return false; }
        ok := Text(existingCopy[..]) == Text(newCopy[..]);
      } else {
        ok := shards[i].text == text;
      }
    }

    /** A shard tag: the text up to the matching end is checked, then both tags are cut out. */
    method ShardAt(qry: array<char>, begin: nat, end: nat) returns (ok: bool)
      requires IsCStr(qry[..]) && begin + 8 <= end && end + 2 <= |Text(qry[..])| && CleanShards(shards)
      modifies this`shards, qry
      ensures var s := old(Text(qry[..]));
              var x := MatchFrom(s, end + 2, 1);
              var more := if x < 0 then None else UseShard(old(shards), Trim(s[begin + 8..end]), s[end + 2..x]);
              && ok == more.Some?
              && (ok ==> shards == more.value && CleanShards(shards) && IsCStr(qry[..])
                         && Text(qry[..]) == s[..begin] + s[end + 2..x] + s[x + |END|..])
    {
      hide IsCStr, Text, UseShard, MatchFrom, Trim;
      var shardName := Trim(Text(qry[..])[begin + 8..end]);
      var shardStart := end + 2;
      var shardEnd := FindShardEnd(Text(qry[..]), shardStart);
      if shardEnd < 0 { return false; }
      ok := CheckShard(shardName, Text(qry[..])[shardStart..shardEnd]);
      if !ok { return; }
      CutTwice(Text(qry[..]), begin, shardStart, shardEnd);
      Splice(qry, shardEnd, |END|, "");
      Splice(qry, begin, shardStart - begin, "");
    }

    /** A fragment reference: a new buffer with the text of the fragment in its place. */
    method FragmentAt(qry: array<char>, begin: nat, end: nat, name: string) returns (ok: bool, newText: array<char>)
      requires IsCStr(qry[..]) && begin + 2 <= end && end + 2 <= |Text(qry[..])| && CleanDefs(fragments)
      ensures var i := FragmentIndex(fragments, name, 0);
              && ok == (i >= 0)
              && (newText == qry || fresh(newText))
              && (ok ==> IsCStr(newText[..])
                         && Text(newText[..]) == Text(qry[..])[..begin] + fragments[i].text + Text(qry[..])[end + 2..])
    {
      hide IsCStr, Text;
      var i := FindQueryFragment(name);
      if i < 0 { return false, qry; }
      ok := true;
      var frag := fragments[i].text;
      var currQryLen := |Text(qry[..])|;
      TextClean(qry[..], begin, end + 2);
      newText := NewCString(Text(qry[..])[..begin] + frag + Text(qry[..])[end + 2..], currQryLen + |frag|);
    }

    /** A parameter: the placeholder takes its place. */
    method ParamAt(qry: array<char>, begin: nat, end: nat)
      requires IsCStr(qry[..]) && begin + 2 < end && end + 2 <= |Text(qry[..])|
      modifies qry
      ensures IsCStr(qry[..])
      ensures Text(qry[..]) == old(Text(qry[..]))[..begin] + HOLE + old(Text(qry[..]))[end + 2..]
    {
      hide IsCStr;
      Splice(qry, begin, end + 2 - begin, HOLE);
    }

    /** One round of new_query: the next tag from `curr` on is handled in the buffer, or in a new one. */
    method Round(qry: array<char>, curr: nat, params: seq<string>, ghost rank: seq<nat>)
      returns (ok: bool, done: bool, more: array<char>, next: nat, newParams: seq<string>)
      requires IsCStr(qry[..]) && curr <= |Text(qry[..])| && CleanDefs(fragments)
      requires |rank| == |fragments| && Prepared(Text(qry[..]), curr, fragments, rank) && CleanShards(shards)
      modifies this`shards, qry
      ensures more == qry || fresh(more)
      ensures !ok ==> Ongoing(old(Text(qry[..])), curr, params, old(shards), fragments, rank) == None
      ensures ok ==> IsCStr(more[..]) && CleanShards(shards) && next <= |Text(more[..])|
      ensures ok && done ==>
                Ongoing(old(Text(qry[..])), curr, params, old(shards), fragments, rank) ==
                Some(State(Text(more[..]), newParams, shards))
      ensures ok && !done ==>
                GoesOn(old(Text(qry[..])), curr, params, old(shards), Text(more[..]), next, newParams, shards, fragments, rank)
    {
      hide IsCStr, Text, Scan, At, FindTag, Ongoing, Ahead, Prepared;
      ghost var s := Text(qry[..]);
      ok, done, more, next, newParams := false, false, qry, curr, params;
      FoundIn(s, curr);
      NoTurn(s, curr, params, shards, fragments, rank);
      var begin := Scan(Text(qry[..]), OPEN, curr);
      if begin < 0 {
        ok, done := Scan(Text(qry[..]), CLOSE, curr) < 0, true;
        return;
      }
      var end := Scan(Text(qry[..]), CLOSE, begin + 2);
      if end < 0 { return; }
      ok, more, next, newParams := TagAt(qry, curr, begin, end, params, rank);
    }

    /** The tag from `begin` to `end`. */
    method TagAt(qry: array<char>, ghost curr: nat, begin: nat, end: nat, params: seq<string>, ghost rank: seq<nat>)
      returns (ok: bool, more: array<char>, next: nat, newParams: seq<string>)
      requires IsCStr(qry[..]) && curr <= begin && begin + 2 <= end && end + 2 <= |Text(qry[..])| && CleanDefs(fragments)
      requires FindTag(Text(qry[..])[curr..]) == Tagged(begin - curr, end - curr)
      requires At(Text(qry[..])[curr..], begin - curr, BEGIN) <==> At(Text(qry[..]), begin, BEGIN)
      requires |rank| == |fragments| && Prepared(Text(qry[..]), curr, fragments, rank) && CleanShards(shards)
      modifies this`shards, qry
      ensures more == qry || fresh(more)
      ensures !ok ==> Ongoing(old(Text(qry[..])), curr, params, old(shards), fragments, rank) == None
      ensures ok ==>
                && IsCStr(more[..]) && CleanShards(shards)
                && GoesOn(old(Text(qry[..])), curr, params, old(shards), Text(more[..]), next, newParams, shards, fragments, rank)
    {
      hide IsCStr, Text, At, FragmentIndex, UseShard, MatchFrom, Trim, FindTag, Ongoing, Ahead, Prepared;
      ghost var s := Text(qry[..]);
      ok, more, next, newParams := false, qry, begin, params;
      var param := Text(qry[..])[begin + 2..end];
      if At(Text(qry[..]), begin, BEGIN) {
        ShardTurn(s, curr, params, shards, fragments, rank, begin - curr, end - curr);
        ok := ShardAt(qry, begin, end);
      } else if param != "" && FRAGMENT <= param {
        FragmentTurn(s, curr, params, shards, fragments, rank, begin - curr, end - curr);
        ok, more := FragmentAt(qry, begin, end, Trim(param[|FRAGMENT|..]));
      } else {
        ParamTurn(s, curr, params, shards, fragments, rank, begin - curr, end - curr);
        if param == "" { return; }
        ParamAt(qry, begin, end);
        next := begin + 4;
        newParams := params + [param];
        ok := |newParams| < MAX_QUERY_INPUTS;
      }
    }

    /** new_query, up to the entry in the query table, for any text: the in-place worklist makes of it what the
        recursive reading makes. */
    method NewQuery(origQry: string, ghost rank: seq<nat>) returns (r: Option<Query>)
      requires NUL !in origQry && CleanDefs(fragments) && CleanShards(shards)
      requires |rank| == |fragments| && Ready(origQry, fragments, rank, Top(rank))
      modifies this`shards
      ensures r == CompiledText(origQry, old(shards), fragments, rank)
      ensures r.Some? ==> shards == Expanded(origQry, old(shards), fragments, rank).value.shards
    {
      hide IsCStr, Text, Ongoing, Ahead, Prepared, Finish, Ready, Reading;
      ghost var fs, whole := fragments, Expanded(origQry, shards, fragments, rank);
      var qry := NewCString(origQry, |origQry| + 1);
      var params: seq<string> := [];
      var isCompact := IndexOf(origQry, OPEN) >= 0;
      var curr: nat := 0;
      Starting(origQry, shards, fs, rank);
      var done := !isCompact;
      while !done
        invariant fresh(qry) && IsCStr(qry[..]) && curr <= |Text(qry[..])|
        invariant whole == if done then Some(State(Text(qry[..]), params, shards))
                           else Ongoing(Text(qry[..]), curr, params, shards, fs, rank)
        invariant fragments == fs && CleanShards(shards) && (!done ==> Prepared(Text(qry[..]), curr, fs, rank))
        decreases !done, Ahead(Text(qry[..]), curr, fs, rank)
      {
        var ok;
        ok, done, qry, curr, params := Round(qry, curr, params, rank);
        if !ok { return None; }
      }
      r := CheckQuery(Text(qry[..]), params, isCompact);
    }

    /** The checks after expansion. */
    method CheckQuery(qry: string, params: seq<string>, isCompact: bool) returns (r: Option<Query>)
      ensures r == Finish(isCompact, State(qry, params, shards))
    {
      hide Count, DeEscaped;
      var totInp := CountSubstring(qry, "%s");
      if isCompact && totInp != |params| { return None; }
      if totInp >= MAX_QUERY_INPUTS { return None; }
      var ql := |qry|;
      if qry != "" && qry[ql - 1] == ';' { return None; }
      r := Some(Query(qry, DeEscaped(params)));
    }
  }

  lemma Starting(u: string, ss: seq<ShardDef>, fs: seq<FragmentDef>, rank: seq<nat>)
    requires |rank| == |fs|
    ensures Expanded(u, ss, fs, rank) ==
            if IndexOf(u, OPEN) < 0 then Some(State(u, [], ss)) else Ongoing(u, 0, [], ss, fs, rank)
    ensures Ready(u, fs, rank, Top(rank)) ==> Prepared(u, 0, fs, rank)
  {
    hide IndexOf;
    assert u[0..] == u && u[..0] == "";
  }
}
