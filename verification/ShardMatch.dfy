/** Matching <?shard#...?> with its <?end-shard?> in a query text: the stack loop of new_query against the
    definition by nesting depth. */
module ShardMatch {
  import opened CStrings

  const BEGIN := "<?shard#"
  const END := "<?end-shard?>"
  const MAX_NEST := 6

  predicate Begins(s: string, k: int) { At(s, k, BEGIN) }

  predicate Ends(s: string, k: int) { At(s, k, END) }

  /** The shard end that matches a shard whose text starts at `k`, with `d` shards open: -1 when there is
      none, or when more than MAX_NEST shards are open at once before it. */
  function MatchFrom(s: string, k: nat, d: nat): (r: int)
    requires k <= |s|
    ensures r == -1 || (k <= r && r + |END| <= |s|)
    decreases |s| - k
  {
    if k == |s| then -1
    else if Begins(s, k) then if d >= MAX_NEST then -1 else MatchFrom(s, k + 1, d + 1)
    else if Ends(s, k) then if d <= 1 then k else MatchFrom(s, k + 1, d - 1)
    else MatchFrom(s, k + 1, d)
  }

  // ----- The definition by depth

  /** How many shards are open at `k` when one is open at `start`. */
  function Depth(s: string, start: nat, k: nat): int
    requires start <= k
  {
    if k == start then 1
    else Depth(s, start, k - 1) + (if Begins(s, k - 1) then 1 else if Ends(s, k - 1) then -1 else 0)
  }

  /** `e` is the first shard end at which the depth returns to zero, and up to there the depth stays
      positive and within the limit. */
  ghost predicate FirstReturn(s: string, start: nat, from: nat, e: int)
    requires start <= from
  {
    && from <= e && Ends(s, e) && Depth(s, start, e) == 1
    && forall k :: from <= k <= e ==> 1 <= Depth(s, start, k) <= MAX_NEST
  }

  lemma TagHead(s: string, k: nat)
    requires Begins(s, k) || Ends(s, k)
    ensures k + 8 <= |s| && s[k] == '<' && s[k + 1] == '?'
    ensures s[k + 2] == if Begins(s, k) then 's' else 'e'
  {
    var p := if Begins(s, k) then BEGIN else END;
    assert s[k] == s[k..k + |p|][0] && s[k + 1] == s[k..k + |p|][1] && s[k + 2] == s[k..k + |p|][2];
  }

  lemma OneTag(s: string, k: int)
    ensures !(Begins(s, k) && Ends(s, k))
    ensures Ends(s, k) ==> k < |s|
  {
    if Begins(s, k) && Ends(s, k) { TagHead(s, k); }
  }

  lemma {:induction false} MatchSound(s: string, start: nat, k: nat)
    requires start <= k <= |s| && 1 <= Depth(s, start, k) <= MAX_NEST
    requires MatchFrom(s, k, Depth(s, start, k)) >= 0
    ensures FirstReturn(s, start, k, MatchFrom(s, k, Depth(s, start, k)))
    decreases |s| - k
  {
    hide Begins, Ends;
    var d := Depth(s, start, k);
    var e := MatchFrom(s, k, d);
    if !(Ends(s, k) && !Begins(s, k) && d == 1) {
      MatchSound(s, start, k + 1);
      assert FirstReturn(s, start, k + 1, e);
    }
  }

  lemma {:induction false} MatchComplete(s: string, start: nat, k: nat, e: nat)
    requires start <= k <= |s| && FirstReturn(s, start, k, e)
    ensures e < |s| && MatchFrom(s, k, Depth(s, start, k)) == e
    decreases e - k
  {
    hide Begins, Ends;
    OneTag(s, k);
    OneTag(s, e);
    if k < e {
      assert Depth(s, start, k + 1) >= 1;
      MatchComplete(s, start, k + 1, e);
    }
  }

  /** The matching end is exactly the first one at which the depth returns to zero. */
  lemma MatchIffFirstReturn(s: string, start: nat, e: nat)
    requires start <= |s|
    ensures MatchFrom(s, start, 1) == e <==> FirstReturn(s, start, start, e)
  {
    if MatchFrom(s, start, 1) == e { MatchSound(s, start, start); }
    if FirstReturn(s, start, start, e) { MatchComplete(s, start, start, e); }
  }

  // ----- The stack loop

  /** No tag starts in between. */
  lemma {:induction false} MatchSkip(s: string, k: nat, m: nat, d: nat)
    requires k <= m <= |s|
    requires forall j :: k <= j < m ==> !Begins(s, j) && !Ends(s, j)
    ensures MatchFrom(s, k, d) == MatchFrom(s, m, d)
    decreases m - k
  {
    if k < m { MatchSkip(s, k + 1, m, d); }
  }

  /** Past a tag's first character, no tag starts before the tag is over. */
  lemma InsideTag(s: string, k: nat)
    requires Begins(s, k) || Ends(s, k)
    ensures forall j :: k < j < k + (if Begins(s, k) then 8 else 13) ==> !Begins(s, j) && !Ends(s, j)
    ensures !(Begins(s, k) && Ends(s, k))
  {
    TagHead(s, k);
    var p := if Begins(s, k) then BEGIN else END;
    forall j | k < j < k + |p| ensures !Begins(s, j) && !Ends(s, j) {
      assert s[j] == s[k..k + |p|][j - k] == p[j - k];
      assert p[j - k] != '<';
      if Begins(s, j) || Ends(s, j) { TagHead(s, j); }
    }
  }

  /** The searches of the loop, in terms of tags. */
  lemma ScanTags(s: string, p: nat)
    requires p <= |s|
    ensures var b := Scan(s, BEGIN, p);
            && (b == -1 || (p <= b && b + 8 <= |s| && Begins(s, b)))
            && forall j :: p <= j < (if b < 0 then |s| + 1 else b) ==> !Begins(s, j)
    ensures var e := Scan(s, END, p);
            && (e == -1 || (p <= e && e + 13 <= |s| && Ends(s, e)))
            && forall j :: p <= j < (if e < 0 then |s| + 1 else e) ==> !Ends(s, j)
  {
    hide Scan;
  }

  lemma RoundBegin(s: string, p: nat, d: nat, b: nat, e: nat)
    requires p <= b < e < |s| && Begins(s, b) && Ends(s, e) && b + 8 <= |s|
    requires forall j :: p <= j < b ==> !Begins(s, j)
    requires forall j :: p <= j < e ==> !Ends(s, j)
    ensures MatchFrom(s, p, d) == (if d >= MAX_NEST then -1 else MatchFrom(s, b + 8, d + 1))
    ensures b + 8 <= e
  {
    InsideTag(s, b);
    hide Begins, Ends;
    MatchSkip(s, p, b, d);
    MatchSkip(s, b + 1, b + 8, d + 1);
  }

  lemma RoundEnd(s: string, p: nat, d: nat, e: nat)
    requires p <= e && e + 13 <= |s| && Ends(s, e) && d >= 1
    requires forall j :: p <= j < e ==> !Begins(s, j) && !Ends(s, j)
    ensures MatchFrom(s, p, d) == (if d == 1 then e else MatchFrom(s, e + 13, d - 1))
  {
    InsideTag(s, e);
    hide Begins, Ends;
    MatchSkip(s, p, e, d);
    if d > 1 { MatchSkip(s, e + 1, e + 13, d - 1); }
  }

  /** One round of the loop, in terms of the next begin `b` and the next end `e` from `p` on. */
  lemma MatchRound(s: string, p: nat, d: nat, b: int, e: int)
    requires p <= |s| && 1 <= d <= MAX_NEST && b == Scan(s, BEGIN, p) && e == Scan(s, END, p)
    ensures e < 0 ==> MatchFrom(s, p, d) == -1
    ensures 0 <= b < e ==>
              && b + 8 <= |s|
              && MatchFrom(s, p, d) == (if d >= MAX_NEST then -1 else MatchFrom(s, b + 8, d + 1))
              && Scan(s, END, b + 8) == e
    ensures e >= 0 && !(0 <= b < e) ==>
              && e + 13 <= |s|
              && MatchFrom(s, p, d) == (if d == 1 then e else MatchFrom(s, e + 13, d - 1))
  {
    hide Scan, MatchFrom, Begins, Ends;
    ScanTags(s, p);
    if e < 0 {
      NoEnd(s, p, d);
    } else if 0 <= b < e {
      RoundBegin(s, p, d, b, e);
      SameEnd(s, p, b + 8);
    } else {
      RoundEnd(s, p, d, e);
    }
  }

  lemma SameEnd(s: string, p: nat, later: nat)
    requires p <= later <= |s| && forall j :: p <= j < later ==> !Ends(s, j)
    ensures Scan(s, END, later) == Scan(s, END, p)
  {
    hide Scan, Ends;
    ScanTags(s, p);
    ScanTags(s, later);
    var a, b := Scan(s, END, p), Scan(s, END, later);
    assert a >= 0 ==> Ends(s, a);
    assert b >= 0 ==> Ends(s, b);
  }

  lemma {:induction false} NoEnd(s: string, k: nat, d: nat)
    requires k <= |s| && forall j :: k <= j <= |s| ==> !Ends(s, j)
    ensures MatchFrom(s, k, d) == -1
    decreases |s| - k
  {
    if k < |s| {
      NoEnd(s, k + 1, d);
      NoEnd(s, k + 1, d + 1);
    }
  }

  /** The loop of new_query with its two stacks; `start` is just behind the opening tag. */
  method FindShardEnd(text: string, start: nat) returns (r: int)
    requires start <= |text|
    ensures r == MatchFrom(text, start, 1)
  {
    hide Scan, MatchFrom;
    var shardStart := start;
    var shardEnd := Scan(text, END, shardStart);
    var stackBegin := new int[MAX_NEST + 1];
    var stackEnd := new int[MAX_NEST + 1];
    var ptr := 0;
    stackBegin[ptr] := shardStart;
    ptr := ptr + 1;
    while true
      invariant 1 <= ptr <= MAX_NEST && shardStart <= |text|
      invariant shardEnd == Scan(text, END, shardStart) && (shardEnd < 0 ==> ptr == 1)
      invariant MatchFrom(text, shardStart, ptr) == MatchFrom(text, start, 1)
      decreases |text| - shardStart
    {
      var inside := Scan(text, BEGIN, shardStart);
      MatchRound(text, shardStart, ptr, inside, shardEnd);
      if inside >= 0 && inside - shardStart < shardEnd - shardStart {
        if ptr >= MAX_NEST { return -1; }
        stackBegin[ptr] := inside;
        ptr := ptr + 1;
        shardStart := inside + |BEGIN|;
      } else {
        ptr := ptr - 1;
        stackEnd[ptr] := shardEnd;
        if ptr == 0 { break; }
        shardStart := shardEnd + |END|;
        shardEnd := Scan(text, END, shardEnd + |END|);
        if shardEnd < 0 {
          MatchRound(text, shardStart, ptr, Scan(text, BEGIN, shardStart), shardEnd);
          return -1;
        }
      }
    }
    r := stackEnd[0];
  }
}
