/** Query templates as bare text (cld.c): what new_query makes of any text at all, well formed or not, given
    fragments that are sound on their own. */
module QueryText {
  import opened Wrappers
  import opened CStrings
  import opened ShardMatch
  import opened QueryTree
  import opened QueryExpand

  // ----- The first tag of a text

  /** The first tag, from its `<?` at `b` to its `?>` at `e`. */
  datatype Found = NoTag | Broken | Tagged(b: nat, e: nat)

  function FindTag(u: string): (f: Found)
    ensures f.Tagged? ==> f.b + 2 <= f.e && f.e + 2 <= |u| && (At(u, f.b, BEGIN) ==> f.b + 8 <= f.e)
  {
    var b := IndexOf(u, OPEN);
    if b < 0 then if IndexOf(u, CLOSE) < 0 then NoTag else Broken
    else
      var e := Scan(u, CLOSE, b + 2);
      if e < 0 then Broken else
        CloseAfterBegin(u, b, e);
        Tagged(b, e)
  }

  lemma CloseAfterBegin(u: string, b: nat, e: nat)
    requires b + 2 <= e <= |u| && At(u, e, CLOSE)
    ensures e + 2 <= |u| && (At(u, b, BEGIN) ==> b + 8 <= e)
  {
    AtPair(u, e);
    if At(u, b, BEGIN) && e < b + 8 {
      AtChar(u, b, BEGIN, e - b);
    }
  }

  // ----- Reading a text

  /** What follows the tag that closes at `e`. */
  function BehindTag(u: string, e: nat): (v: string)
    requires e + 2 <= |u|
    ensures |v| < |u|
  {
    u[e + 2..]
  }

  /** The same, with the shard end at `x` cut out. */
  function Unwrapped(u: string, e: nat, x: nat): (w: string)
    requires e + 2 <= x && x + |END| <= |u|
    ensures |w| < |u|
  {
    u[e + 2..x] + u[x + |END|..]
  }

  /** What to do with the first tag: stop with an error, end, or go on with a shorter text. */
  datatype Turn = Stop | End(st: State) | Go(u: string, st: State)

  /** One tag of a text behind what is expanded already.  A fragment is read on its own, which only its rank in the
      order of references allows. */
  function Read(u: string, st: State, fs: seq<FragmentDef>, rank: seq<nat>, bound: nat): (t: Turn)
    requires |rank| == |fs|
    ensures t.Go? ==> |t.u| < |u|
    decreases bound, |u|, 0
  {
    match FindTag(u)
    case Broken => Stop
    case NoTag => End(st.(sql := st.sql + u))
    case Tagged(b, e) =>
      var st1 := st.(sql := st.sql + u[..b]);
      var inner, v := u[b + 2..e], BehindTag(u, e);
      if At(u, b, BEGIN) then
        var x := MatchFrom(u, e + 2, 1);
        if x < 0 then Stop else
          var ss := UseShard(st.shards, Trim(u[b + 8..e]), u[e + 2..x]);
          if ss.None? then Stop else Go(Unwrapped(u, e, x), st1.(shards := ss.value))
      else if inner == "" then Stop
      else if FRAGMENT <= inner then
        var i := FragmentIndex(fs, Trim(inner[|FRAGMENT|..]), 0);
        if i < 0 || rank[i] >= bound then Stop else
          var st2 := Reading(fs[i].text, st1, fs, rank, rank[i]);
          if st2.None? then Stop else Go(v, st2.value)
      else if |st.params| + 1 >= MAX_QUERY_INPUTS then Stop
      else Go(v, st1.(sql := st1.sql + HOLE, params := st.params + [inner]))
  }

  /** The recursive expansion. */
  function Reading(u: string, st: State, fs: seq<FragmentDef>, rank: seq<nat>, bound: nat): Option<State>
    requires |rank| == |fs|
    decreases bound, |u|, 1
  {
    match Read(u, st, fs, rank, bound)
    case Stop => None
    case End(st') => Some(st')
    case Go(w, st') => Reading(w, st', fs, rank, bound)
  }

  function Then(o: Option<State>, v: string, fs: seq<FragmentDef>, rank: seq<nat>, bound: nat): Option<State>
    requires |rank| == |fs|
  {
    if o.None? then None else Reading(v, o.value, fs, rank, bound)
  }

  /** What is left of a text after its first tag, fragments aside: nothing when it cannot be read on. */
  function Left(u: string): (w: Option<string>)
    ensures w.Some? ==> |w.value| < |u|
  {
    match FindTag(u)
    case Broken => None
    case NoTag => None
    case Tagged(b, e) =>
      if !At(u, b, BEGIN) then Some(BehindTag(u, e)) else
        var x := MatchFrom(u, e + 2, 1);
        if x < 0 then None else Some(Unwrapped(u, e, x))
  }

  /** The fragment that the first tag refers to, or -1. */
  function Reference(u: string, fs: seq<FragmentDef>): (i: int)
    ensures -1 <= i < |fs|
  {
    match FindTag(u)
    case Broken => -1
    case NoTag => -1
    case Tagged(b, e) =>
      if At(u, b, BEGIN) || !(FRAGMENT <= u[b + 2..e]) then -1
      else FragmentIndex(fs, Trim(u[b + 2..e][|FRAGMENT|..]), 0)
  }

  /** A text that can be put in front of text that begins with `h`: its tags are closed and its shards ended, it does
      not end in half a tag that `h` completes, and it refers only to fragments of lower rank that can be put where
      they are referred to. */
  predicate SelfContained(u: string, h: string, fs: seq<FragmentDef>, rank: seq<nat>, bound: nat)
    requires |rank| == |fs|
    decreases bound, |u|
  {
    match FindTag(u)
    case Broken => false
    case NoTag => Fits(u, h)
    case Tagged(_, _) =>
      var i := Reference(u, fs);
      && Left(u).Some?
      && (i >= 0 ==> rank[i] < bound && SelfContained(fs[i].text, First(Left(u).value, h), fs, rank, rank[i]))
      && SelfContained(Left(u).value, h, fs, rank, bound)
  }

  /** Any text, as long as the fragments that are met can be put in their places. */
  predicate Ready(u: string, fs: seq<FragmentDef>, rank: seq<nat>, bound: nat)
    requires |rank| == |fs|
    decreases |u|
  {
    Left(u).None? ||
    (var i := Reference(u, fs);
     && (i >= 0 ==> rank[i] < bound && SelfContained(fs[i].text, First(Left(u).value, ""), fs, rank, rank[i]))
     && Ready(Left(u).value, fs, rank, bound))
  }

  /** How many tags a text holds, all fragments read in. */
  function Tags(u: string, fs: seq<FragmentDef>, rank: seq<nat>, bound: nat): nat
    requires |rank| == |fs|
    decreases bound, |u|
  {
    if Left(u).None? then 0 else
      var i := Reference(u, fs);
      1 + (if i >= 0 && rank[i] < bound then Tags(fs[i].text, fs, rank, rank[i]) else 0)
        + Tags(Left(u).value, fs, rank, bound)
  }

  // ----- Texts one behind the other

  lemma {:induction false} MatchAhead(x: string, v: string, k: nat, d: nat)
    requires k <= |x| && MatchFrom(x, k, d) >= 0
    ensures MatchFrom(x + v, k, d) == MatchFrom(x, k, d)
    decreases |x| - k
  {
    var r := MatchFrom(x, k, d);
    assert k + 13 <= |x|;
    AtLeft(x, v, k, BEGIN);
    AtLeft(x, v, k, END);
    if Begins(x, k) {
      MatchAhead(x, v, k + 1, d + 1);
    } else if Ends(x, k) {
      if d > 1 { MatchAhead(x, v, k + 1, d - 1); }
    } else {
      MatchAhead(x, v, k + 1, d);
    }
  }

  lemma ScanAhead(x: string, v: string, p: string, from: nat)
    requires from <= |x| && Scan(x, p, from) >= 0
    ensures Scan(x + v, p, from) == Scan(x, p, from)
  {
    hide At, Scan;
    var r, q := Scan(x, p, from), Scan(x + v, p, from);
    AtFits(x, r, p);
    AtLeft(x, v, r, p);
    if 0 <= q < r {
      AtLeft(x, v, q, p);
    }
  }

  /** A tag of the front text is the first of both. */
  lemma FoundAhead(x: string, v: string)
    requires FindTag(x).Tagged?
    ensures FindTag(x + v) == FindTag(x)
    ensures var b := FindTag(x).b; At(x + v, b, BEGIN) <==> At(x, b, BEGIN)
  {
    hide At, Scan;
    ScanAhead(x, v, OPEN, 0);
    ScanAhead(x, v, CLOSE, FindTag(x).b + 2);
    var b, e := FindTag(x).b, FindTag(x).e;
    AtLeft(x, v, e, CLOSE);
    CloseAfterBegin(x + v, b, e);
    if b + 8 <= e { AtLeft(x, v, b, BEGIN); }
  }

  /** Behind a text without tags that does not end in half of one, everything is as it is on its own. */
  lemma NothingAhead(x: string, v: string, p: string)
    requires p == OPEN || p == CLOSE
    requires IndexOf(x, p) < 0 && Fits(x, First(v, ""))
    ensures forall k :: 0 <= k < |x| ==> !At(x + v, k, p)
    ensures IndexOf(x + v, p) == if IndexOf(v, p) < 0 then -1 else |x| + IndexOf(v, p)
  {
    hide At, IndexOf;
    forall k | 0 <= k < |x| ensures !At(x + v, k, p) {
      AtPair(x + v, k);
      if k + 2 <= |x| { AtLeft(x, v, k, p); }
    }
    IndexSkip(x, v, p);
  }

  lemma ScanBehind(x: string, v: string, p: string, from: nat)
    requires from <= |v|
    ensures Scan(x + v, p, |x| + from) == if Scan(v, p, from) < 0 then -1 else |x| + Scan(v, p, from)
  {
    hide At, Scan;
    var r, q := Scan(x + v, p, |x| + from), Scan(v, p, from);
    if q >= 0 { AtRight(x, v, q, p); AtFits(v, q, p); }
    if r >= 0 { AtRight(x, v, r - |x|, p); AtFits(x + v, r, p); }
  }

  lemma FoundBehind(x: string, v: string)
    requires FindTag(x) == NoTag && Fits(x, First(v, ""))
    ensures FindTag(x + v) == match FindTag(v) case Tagged(b, e) => Tagged(|x| + b, |x| + e) case f => f
    ensures FindTag(v).Tagged? ==> (At(x + v, |x| + FindTag(v).b, BEGIN) <==> At(v, FindTag(v).b, BEGIN))
  {
    hide At, Scan, IndexOf;
    NothingAhead(x, v, OPEN);
    NothingAhead(x, v, CLOSE);
    if IndexOf(v, OPEN) >= 0 {
      ScanBehind(x, v, CLOSE, IndexOf(v, OPEN) + 2);
      AtRight(x, v, IndexOf(v, OPEN), BEGIN);
    }
  }

  lemma {:induction false} MatchBehind(x: string, v: string, k: nat, d: nat)
    requires k <= |v|
    ensures MatchFrom(x + v, |x| + k, d) == if MatchFrom(v, k, d) < 0 then -1 else |x| + MatchFrom(v, k, d)
    decreases |v| - k
  {
    hide At;
    if k < |v| {
      AtRight(x, v, k, BEGIN);
      AtRight(x, v, k, END);
      MatchBehind(x, v, k + 1, d + 1);
      MatchBehind(x, v, k + 1, d);
      if d > 1 { MatchBehind(x, v, k + 1, d - 1); }
    }
  }

  /** Behind a text without tags: the same turn, that text having been expanded. */
  lemma ReadBehind(x: string, v: string, st: State, fs: seq<FragmentDef>, rank: seq<nat>, bound: nat)
    requires |rank| == |fs| && FindTag(x) == NoTag && Fits(x, First(v, ""))
    ensures Read(x + v, st, fs, rank, bound) == Read(v, st.(sql := st.sql + x), fs, rank, bound)
  {
    hide FindTag, At, MatchFrom, UseShard, FragmentIndex, Reading, Trim, Fits;
    FoundBehind(x, v);
    match FindTag(v)
    case Broken =>
    case NoTag => Assoc(st.sql, x, v);
    case Tagged(b, e) =>
      if At(v, b, BEGIN) {
        ShardReadBehind(x, v, st, fs, rank, bound);
      } else {
        BehindCuts(x, v, b, e);
        Assoc(st.sql, x, v[..b]);
      }
  }

  lemma ShardReadBehind(x: string, v: string, st: State, fs: seq<FragmentDef>, rank: seq<nat>, bound: nat)
    requires |rank| == |fs| && FindTag(x) == NoTag && Fits(x, First(v, ""))
    requires FindTag(v).Tagged? && At(v, FindTag(v).b, BEGIN)
    ensures Read(x + v, st, fs, rank, bound) == Read(v, st.(sql := st.sql + x), fs, rank, bound)
  {
    hide FindTag, At, MatchFrom, UseShard, Read, Trim, Fits, Unwrapped;
    FoundBehind(x, v);
    var b, e := FindTag(v).b, FindTag(v).e;
    MatchBehind(x, v, e + 2, 1);
    BehindCuts(x, v, b, e);
    Assoc(st.sql, x, v[..b]);
    ShardRead(v, st.(sql := st.sql + x), b, e, fs, rank, bound);
    ShardRead(x + v, st, |x| + b, |x| + e, fs, rank, bound);
    var y := MatchFrom(v, e + 2, 1);
    if y >= 0 { BehindShard(x, v, b, e, y); }
  }

  lemma BehindCuts(x: string, v: string, b: nat, e: nat)
    requires b + 2 <= e && e + 2 <= |v|
    ensures (x + v)[..|x| + b] == x + v[..b]
    ensures (x + v)[|x| + b + 2..|x| + e] == v[b + 2..e] && (x + v)[|x| + e + 2..] == v[e + 2..]
  {
  }

  lemma BehindShard(x: string, v: string, b: nat, e: nat, y: nat)
    requires b + 8 <= e && e + 2 <= y && y + 13 <= |v|
    ensures (x + v)[|x| + b + 8..|x| + e] == v[b + 8..e]
    ensures (x + v)[|x| + e + 2..|x| + y] == v[e + 2..y]
    ensures (x + v)[|x| + y + 13..] == v[y + 13..] && Unwrapped(x + v, |x| + e, |x| + y) == Unwrapped(v, e, y)
  {
  }

  function Before(t: Turn, v: string): Turn {
    match t case Go(w, st) => Go(w + v, st) case _ => t
  }

  /** In front of other text: the same turn, the rest having that text behind it. */
  lemma ReadAhead(x: string, v: string, st: State, fs: seq<FragmentDef>, rank: seq<nat>, low: nat, bound: nat)
    requires |rank| == |fs| && low <= bound && FindTag(x).Tagged? && SelfContained(x, First(v, ""), fs, rank, low)
    ensures var t := Read(x, st, fs, rank, low);
            && Read(x + v, st, fs, rank, bound) == Before(t, v)
            && !t.End? && (t.Go? ==> SelfContained(t.u, First(v, ""), fs, rank, low))
  {
    hide FindTag, At, MatchFrom, UseShard, FragmentIndex, Reading, Trim, Fits;
    FoundAhead(x, v);
    var b, e := FindTag(x).b, FindTag(x).e;
    AheadCuts(x, v, b, e);
    if At(x, b, BEGIN) {
      var y := MatchFrom(x, e + 2, 1);
      MatchAhead(x, v, e + 2, 1);
      AheadShard(x, v, b, e, y);
    }
  }

  lemma AheadCuts(x: string, v: string, b: nat, e: nat)
    requires b + 2 <= e && e + 2 <= |x|
    ensures (x + v)[..b] == x[..b] && (x + v)[b + 2..e] == x[b + 2..e] && (x + v)[e + 2..] == x[e + 2..] + v
  {
  }

  lemma AheadShard(x: string, v: string, b: nat, e: nat, y: nat)
    requires b + 8 <= e && e + 2 <= y && y + 13 <= |x|
    ensures (x + v)[b + 8..e] == x[b + 8..e] && (x + v)[e + 2..y] == x[e + 2..y]
    ensures (x + v)[e + 2..y] + (x + v)[y + 13..] == x[e + 2..y] + x[y + 13..] + v
  {
  }

  /** Reading a self-contained text and then another is reading both together. */
  lemma {:induction false} ReadConcat(x: string, v: string, st: State, fs: seq<FragmentDef>, rank: seq<nat>, low: nat, bound: nat)
    requires |rank| == |fs| && low <= bound && SelfContained(x, First(v, ""), fs, rank, low)
    ensures Reading(x + v, st, fs, rank, bound) == Then(Reading(x, st, fs, rank, low), v, fs, rank, bound)
    decreases |x|
  {
    hide Read, FindTag;
    if FindTag(x).Tagged? {
      ReadAhead(x, v, st, fs, rank, low, bound);
      var t := Read(x, st, fs, rank, low);
      if t.Go? { ReadConcat(t.u, v, t.st, fs, rank, low, bound); }
    } else {
      ReadBehind(x, v, st, fs, rank, bound);
      ReadEnd(x, st, fs, rank, low);
    }
  }

  lemma ReadEnd(x: string, st: State, fs: seq<FragmentDef>, rank: seq<nat>, bound: nat)
    requires |rank| == |fs| && FindTag(x) == NoTag
    ensures Read(x, st, fs, rank, bound) == End(st.(sql := st.sql + x))
  {
  }

  lemma LeftBehind(x: string, v: string, fs: seq<FragmentDef>)
    requires FindTag(x) == NoTag && Fits(x, First(v, ""))
    ensures Left(x + v) == Left(v) && Reference(x + v, fs) == Reference(v, fs)
  {
    hide FindTag, At, MatchFrom, FragmentIndex, Trim, Fits;
    FoundBehind(x, v);
    match FindTag(v)
    case Broken =>
    case NoTag =>
    case Tagged(b, e) =>
      MatchBehind(x, v, e + 2, 1);
      BehindCuts(x, v, b, e);
      if At(v, b, BEGIN) && MatchFrom(v, e + 2, 1) >= 0 { BehindShard(x, v, b, e, MatchFrom(v, e + 2, 1)); }
  }

  lemma LeftAhead(x: string, v: string, fs: seq<FragmentDef>)
    requires FindTag(x).Tagged? && Left(x).Some?
    ensures Left(x + v) == Some(Left(x).value + v) && Reference(x + v, fs) == Reference(x, fs)
  {
    hide FindTag, At, MatchFrom, FragmentIndex, Trim;
    FoundAhead(x, v);
    var b, e := FindTag(x).b, FindTag(x).e;
    AheadCuts(x, v, b, e);
    if At(x, b, BEGIN) {
      var y := MatchFrom(x, e + 2, 1);
      MatchAhead(x, v, e + 2, 1);
      AheadShard(x, v, b, e, y);
    }
  }

  lemma {:induction false} TagsConcat(x: string, v: string, fs: seq<FragmentDef>, rank: seq<nat>, low: nat, bound: nat)
    requires |rank| == |fs| && low <= bound && SelfContained(x, First(v, ""), fs, rank, low)
    ensures Tags(x + v, fs, rank, bound) == Tags(x, fs, rank, low) + Tags(v, fs, rank, bound)
    decreases |x|
  {
    hide Left, Reference, FindTag;
    if FindTag(x).Tagged? {
      LeftAhead(x, v, fs);
      TagsConcat(Left(x).value, v, fs, rank, low, bound);
    } else {
      LeftBehind(x, v, fs);
      NoLeft(x);
    }
  }

  lemma FitsBoth(x: string, v: string, h: string)
    requires Fits(x, First(v, h))
    ensures Fits(x, First(v, "")) && (Fits(v, h) ==> Fits(x + v, h))
  {
  }

  lemma FirstTwice(x: string, v: string, h: string)
    ensures First(x + v, h) == First(x, First(v, h))
  {
  }

  /** One text that can be put in its place behind another. */
  lemma {:induction false} ContainedConcat(x: string, v: string, h: string, fs: seq<FragmentDef>, rank: seq<nat>, low: nat, bound: nat)
    requires |rank| == |fs| && low <= bound && SelfContained(x, First(v, h), fs, rank, low)
    ensures SelfContained(v, h, fs, rank, bound) ==> SelfContained(x + v, h, fs, rank, bound)
    ensures Ready(v, fs, rank, bound) && h == "" ==> Ready(x + v, fs, rank, bound)
    decreases |x|
  {
    hide Left, Reference, FindTag, Fits, First;
    if FindTag(x).Tagged? {
      var w := Left(x).value;
      FoundAhead(x, v);
      LeftAhead(x, v, fs);
      FirstTwice(w, v, h);
      ContainedConcat(w, v, h, fs, rank, low, bound);
    } else {
      FitsBoth(x, v, h);
      FoundBehind(x, v);
      LeftBehind(x, v, fs);
      NoLeft(x);
    }
  }

  lemma NoLeft(x: string)
    requires !FindTag(x).Tagged?
    ensures Left(x).None?
  {
  }

  // ----- One turn, by kind of tag

  lemma ShardRead(u: string, st: State, b: nat, e: nat, fs: seq<FragmentDef>, rank: seq<nat>, bound: nat)
    requires |rank| == |fs| && FindTag(u) == Tagged(b, e) && At(u, b, BEGIN)
    ensures var x := MatchFrom(u, e + 2, 1);
            var more := if x < 0 then None else UseShard(st.shards, Trim(u[b + 8..e]), u[e + 2..x]);
            Read(u, st, fs, rank, bound) ==
            if more.None? then Stop
            else Go(Unwrapped(u, e, x), State(st.sql + u[..b], st.params, more.value))
  {
    hide FindTag, At, MatchFrom, FragmentIndex, Trim, UseShard;
  }

  lemma ShardLeft(u: string, b: nat, e: nat, fs: seq<FragmentDef>)
    requires FindTag(u) == Tagged(b, e) && At(u, b, BEGIN) && MatchFrom(u, e + 2, 1) >= 0
    ensures Left(u) == Some(Unwrapped(u, e, MatchFrom(u, e + 2, 1)))
    ensures Reference(u, fs) == -1
  {
    hide FindTag, At, MatchFrom;
  }

  lemma ParamRead(s: string, b: nat, p: string, st: State, fs: seq<FragmentDef>, rank: seq<nat>, bound: nat)
    requires |rank| == |fs| && FindTag(s) == Tagged(b, b + 2 + |p|) && !At(s, b, BEGIN)
    requires b + 4 + |p| <= |s| && s[b + 2..b + 2 + |p|] == p && p != "" && !(FRAGMENT <= p)
    ensures Read(s, st, fs, rank, bound) ==
            if |st.params| + 1 >= MAX_QUERY_INPUTS then Stop
            else Go(s[b + 4 + |p|..], State(st.sql + s[..b] + HOLE, st.params + [p], st.shards))
    ensures Left(s) == Some(s[b + 4 + |p|..]) && Reference(s, fs) == -1
  {
    hide FindTag, At, MatchFrom, FragmentIndex, Trim;
  }

  lemma FragmentRead(s: string, b: nat, x: string, st: State, fs: seq<FragmentDef>, rank: seq<nat>, bound: nat)
    requires |rank| == |fs| && FindTag(s) == Tagged(b, b + 2 + |x|) && !At(s, b, BEGIN)
    requires b + 4 + |x| <= |s| && s[b + 2..b + 2 + |x|] == x && FRAGMENT <= x
    ensures var i := FragmentIndex(fs, Trim(x[|FRAGMENT|..]), 0);
            && Reference(s, fs) == i && Left(s) == Some(s[b + 4 + |x|..])
            && Read(s, st, fs, rank, bound) ==
               if i < 0 || rank[i] >= bound then Stop
               else
                 var st2 := Reading(fs[i].text, State(st.sql + s[..b], st.params, st.shards), fs, rank, rank[i]);
                 if st2.None? then Stop else Go(s[b + 4 + |x|..], st2.value)
  {
    hide FindTag, At, MatchFrom, FragmentIndex, Trim;
  }

  // ----- The whole template

  function Top(rank: seq<nat>): (t: nat)
    ensures forall i :: 0 <= i < |rank| ==> rank[i] < t
  {
    if rank == [] then 0 else
      var t := Top(rank[1..]);
      assert forall i :: 1 <= i < |rank| ==> rank[i] == rank[1..][i - 1];
      if rank[0] < t then t else rank[0] + 1
  }

  /** What new_query makes of any text.  Without a tag opening it is taken as it is. */
  function Expanded(u: string, ss: seq<ShardDef>, fs: seq<FragmentDef>, rank: seq<nat>): Option<State>
    requires |rank| == |fs|
  {
    if IndexOf(u, OPEN) < 0 then Some(State(u, [], ss)) else Reading(u, State("", [], ss), fs, rank, Top(rank))
  }

  function CompiledText(u: string, ss: seq<ShardDef>, fs: seq<FragmentDef>, rank: seq<nat>): Option<Query>
    requires |rank| == |fs|
  {
    var st := Expanded(u, ss, fs, rank);
    if st.None? then None else Finish(IndexOf(u, OPEN) >= 0, st.value)
  }
}
