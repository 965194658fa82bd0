/** Who begins and ends the transactions of a program (mys.c), told on the log of the server and with the words of the
    requests. */
module DbRequests {
  import opened Wrappers
  import opened DbConnection

  // ----- One call

  /** Ending a transaction: at most a connection, then the request and the end of the transaction; nothing at all only when no
      connection can be made.  It is done exactly when the server says so. */
  predicate Requests(call: Call, request: string, d: Conn) {
    var n := if d.con.Some? then 0 else 1;
    var c := if d.con.Some? then d.con.value else d.next;
    || (call.added == [] && d.con.None? && call.st == Exited)
    || (&& |call.added| == n + 2 && (n == 1 ==> call.added[0] == Connect(c))
        && call.added[n].Sent? && call.added[n].c == c && call.added[n].stmt == request && call.added[n + 1] == Ended
        && call.st == (if call.added[n].reply == Fine then Done else Failed(1)) && !call.now.inTxn)
  }

  lemma CommitRequests(d: Conn, world: nat -> Reply)
    ensures Requests(Called(Commit, d, world), "commit", d)
  {
  }

  lemma RollbackRequests(d: Conn, world: nat -> Reply)
    ensures Requests(Called(Rollback, d, world), "rollback", d)
  {
  }

  /** Checking for an open transaction: it is rolled back, left open or the end of the program, by mode. */
  lemma CheckRequests(mode: int, d: Conn, world: nat -> Reply)
    ensures var call := Called(Check(mode), d, world);
            && (!d.inTxn || mode == 1 ==> call == Call([], Done, d))
            && (d.inTxn && mode == 2 ==> call == Called(Rollback, d, world).(st := Done))
            && (d.inTxn && mode != 1 && mode != 2 ==> call.added == [] && call.st == Exited)
  {
  }

  /** Beginning: the last request is "start transaction", the reply was fine and the transaction is begun where it was
      sent; or nothing is begun and the program ends. */
  lemma BeginRequests(d: Conn, world: nat -> Reply)
    ensures var call := Called(Begin, d, world);
            var n := |call.added|;
            && (forall k :: 0 <= k < n && call.added[k].Sent? ==> call.added[k].stmt == "start transaction")
            && if call.st == Exited then forall k :: 0 <= k < n ==> !call.added[k].Begun? && !call.added[k].Ended?
            else
              && call.st == Done && n >= 2 && call.added[n - 1].Begun? && call.now.inTxn
              && call.added[n - 2] == Sent(call.added[n - 1].c, "start transaction", Fine)
              && (forall k :: 0 <= k < n - 1 ==> !call.added[k].Begun? && !call.added[k].Ended?)
  {
  }

  /** A statement begins and ends nothing; closing ends what there is. */
  lemma OtherRequests(s: string, d: Conn, world: nat -> Reply)
    ensures forall k :: 0 <= k < |Called(Execute(s), d, world).added| ==>
              var e := Called(Execute(s), d, world).added[k]; e.Connect? || (e.Sent? && e.stmt == s)
    ensures Called(Close, d, world).added == if d.con.Some? then [Ended] else []
  {
  }

  /** A statement is answered by the last reply it got: by nothing only when no connection can be made. */
  lemma StatementEnds(s: string, d: Conn, world: nat -> Reply)
    ensures var call := Called(Execute(s), d, world);
            var n := |call.added|;
            if n == 0 then call.st == Exited
            else
              && call.added[n - 1].Sent?
              && call.st == match call.added[n - 1].reply
                            case Fine => Done
                            case DuplicateKey => Failed(1062)
                            case ConnectionLost => Exited
                            case OtherError(number) => Failed(number)
  {
  }

  /** A statement is sent again exactly when it was lost outside a transaction and a new connection can be made: its login
      and both statements that set it up are fine. */
  lemma SentAgain(s: string, c: nat, d: Conn, world: nat -> Reply)
    requires d.con == Some(c)
    ensures var log := Called(Execute(s), d, world).added;
            if world(d.t) == ConnectionLost && !d.inTxn
               && world(d.t + 1) == Fine && world(d.t + 2) == Fine && world(d.t + 3) == Fine
            then log == [Sent(c, s, ConnectionLost), Connect(d.next), Sent(d.next, s, world(d.t + 4))]
            else log == [Sent(c, s, world(d.t))]
  {
  }

  // ----- Whole programs

  /** How a call ends a transaction with the event `i` of the log, its own events beginning at `from`. */
  predicate EndsBy(op: Op, log: seq<Event>, from: nat, i: nat) {
    match op
    case Commit => from < i <= |log| && log[i - 1].Sent? && log[i - 1].stmt == "commit"
    case Rollback => from < i <= |log| && log[i - 1].Sent? && log[i - 1].stmt == "rollback"
    case Check(mode) => mode == 2 && from < i <= |log| && log[i - 1].Sent? && log[i - 1].stmt == "rollback"
    case Close => from == i
    case _ => false
  }

  predicate BeginsBy(op: Op, log: seq<Event>, from: nat, i: nat) {
    op == Begin && from < i < |log| && log[i].Begun? && log[i - 1] == Sent(log[i].c, "start transaction", Fine)
  }

  /** The event `i` of the log was made by the call `k` of the program. */
  predicate MadeBy(ops: seq<Op>, d: Conn, world: nat -> Reply, k: nat, i: nat)
    requires k < |ops|
  {
    |RunLog(ops[..k], d, world)| <= i < |RunLog(ops[..k + 1], d, world)|
  }

  /** A call that ends a transaction, or begins one, does it in its own words. */
  lemma CallAlone(op: Op, d: Conn, world: nat -> Reply, i: nat)
    requires var log := Called(op, d, world).added; i < |log| && (log[i].Ended? || log[i].Begun?)
    ensures var log := Called(op, d, world).added;
            if log[i].Ended? then EndsBy(op, log, 0, i) else BeginsBy(op, log, 0, i)
  {
    hide Ending, Execution, Beginning;
    match op
    case Execute(s) => OtherRequests(s, d, world);
    case Begin => BeginRequests(d, world);
    case Commit => CommitRequests(d, world);
    case Rollback => RollbackRequests(d, world);
    case Check(mode) =>
      CheckRequests(mode, d, world);
      RollbackRequests(d, world);
    case Close => OtherRequests("", d, world);
  }

  lemma Shifted(op: Op, a: seq<Event>, x: seq<Event>, b: seq<Event>, i: nat)
    requires i < |x|
    ensures EndsBy(op, x, 0, i) ==> EndsBy(op, a + x + b, |a|, |a| + i)
    ensures BeginsBy(op, x, 0, i) ==> BeginsBy(op, a + x + b, |a|, |a| + i)
  {
    var log := a + x + b;
    assert log[|a| + i] == x[i] && (i > 0 ==> log[|a| + i - 1] == x[i - 1]);
  }

  lemma LogFirst(ops: seq<Op>, d: Conn, world: nat -> Reply, k: nat)
    requires 0 < k <= |ops|
    ensures var call := Called(ops[0], d, world);
            RunLog(ops[..k], d, world) ==
            call.added + (if call.st == Exited then [] else RunLog(ops[1..][..k - 1], call.now, world))
  {
    hide Called;
    assert ops[..k][1..] == ops[1..][..k - 1];
  }

  /** The log is what the calls before `k` add, then what `k` adds, then the rest. */
  predicate Located(ops: seq<Op>, d: Conn, world: nat -> Reply, k: nat, e: Conn, rest: seq<Event>) {
    && k < |ops|
    && RunLog(ops[..k + 1], d, world) == RunLog(ops[..k], d, world) + Called(ops[k], e, world).added
    && RunLog(ops, d, world) == RunLog(ops[..k], d, world) + Called(ops[k], e, world).added + rest
  }

  lemma {:induction false} Locate(ops: seq<Op>, d: Conn, world: nat -> Reply, i: nat) returns (k: nat, e: Conn, rest: seq<Event>)
    requires i < |RunLog(ops, d, world)|
    ensures Located(ops, d, world, k, e, rest) && MadeBy(ops, d, world, k, i)
    decreases |ops|
  {
    hide Called;
    var call := Called(ops[0], d, world);
    if i < |call.added| {
      k, e, rest := 0, d, if call.st == Exited then [] else RunLog(ops[1..], call.now, world);
      LogFirst(ops, d, world, 1);
      LogNothing(ops, d, world);
      LogNothing(ops[1..], call.now, world);
      assert call.added + [] == call.added && [] + call.added == call.added;
    } else {
      var j;
      j, e, rest := Locate(ops[1..], call.now, world, i - |call.added|);
      k := j + 1;
      LocatedBehind(ops, d, world, j, e, rest);
    }
  }

  lemma LogNothing(ops: seq<Op>, d: Conn, world: nat -> Reply)
    ensures ops[..0] == [] && RunLog([], d, world) == []
  {
  }

  lemma LocatedBehind(ops: seq<Op>, d: Conn, world: nat -> Reply, j: nat, e: Conn, rest: seq<Event>)
    requires ops != [] && Called(ops[0], d, world).st != Exited
    requires Located(ops[1..], Called(ops[0], d, world).now, world, j, e, rest)
    ensures Located(ops, d, world, j + 1, e, rest)
    ensures forall i: nat :: MadeBy(ops[1..], Called(ops[0], d, world).now, world, j, i) ==>
              MadeBy(ops, d, world, j + 1, i + |Called(ops[0], d, world).added|)
  {
    hide Called, RunLog;
    var call := Called(ops[0], d, world);
    LogFirst(ops, d, world, j + 1);
    LogFirst(ops, d, world, j + 2);
    LogFirst(ops, d, world, |ops|);
    assert ops[..|ops|] == ops && ops[1..][..|ops| - 1] == ops[1..] && ops[1..][j] == ops[j + 1];
    Regrouped(call.added, RunLog(ops[1..][..j], call.now, world), Called(ops[j + 1], e, world).added, rest);
  }

  lemma Regrouped(a: seq<Event>, b: seq<Event>, c: seq<Event>, r: seq<Event>)
    ensures a + (b + c) == (a + b) + c && a + (b + c + r) == a + b + c + r
  {
  }

  /** Over every program and every server: each transaction that ends is ended by a call of its own, a commit by
      "commit", a rollback or a check that rolls back by "rollback", or by closing the connection; and each that begins is
      begun by a call, after a fine "start transaction" on its connection. */
  lemma WhoEnds(ops: seq<Op>, d: Conn, world: nat -> Reply, i: nat) returns (k: nat)
    requires var log := RunLog(ops, d, world); i < |log| && (log[i].Ended? || log[i].Begun?)
    ensures k < |ops| && MadeBy(ops, d, world, k, i)
    ensures var log, from := RunLog(ops, d, world), |RunLog(ops[..k], d, world)|;
            if log[i].Ended? then EndsBy(ops[k], log, from, i) else BeginsBy(ops[k], log, from, i)
  {
    hide Called, RunLog, EndsBy, BeginsBy;
    var e, rest;
    k, e, rest := Locate(ops, d, world, i);
    var a := RunLog(ops[..k], d, world);
    CallAlone(ops[k], e, world, i - |a|);
    Shifted(ops[k], a, Called(ops[k], e, world).added, rest, i - |a|);
  }

  // ----- Which call sends what

  /** The request at `i` was sent by the call whose events end at `to`. */
  predicate SendsBy(op: Op, log: seq<Event>, to: nat, i: nat) {
    i < |log| && log[i].Sent? &&
    match op
    case Execute(s) => log[i].stmt == s
    case Begin => log[i].stmt == "start transaction"
    case Commit => log[i].stmt == "commit" && i + 1 < to
    case Rollback => log[i].stmt == "rollback"
    case Check(_) => log[i].stmt == "rollback"
    case Close => false
  }

  lemma SentAlone(op: Op, d: Conn, world: nat -> Reply, i: nat)
    requires var log := Called(op, d, world).added; i < |log| && log[i].Sent?
    ensures var log := Called(op, d, world).added; SendsBy(op, log, |log|, i)
  {
    hide Ending, Execution;
    match op
    case Execute(s) => OtherRequests(s, d, world);
    case Begin => BeginRequests(d, world);
    case Commit => CommitRequests(d, world);
    case Rollback => RollbackRequests(d, world);
    case Check(mode) =>
      CheckRequests(mode, d, world);
      RollbackRequests(d, world);
    case Close => OtherRequests("", d, world);
  }

  lemma SentShifted(op: Op, a: seq<Event>, x: seq<Event>, b: seq<Event>, to: nat, i: nat)
    requires i < |x| && SendsBy(op, x, to, i)
    ensures SendsBy(op, a + x + b, |a| + to, |a| + i)
  {
    assert (a + x + b)[|a| + i] == x[i];
  }

  lemma WhoSends(ops: seq<Op>, d: Conn, world: nat -> Reply, i: nat) returns (k: nat)
    requires var log := RunLog(ops, d, world); i < |log| && log[i].Sent?
    ensures k < |ops| && MadeBy(ops, d, world, k, i)
    ensures SendsBy(ops[k], RunLog(ops, d, world), |RunLog(ops[..k + 1], d, world)|, i)
  {
    hide Called, RunLog, SendsBy;
    var e, rest;
    k, e, rest := Locate(ops, d, world, i);
    var a, x := RunLog(ops[..k], d, world), Called(ops[k], e, world).added;
    SentAlone(ops[k], e, world, i - |a|);
    SentShifted(ops[k], a, x, rest, |x|, i - |a|);
  }

  lemma {:induction false} LogGrows(ops: seq<Op>, d: Conn, world: nat -> Reply, j: nat, k: nat)
    requires j <= k <= |ops|
    ensures |RunLog(ops[..j], d, world)| <= |RunLog(ops[..k], d, world)|
    decreases j
  {
    hide Called;
    if j > 0 {
      LogFirst(ops, d, world, j);
      LogFirst(ops, d, world, k);
      LogGrows(ops[1..], Called(ops[0], d, world).now, world, j - 1, k - 1);
    }
  }

  /** In a program that does not send "commit" as a statement, a transaction that ends in "commit" is one that the
      program ended by a commit. */
  lemma CommittedByCommit(ops: seq<Op>, d: Conn, world: nat -> Reply, i: nat) returns (k: nat)
    requires var log := RunLog(ops, d, world); 0 < i < |log| && log[i].Ended? && log[i - 1].Sent? && log[i - 1].stmt == "commit"
    requires Execute("commit") !in ops
    ensures k < |ops| && ops[k] == Commit && MadeBy(ops, d, world, k, i)
  {
    hide RunLog;
    k := WhoEnds(ops, d, world, i);
    if ops[k] == Close {
      var j := WhoSends(ops, d, world, i - 1);
      assert ops[j] == Commit;
      if j < k { LogGrows(ops, d, world, j + 1, k); } else { LogGrows(ops, d, world, k, j); }
      assert false;
    }
  }

  /** Such a statement does commit, and closing the connection then ends the transaction. */
  lemma CommittedByHand()
    ensures RunLog([Begin, Execute("commit"), Close], UNCONNECTED, t => Fine) ==
            [Connect(0), Sent(0, "start transaction", Fine), Begun(0), Sent(0, "commit", Fine), Ended]
  {
    var w := t => Fine;
    var d1, d2, d3 := Conn(Some(0), true, 1, 4), Conn(Some(0), true, 1, 5), Conn(None, false, 1, 5);
    assert Called(Begin, UNCONNECTED, w) == Call([Connect(0), Sent(0, START, Fine), Begun(0)], Done, d1);
    assert Called(Execute("commit"), d1, w) == Call([Sent(0, "commit", Fine)], Done, d2);
    assert Called(Close, d2, w) == Call([Ended], Done, d3);
    assert [Begin, Execute("commit"), Close][1..] == [Execute("commit"), Close] && [Execute("commit"), Close][1..] == [Close];
    assert [Close][1..] == [] && RunLog([], d3, w) == [];
    assert RunLog([Close], d2, w) == [Ended];
    assert RunLog([Execute("commit"), Close], d1, w) == [Sent(0, "commit", Fine), Ended];
  }
}
