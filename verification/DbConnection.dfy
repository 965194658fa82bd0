/** The database connection and transaction state of a process (mys.c), against a server that may answer each
    request in any way.  The connection is kept for ever, re-established at most once per statement, and never
    while a transaction is open. */
module DbConnection {
  import opened Wrappers

  /** What the server says to a request: an oracle gives one reply per request. */
  datatype Reply = Fine | DuplicateKey | ConnectionLost | OtherError(number: int)

  /** What can be seen from outside: connections made, statements sent on them with their replies, and where
      transactions begin and end. */
  datatype Event =
    | Connect(c: nat)
    | Sent(c: nat, stmt: string, reply: Reply)
    | Begun(c: nat)
    | Ended

  /** `Exited`: the error report ends the program. */
  datatype Status = Exited | Failed(er: int) | Done

  const ER_DUP_ENTRY := 1062

  const START := "start transaction"
  const COMMIT := "commit"
  const ROLLBACK := "rollback"

  /** What an application calls, in any order. */
  datatype Op = Execute(s: string) | Begin | Commit | Rollback | Check(mode: int) | Close

  // ----- The specification, on logs of events

  /** The connection on which the open transaction was started. */
  function TxnOf(log: seq<Event>): Option<nat> {
    if log == [] then None else
      match log[|log| - 1]
      case Begun(c) => Some(c)
      case Ended => None
      case _ => TxnOf(log[..|log| - 1])
  }

  /** What may happen while a transaction is open on `t`: everything on the connection it was started on, and
      no new connection. */
  predicate Allowed(t: Option<nat>, e: Event) {
    t.Some? ==>
      match e
      case Connect(_) => false
      case Sent(c, _, _) => c == t.value
      case Begun(c) => c == t.value
      case Ended => true
  }

  /** No step of the log breaks the rule for the transaction that was open before it. */
  predicate Safe(log: seq<Event>) {
    log == [] || (Safe(log[..|log| - 1]) && Allowed(TxnOf(log[..|log| - 1]), log[|log| - 1]))
  }

  lemma LogStep(log: seq<Event>, e: Event)
    ensures Safe(log + [e]) <==> Safe(log) && Allowed(TxnOf(log), e)
    ensures TxnOf(log + [e]) == match e case Begun(c) => Some(c) case Ended => None case _ => TxnOf(log)
  {
    assert (log + [e])[..|log|] == log;
  }

  lemma {:induction false} SafePrefix(log: seq<Event>, n: nat)
    requires n <= |log| && Safe(log)
    ensures Safe(log[..n]) && (n < |log| ==> Allowed(TxnOf(log[..n]), log[n]))
    decreases |log|
  {
    if n == |log| {
      assert log[..n] == log;
    } else if n + 1 < |log| {
      SafePrefix(log[..|log| - 1], n);
      assert log[..|log| - 1][..n] == log[..n];
    }
  }

  lemma {:induction false} TxnStays(log: seq<Event>, i: nat, j: nat)
    requires i < j <= |log| && log[i].Begun? && Safe(log)
    requires forall k :: i < k < j ==> !log[k].Ended?
    ensures TxnOf(log[..j]) == Some(log[i].c)
    decreases j
  {
    assert log[..j][..j - 1] == log[..j - 1];
    if j > i + 1 {
      TxnStays(log, i, j - 1);
      SafePrefix(log, j - 1);
    }
  }

  /** No transaction spans two connections: between its begin and its end nothing is sent on any other
      connection than the one it was begun on, and no connection is made. */
  lemma TransactionOnOneConnection(log: seq<Event>, i: nat, j: nat)
    requires i < j < |log| && log[i].Begun? && Safe(log)
    requires forall k :: i < k <= j ==> !log[k].Ended?
    ensures !log[j].Connect? && log[j].c == log[i].c
  {
    TxnStays(log, i, j);
    SafePrefix(log, j);
  }

  /** Within every transaction of the log, everything is on the connection it was begun on. */
  predicate OneConnectionEach(log: seq<Event>) {
    forall i, j | 0 <= i < j < |log| && log[i].Begun? && (forall k :: i < k <= j ==> !log[k].Ended?) ::
      !log[j].Connect? && log[j].c == log[i].c
  }

  lemma SafeMeans(log: seq<Event>)
    requires Safe(log)
    ensures OneConnectionEach(log)
  {
    forall i, j | 0 <= i < j < |log| && log[i].Begun? && (forall k :: i < k <= j ==> !log[k].Ended?)
      ensures !log[j].Connect? && log[j].c == log[i].c
    {
      TransactionOnOneConnection(log, i, j);
    }
  }

  // ----- Executing one statement, against any server

  /** What the application is told about a reply after which nothing more is tried. */
  function Outcome(r: Reply): Status {
    match r
    case Fine => Done
    case DuplicateKey => Failed(ER_DUP_ENTRY)
    case ConnectionLost => Exited
    case OtherError(n) => Failed(n)
  }

  /** What the process knows: its connection, whether a transaction is open, the number of the next connection
      and of the next request. */
  datatype Conn = Conn(con: Option<nat>, inTxn: bool, next: nat, t: nat)

  /** What one call adds to the log, its outcome, and what the process knows then, unless it has ended. */
  datatype Call = Call(added: seq<Event>, st: Status, now: Conn)

  /** Logging in and the two statements that set up a connection all succeed. */
  predicate Connects(world: nat -> Reply, t: nat) {
    world(t) == Fine && world(t + 1) == Fine && world(t + 2) == Fine
  }

  function Reconnected(d: Conn): Conn {
    d.(con := Some(d.next), next := d.next + 1, t := d.t + 3)
  }

  /** What is sent after a reply that is not fine. */
  function Again(s: string, r: Reply, d: Conn, world: nat -> Reply): Call {
    if r != ConnectionLost || d.inTxn then Call([], Outcome(r), d)
    else if !Connects(world, d.t) then Call([], Exited, d)
    else
      var e := Reconnected(d);
      Call([Connect(d.next), Sent(d.next, s, world(e.t))], Outcome(world(e.t)), e.(t := e.t + 1))
  }

  function Attempt(c: nat, s: string, d: Conn, world: nat -> Reply): Call {
    var r, e := world(d.t), d.(t := d.t + 1);
    if r == Fine then Call([Sent(c, s, r)], Done, e) else
      var more := Again(s, r, e, world);
      Call([Sent(c, s, r)] + more.added, more.st, more.now)
  }

  function Execution(s: string, d: Conn, world: nat -> Reply): Call {
    if d.con.Some? then Attempt(d.con.value, s, d, world)
    else if !Connects(world, d.t) then Call([], Exited, d)
    else
      var rest := Attempt(d.next, s, Reconnected(d), world);
      Call([Connect(d.next)] + rest.added, rest.st, rest.now)
  }

  /** A statement is sent at most twice; a second time only when the first was lost with no transaction open,
      and then on a connection made in between.  It is done exactly when the last reply was fine, and nothing is
      sent at all only when no connection can be made. */
  lemma AtMostTwice(s: string, d: Conn, world: nat -> Reply)
    requires d.con.Some? ==> d.con.value < d.next
    ensures var Call(events, st, _) := Execution(s, d, world);
            var before := if d.con.Some? then [] else [Connect(d.next)];
            var c, n := if d.con.Some? then d.con.value else d.next, |before|;
            var r := world(d.t + 3 * n);
            || (events == [] && d.con.None? && st == Exited)
            || (events == before + [Sent(c, s, r)] && (st == Done <==> r == Fine))
            || (&& |events| == n + 3 && events[..n + 1] == before + [Sent(c, s, ConnectionLost)] && !d.inTxn
                && events[n + 1].Connect? && events[n + 1].c > c
                && events[n + 2] == Sent(events[n + 1].c, s, events[n + 2].reply)
                && (st == Done <==> events[n + 2].reply == Fine))
  {
  }

  function EndingOn(c: nat, request: string, before: seq<Event>, d: Conn, world: nat -> Reply): Call {
    Call(before + [Sent(c, request, world(d.t)), Ended], if world(d.t) == Fine then Done else Failed(1),
         d.(inTxn := false, t := d.t + 1))
  }

  /** Ending a transaction: the request goes out on the connection there is, or on a new one. */
  function Ending(request: string, d: Conn, world: nat -> Reply): Call {
    if d.con.Some? then EndingOn(d.con.value, request, [], d, world)
    else if !Connects(world, d.t) then Call([], Exited, d)
    else EndingOn(d.next, request, [Connect(d.next)], Reconnected(d), world)
  }

  /** Beginning one: it is open where the last statement was sent, if that was fine; otherwise the program ends. */
  function Beginning(d: Conn, world: nat -> Reply): Call {
    var e := Execution(START, d, world);
    if e.st == Done && e.now.con.Some? then Call(e.added + [Begun(e.now.con.value)], Done, e.now.(inTxn := true))
    else Call(e.added, Exited, e.now)
  }

  /** One call of the application. */
  function Called(op: Op, d: Conn, world: nat -> Reply): Call {
    match op
    case Execute(s) => Execution(s, d, world)
    case Begin => Beginning(d, world)
    case Commit => Ending(COMMIT, d, world)
    case Rollback => Ending(ROLLBACK, d, world)
    case Check(mode) =>
      if !d.inTxn || mode == 1 then Call([], Done, d)
      else if mode == 2 then Ending(ROLLBACK, d, world).(st := Done)
      else Call([], Exited, d)
    case Close => Call(if d.con.Some? then [Ended] else [], Done, d.(con := None, inTxn := false))
  }

  /** The log of a whole program: its calls one after the other, until one ends it. */
  function RunLog(ops: seq<Op>, d: Conn, world: nat -> Reply): seq<Event> {
    if ops == [] then [] else
      var call := Called(ops[0], d, world);
      call.added + (if call.st == Exited then [] else RunLog(ops[1..], call.now, world))
  }

  const UNCONNECTED := Conn(None, false, 0, 0)

  // ----- The code

  class Db {
    const world: nat -> Reply
    var tick: nat
    var gCon: Option<nat>
    var hasConnected: bool
    var isBeginTransaction: bool
    var nextId: nat
    var log: seq<Event>

    /** What holds even while cld_commit has cleared its flag and not yet committed. */
    ghost predicate Core()
      reads this
    {
      && Safe(log)
      && (isBeginTransaction ==> TxnOf(log).Some?)
      && (TxnOf(log).Some? ==> gCon == TxnOf(log))
      && (gCon.Some? ==> hasConnected && gCon.value < nextId)
    }

    /** The flag tells the truth, and an open transaction has its own connection, live. */
    ghost predicate Valid()
      reads this
    {
      Core() && (TxnOf(log).Some? ==> isBeginTransaction)
    }

    ghost function Now(): Conn
      reads this
    {
      Conn(gCon, isBeginTransaction, nextId, tick)
    }

    constructor (w: nat -> Reply)
      ensures Valid() && log == [] && world == w && Now() == UNCONNECTED
    {
      world := w;
      tick, gCon, hasConnected, isBeginTransaction, nextId := 0, None, false, false, 0;
      log := [];
    }

    method Ask() returns (r: Reply)
      modifies this`tick
      ensures r == world(old(tick)) && tick == old(tick) + 1
    {
      r := world(tick);
      tick := tick + 1;
    }

    /** cld_get_db_connection with credentials: the cached connection, or a new one.  It never comes to the
        point of refusing to reconnect because of an open transaction: it fails only when the server does. */
    method GetConnection() returns (ok: bool, c: nat)
      requires Core()
      modifies this
      ensures Core() && isBeginTransaction == old(isBeginTransaction) && TxnOf(log) == TxnOf(old(log))
      ensures ok ==> gCon == Some(c)
      ensures old(gCon).Some? ==> ok && log == old(log) && Now() == old(Now())
      ensures old(gCon).None? ==>
                && (ok <==> Connects(world, old(tick)))
                && (ok ==> log == old(log) + [Connect(c)] && c == old(nextId) && Now() == Reconnected(old(Now())))
                && (!ok ==> log == old(log))
    {
      hide Safe, TxnOf;
      ok, c := false, 0;
      if gCon.Some? { return true, gCon.value; }
      if hasConnected {
        if isBeginTransaction { return; }
      }
      hasConnected := true;
      isBeginTransaction := false;
      var login := Ask();
      if login != Fine { return; }
      var names := Ask();
      if names != Fine { return; }
      var sqlMode := Ask();
      if sqlMode != Fine { return; }
      c := nextId;
      nextId := nextId + 1;
      gCon := Some(c);
      LogStep(log, Connect(c));
      log := log + [Connect(c)];
      ok := true;
    }

    /** cld_get_db_connection without credentials closes the connection, and with it any transaction. */
    method CloseConnection()
      requires Valid()
      modifies this
      ensures Valid() && Now() == old(Now()).(con := None, inTxn := false)
      ensures log == if old(gCon).Some? then old(log) + [Ended] else old(log)
    {
      hide Safe, TxnOf;
      if gCon.Some? {
        isBeginTransaction := false;
        LogStep(log, Ended);
        log := log + [Ended];
        gCon := None;
      }
    }

    /** mysql_query (or mysql_commit and the like) on the cached connection. */
    method Query(c: nat, s: string) returns (r: Reply)
      requires Core() && gCon == Some(c)
      modifies this`tick, this`log
      ensures Core() && log == old(log) + [Sent(c, s, r)] && TxnOf(log) == TxnOf(old(log))
      ensures r == world(old(tick)) && tick == old(tick) + 1
    {
      hide Safe, TxnOf;
      r := Ask();
      LogStep(log, Sent(c, s, r));
      log := log + [Sent(c, s, r)];
    }

    /** cld_handle_error: `Done` (1) when a lost connection was made again, `Failed` (0) when the application
        is to handle the error. */
    method HandleError(r: Reply, retry: bool) returns (st: Status)
      requires Valid() && r != Fine && gCon.Some? && (retry ==> !isBeginTransaction)
      modifies this
      ensures Valid() && isBeginTransaction == old(isBeginTransaction)
      ensures st == if r == ConnectionLost && retry && Connects(world, old(tick)) then Done else Outcome(r)
      ensures log == if st == Done then old(log) + [Connect(old(nextId))] else old(log)
      ensures st != Exited ==> Now() == if st == Done then Reconnected(old(Now())) else old(Now())
    {
      match r
      case Fine =>
      case DuplicateKey => st := Failed(ER_DUP_ENTRY);
      case ConnectionLost =>
        if retry {
          gCon := None;
          var ok, c := GetConnection();
          st := if ok then Done else Exited;
        } else {
          st := Exited;
        }
      case OtherError(n) => st := Failed(n);
    }

    /** cld_execute_SQL after its first, failed attempt: only outside a transaction the statement is tried again. */
    method Recover(s: string, r0: Reply) returns (st: Status, ghost added: seq<Event>)
      requires Valid() && gCon.Some? && r0 != Fine
      modifies this
      ensures Valid() && isBeginTransaction == old(isBeginTransaction) && log == old(log) + added
      ensures var call := Again(s, r0, old(Now()), world); added == call.added && st == call.st && (st != Exited ==> Now() == call.now)
    {
      hide Safe, TxnOf;
      added := [];
      if !isBeginTransaction {
        st := HandleError(r0, true);
        if st == Done {
          var ok, c := GetConnection();
          var r := Query(c, s);
          added := [Connect(c), Sent(c, s, r)];
          if r != Fine {
            st := HandleError(r, false);
          }
        }
      } else {
        st := HandleError(r0, false);
      }
    }

    /** cld_execute_SQL, once there is a connection. */
    method Send(c: nat, s: string) returns (st: Status, ghost added: seq<Event>)
      requires Valid() && gCon == Some(c)
      modifies this
      ensures Valid() && isBeginTransaction == old(isBeginTransaction) && log == old(log) + added
      ensures var call := Attempt(c, s, old(Now()), world); added == call.added && st == call.st && (st != Exited ==> Now() == call.now)
      ensures st == Done ==> gCon.Some?
    {
      hide Safe, TxnOf;
      var r := Query(c, s);
      added := [Sent(c, s, r)];
      st := Done;
      if r != Fine {
        ghost var again;
        st, again := Recover(s, r);
        added := added + again;
      }
    }

    /** cld_execute_SQL */
    method ExecuteSQL(s: string) returns (st: Status, ghost added: seq<Event>)
      requires Valid()
      modifies this
      ensures Valid() && isBeginTransaction == old(isBeginTransaction) && log == old(log) + added
      ensures var call := Execution(s, old(Now()), world); added == call.added && st == call.st && (st != Exited ==> Now() == call.now)
      ensures st == Done ==> gCon.Some?
    {
      hide Safe, TxnOf, Attempt;
      var ok, c := GetConnection();
      if !ok { return Exited, []; }
      st, added := Send(c, s);
      if old(gCon).None? { added := [Connect(c)] + added; }
    }

    /** cld_begin_transaction */
    method BeginTransaction() returns (st: Status, ghost added: seq<Event>)
      requires Valid()
      modifies this
      ensures Valid() && log == old(log) + added
      ensures var call := Beginning(old(Now()), world); added == call.added && st == call.st && (st != Exited ==> Now() == call.now)
    {
      hide Safe, TxnOf, Execution;
      st, added := ExecuteSQL(START);
      if st != Done { return Exited, added; }
      isBeginTransaction := true;
      LogStep(log, Begun(gCon.value));
      log := log + [Begun(gCon.value)];
      added := added + [Begun(gCon.value)];
    }

    /** cld_commit and cld_rollback: the flag goes first, and still the request reaches the connection of the
        transaction. */
    method EndTransaction(request: string) returns (st: Status, ghost added: seq<Event>)
      requires Valid()
      modifies this
      ensures Valid() && !isBeginTransaction && log == old(log) + added
      ensures var call := Ending(request, old(Now()), world); added == call.added && st == call.st && (st != Exited ==> Now() == call.now)
      ensures old(isBeginTransaction) ==> old(gCon) == TxnOf(old(log)) && added != [] && st != Exited
    {
      hide Safe, TxnOf;
      added := [];
      isBeginTransaction := false;
      var ok, c := GetConnection();
      if !ok { return Exited, []; }
      var r := Query(c, request);
      LogStep(log, Ended);
      log := log + [Ended];
      added := if old(gCon).Some? then [Sent(c, request, r), Ended] else [Connect(c), Sent(c, request, r), Ended];
      st := if r == Fine then Done else Failed(1);
    }

    /** cld_check_transaction: whether a transaction is left open; mode 2 rolls it back, a mode other than 1
        and 2 ends the program. */
    method CheckTransaction(mode: int) returns (st: Status, open: bool, ghost added: seq<Event>)
      requires Valid()
      modifies this
      ensures Valid() && log == old(log) + added
      ensures var call := Called(Check(mode), old(Now()), world); added == call.added && st == call.st && (st != Exited ==> Now() == call.now)
      ensures st == Done ==> open == isBeginTransaction == (old(isBeginTransaction) && mode == 1)
    {
      hide Safe, TxnOf, Ending;
      st, open, added := Done, false, [];
      if isBeginTransaction {
        match mode
        case 1 => open := true;
        case 2 =>
          var _, more := EndTransaction(ROLLBACK);
          added := more;
        case _ => st := Exited;
      }
    }

    /** One call of the application. */
    method Step(op: Op) returns (st: Status, ghost added: seq<Event>)
      requires Valid()
      modifies this
      ensures Valid() && log == old(log) + added
      ensures var call := Called(op, old(Now()), world); added == call.added && st == call.st && (st != Exited ==> Now() == call.now)
    {
      hide Safe, TxnOf, Ending, Execution, Beginning;
      match op
      case Execute(s) => st, added := ExecuteSQL(s);
      case Begin => st, added := BeginTransaction();
      case Commit => st, added := EndTransaction(COMMIT);
      case Rollback => st, added := EndTransaction(ROLLBACK);
      case Check(mode) =>
        var open;
        st, open, added := CheckTransaction(mode);
      case Close =>
        added := if gCon.Some? then [Ended] else [];
        CloseConnection();
        st := Done;
    }
  }

  /** Any program, against any server: what the server sees is the log of its calls, and no transaction in it spans
      two connections. */
  method Session(ops: seq<Op>, world: nat -> Reply) returns (log: seq<Event>, open: bool)
    ensures log == RunLog(ops, UNCONNECTED, world) && Safe(log)
    ensures open <==> TxnOf(log).Some?
    ensures OneConnectionEach(log)
  {
    hide Safe, TxnOf, Called, RunLog;
    var db := new Db(world);
    var k := 0;
    var st := Done;
    while k < |ops| && st != Exited
      invariant 0 <= k <= |ops|
      invariant db.Valid() && fresh(db) && db.world == world
      invariant RunLog(ops, UNCONNECTED, world) ==
                db.log + (if st == Exited then [] else RunLog(ops[k..], db.Now(), world))
    {
      RunStep(db.log, ops, k, db.Now(), world);
      ghost var added;
      st, added := db.Step(ops[k]);
      k := k + 1;
    }
    RunNothing(db.log, ops, db.Now(), world);
    log, open := db.log, db.isBeginTransaction;
    SafeMeans(log);
  }

  lemma RunNothing(log: seq<Event>, ops: seq<Op>, d: Conn, world: nat -> Reply)
    ensures log + RunLog(ops[|ops|..], d, world) == log && log + [] == log
  {
  }

  lemma RunStep(log: seq<Event>, ops: seq<Op>, k: nat, d: Conn, world: nat -> Reply)
    requires k < |ops|
    ensures var call := Called(ops[k], d, world);
            log + RunLog(ops[k..], d, world) ==
            log + call.added + (if call.st == Exited then [] else RunLog(ops[k + 1..], call.now, world))
  {
    hide Called;
    assert ops[k..][0] == ops[k] && ops[k..][1..] == ops[k + 1..];
  }
}
