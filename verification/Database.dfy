/** The MySQL connection pool and the jobs that borrow from it. */
module Database {

  type Handle = nat
  type Name = string

  /** What GetConn hands out: a handle, or an error. */
  datatype MysqlConn = Conn(conn: Handle, db_name: Name) | NoConn(db_name: Name)

  /** The pool, the name each handle ever opened was opened for, and the handles closed, in order. */
  datatype Pool = Pool(queues: map<Name, seq<Handle>>, openedFor: seq<Name>, closed: seq<Handle>)

  type Row = map<string, string>

  /** What a job posts to the script: the cookie narrowed to an int, mysql_query's return value, the rows. */
  datatype ScriptMessage = ScriptMessage(cookie: int, query_flag: int, result: seq<Row>)

  /** The message for a job: -1 and no rows when no connection was to be had. */
  function ReplyTo(cookie: int, mc: MysqlConn, query_flag: int, rows: seq<Row>): ScriptMessage
  {
    if mc.NoConn? then ScriptMessage(ToInt(cookie), -1, [])
    else ScriptMessage(ToInt(cookie), query_flag, if query_flag == 0 then rows else [])
  }

  function QueueOf(p: Pool, db: Name): seq<Handle>
  {
    if db in p.queues then p.queues[db] else []
  }

  /** GetConn: `alive` are the handles that would answer a ping, `connects` how a new connection would. */
  function Borrow(p: Pool, db: Name, alive: set<Handle>, configured: bool, connects: bool): (r: (Pool, MysqlConn))
    decreases |QueueOf(p, db)|
  {
    var q := QueueOf(p, db);
    if q != [] then
      var popped := p.(queues := p.queues[db := q[1..]]);
      if q[0] in alive then (popped, Conn(q[0], db))
      else Borrow(popped.(closed := p.closed + [q[0]]), db, alive, configured, connects)
    else if !configured then (p, NoConn(db))
    else
      var grown := p.(openedFor := p.openedFor + [db]);
      if connects then (grown, Conn(|p.openedFor|, db))
      else (grown.(closed := p.closed + [|p.openedFor|]), NoConn(db))
  }

  /** BackConn: `reset` is whether the session could be reset for the next user. */
  function GiveBack(p: Pool, mc: MysqlConn, reset: bool): Pool
  {
    match mc
    case NoConn(_) => p
    case Conn(h, db) =>
      if reset then p.(queues := p.queues[db := QueueOf(p, db) + [h]]) else p.(closed := p.closed + [h])
  }

  class DatabaseManager {
    var conn_pool: map<Name, seq<Handle>>
    /** What mysql_init has returned and mysql_close has been given. */
    var openedFor: seq<Name>
    var closed: seq<Handle>
    /** The messages handed to ScriptManager.AddMsg. */
    var posted: seq<ScriptMessage>

    function View(): Pool
      reads this
    {
      Pool(conn_pool, openedFor, closed)
    }

    constructor ()
      ensures View() == Pool(map[], [], []) && posted == []
    {
      conn_pool, openedFor, closed, posted := map[], [], [], [];
    }

    method GetConn(db_name: Name, alive: set<Handle>, configured: bool, connects: bool) returns (mc: MysqlConn)
      modifies `conn_pool, `openedFor, `closed
      ensures (View(), mc) == Borrow(old(View()), db_name, alive, configured, connects)
    {
      if db_name in conn_pool {
        while |conn_pool[db_name]| > 0
          invariant db_name in conn_pool
          invariant Borrow(View(), db_name, alive, configured, connects) == Borrow(old(View()), db_name, alive, configured, connects)
          decreases |conn_pool[db_name]|
        {
          var a_conn := conn_pool[db_name][0];
          conn_pool := conn_pool[db_name := conn_pool[db_name][1..]];
          if a_conn in alive {
            return Conn(a_conn, db_name);
          } else {
            closed := closed + [a_conn];
          }
        }
      }
      if configured {
        var a_conn := |openedFor|;
        openedFor := openedFor + [db_name];
        if !connects {
          closed := closed + [a_conn];
          return NoConn(db_name);
        }
        return Conn(a_conn, db_name);
      }
      return NoConn(db_name);
    }

    method BackConn(mc: MysqlConn, reset: bool)
      modifies `conn_pool, `closed
      ensures View() == GiveBack(old(View()), mc, reset)
    {
      if mc.NoConn? {
        return;
      }
      var db_name := mc.db_name;
      var conn := mc.conn;
      if reset {
        if db_name !in conn_pool {
          conn_pool := conn_pool[db_name := []];
        }
        conn_pool := conn_pool[db_name := conn_pool[db_name] + [conn]];
      } else {
        closed := closed + [conn];
      }
    }

    /**
     One job by itself, whatever the server does: one message is posted, and every handle is again where it
     may be - `held` are the handles other jobs have out.
     */
    method Call(cookie: int, db_name: Name, alive: set<Handle>, configured: bool, connects: bool,
                query_flag: int, rows: seq<Row>, reset: bool, ghost held: set<Handle>)
      requires Placed(View(), held)
      modifies this
      ensures Placed(View(), held)
      ensures var (p, mc) := Borrow(old(View()), db_name, alive, configured, connects);
              View() == GiveBack(p, mc, reset) && posted == old(posted) + [ReplyTo(cookie, mc, query_flag, rows)]
    {
      hide Placed, Borrow, GiveBack;
      BorrowPlaced(View(), held, db_name, alive, configured, connects);
      var mc := GetConn(db_name, alive, configured, connects);
      GiveBackPlaced(View(), held + HandlesOf(mc), mc, reset);
      assert held + HandlesOf(mc) - HandlesOf(mc) == held;
      if mc.NoConn? {
        BackConn(mc, reset);
        posted := posted + [ScriptMessage(ToInt(cookie), -1, [])];
      } else {
        var result := [];
        if query_flag == 0 {
          result := rows;
        }
        BackConn(mc, reset);
        posted := posted + [ScriptMessage(ToInt(cookie), query_flag, result)];
      }
    }
  }

  // Which handle is handed out, and what becomes of the others.

  /** The first handle in the queue that answers the ping is handed out; those before it are closed, those after it stay. */
  lemma {:induction false} FirstAlive(p: Pool, db: Name, alive: set<Handle>, configured: bool, connects: bool, i: nat)
    requires i < |QueueOf(p, db)| && QueueOf(p, db)[i] in alive
    requires forall k :: 0 <= k < i ==> QueueOf(p, db)[k] !in alive
    ensures var q := QueueOf(p, db); var (p', mc) := Borrow(p, db, alive, configured, connects);
            && mc == Conn(q[i], db)
            && QueueOf(p', db) == q[i + 1..] && (forall d :: d != db ==> QueueOf(p', d) == QueueOf(p, d))
            && p'.closed == p.closed + q[..i] && p'.openedFor == p.openedFor
    decreases i
  {
    var q := QueueOf(p, db);
    if i > 0 {
      var popped := p.(queues := p.queues[db := q[1..]], closed := p.closed + [q[0]]);
      FirstAlive(popped, db, alive, configured, connects, i - 1);
      assert q[..i] == [q[0]] + q[1..][..i - 1];
      assert q[1..][i..] == q[i + 1..];
    }
  }

  /** With none alive all are closed, and a new handle is handed out exactly when the name is configured and the server answers. */
  lemma {:induction false} NoneAlive(p: Pool, db: Name, alive: set<Handle>, configured: bool, connects: bool)
    requires forall h :: h in QueueOf(p, db) ==> h !in alive
    ensures var q := QueueOf(p, db); var (p', mc) := Borrow(p, db, alive, configured, connects); var fresh_one := |p.openedFor|;
            && mc == (if configured && connects then Conn(fresh_one, db) else NoConn(db))
            && QueueOf(p', db) == [] && (forall d :: d != db ==> QueueOf(p', d) == QueueOf(p, d))
            && p'.closed == p.closed + q + (if configured && !connects then [fresh_one] else [])
            && p'.openedFor == p.openedFor + if configured then [db] else []
    decreases |QueueOf(p, db)|
  {
    var q := QueueOf(p, db);
    if q != [] {
      var popped := p.(queues := p.queues[db := q[1..]], closed := p.closed + [q[0]]);
      assert forall h :: h in q[1..] ==> h in q;
      NoneAlive(popped, db, alive, configured, connects);
      assert p.closed + [q[0]] + q[1..] == p.closed + q;
    }
  }

  /** A connection that could be reset goes to the end of its own queue, any other is closed, an error is neither. */
  lemma GivenBack(p: Pool, h: Handle, db: Name)
    ensures var p' := GiveBack(p, Conn(h, db), true);
            && QueueOf(p', db) == QueueOf(p, db) + [h] && (forall d :: d != db ==> QueueOf(p', d) == QueueOf(p, d))
            && p'.closed == p.closed && p'.openedFor == p.openedFor
    ensures var p' := GiveBack(p, Conn(h, db), false);
            p'.queues == p.queues && p'.closed == p.closed + [h] && p'.openedFor == p.openedFor
    ensures forall reset :: GiveBack(p, NoConn(db), reset) == p
  {
  }

  /** What is given back alive is what the next job for that name gets, when it was alone in the pool. */
  lemma ReusedNext(p: Pool, h: Handle, db: Name, alive: set<Handle>, configured: bool, connects: bool)
    requires QueueOf(p, db) == [] && h in alive
    ensures Borrow(GiveBack(p, Conn(h, db), true), db, alive, configured, connects).1 == Conn(h, db)
  {
    FirstAlive(GiveBack(p, Conn(h, db), true), db, alive, configured, connects, 0);
  }

  /** The posted message: the cookie modulo 2^32 as an int; -1 without a connection, else the statement's outcome, with rows only on success. */
  lemma ReplySays(cookie: int, mc: MysqlConn, query_flag: int, rows: seq<Row>)
    ensures var m := ReplyTo(cookie, mc, query_flag, rows);
            && -0x8000_0000 <= m.cookie < 0x8000_0000 && (m.cookie - cookie) % 0x1_0000_0000 == 0
            && (m.query_flag == if mc.Conn? then query_flag else -1)
            && (m.result != [] ==> mc.Conn? && query_flag == 0)
            && (mc.Conn? && query_flag == 0 ==> m.result == rows)
  {
    var shifted := cookie + 0x8000_0000;
    assert ToInt(cookie) - cookie == shifted % 0x1_0000_0000 - shifted;
    assert shifted == shifted / 0x1_0000_0000 * 0x1_0000_0000 + shifted % 0x1_0000_0000;
  }

  // Every opened handle is in one place.

  ghost predicate Distinct(s: seq<Handle>)
  {
    forall i, j :: 0 <= i < j < |s| ==> s[i] != s[j]
  }

  ghost predicate InQueue(p: Pool, db: Name, h: Handle)
  {
    h in QueueOf(p, db)
  }

  ghost predicate IsClosed(p: Pool, h: Handle)
  {
    h in p.closed
  }

  ghost predicate OpenedAs(p: Pool, db: Name, h: Handle)
  {
    h < |p.openedFor| && p.openedFor[h] == db
  }

  /** Queued under the name it was opened for, held, or closed: exactly one of the three, and once only. */
  ghost predicate Placed(p: Pool, held: set<Handle>)
  {
    && (forall db :: Distinct(QueueOf(p, db)))
    && Distinct(p.closed)
    && (forall db, h :: InQueue(p, db, h) ==> OpenedAs(p, db, h) && h !in held && !IsClosed(p, h))
    && (forall h: Handle :: IsClosed(p, h) ==> h < |p.openedFor| && h !in held)
    && (forall h :: h in held ==> h < |p.openedFor|)
    && (forall h: Handle :: h < |p.openedFor| ==> InQueue(p, p.openedFor[h], h) || h in held || IsClosed(p, h))
  }

  lemma DistinctSnoc(s: seq<Handle>, h: Handle)
    requires Distinct(s) && h !in s
    ensures Distinct(s + [h])
    ensures forall k :: k in s + [h] <==> k in s || k == h
  {
  }

  lemma DistinctTail(s: seq<Handle>)
    requires Distinct(s) && s != []
    ensures Distinct(s[1..])
    ensures forall k :: k in s[1..] <==> k in s && k != s[0]
  {
    forall k | k in s && k != s[0]
      ensures k in s[1..]
    {
      var i :| 0 <= i < |s| && s[i] == k;
      assert s[1..][i - 1] == k;
    }
  }

  /** Popping the front of a queue leaves that handle with whoever popped it. */
  lemma PopPlaced(p: Pool, held: set<Handle>, db: Name)
    requires Placed(p, held) && QueueOf(p, db) != []
    ensures var h := QueueOf(p, db)[0]; var popped := p.(queues := p.queues[db := QueueOf(p, db)[1..]]);
            OpenedAs(p, db, h) && h !in held && Placed(popped, held + {h})
  {
    var q := QueueOf(p, db);
    var h := q[0];
    var popped := p.(queues := p.queues[db := q[1..]]);
    assert InQueue(p, db, h);
    DistinctTail(q);
    assert forall d :: QueueOf(popped, d) == if d == db then q[1..] else QueueOf(p, d);
    assert forall d, k: Handle :: InQueue(popped, d, k) <==> InQueue(p, d, k) && k != h;
    assert forall k: Handle :: IsClosed(popped, k) <==> IsClosed(p, k);
  }

  lemma ClosePlaced(p: Pool, held: set<Handle>, h: Handle)
    requires Placed(p, held) && h in held
    ensures Placed(p.(closed := p.closed + [h]), held - {h})
  {
    var p' := p.(closed := p.closed + [h]);
    assert !IsClosed(p, h);
    DistinctSnoc(p.closed, h);
    assert forall d :: QueueOf(p', d) == QueueOf(p, d);
    assert forall d, k: Handle :: InQueue(p', d, k) <==> InQueue(p, d, k);
    assert forall k: Handle :: IsClosed(p', k) <==> IsClosed(p, k) || k == h;
  }

  lemma OpenPlaced(p: Pool, held: set<Handle>, db: Name)
    requires Placed(p, held)
    ensures var h := |p.openedFor|; h !in held && Placed(p.(openedFor := p.openedFor + [db]), held + {h})
  {
    var p' := p.(openedFor := p.openedFor + [db]);
    assert forall d :: QueueOf(p', d) == QueueOf(p, d);
    assert forall d, k: Handle :: InQueue(p', d, k) <==> InQueue(p, d, k);
    assert forall k: Handle :: IsClosed(p', k) <==> IsClosed(p, k);
  }

  lemma PushEffect(p: Pool, h: Handle, db: Name)
    requires Distinct(QueueOf(p, db)) && !InQueue(p, db, h)
    ensures var p' := p.(queues := p.queues[db := QueueOf(p, db) + [h]]);
            && (forall d :: QueueOf(p', d) == if d == db then QueueOf(p, db) + [h] else QueueOf(p, d))
            && Distinct(QueueOf(p, db) + [h])
            && (forall d, k: Handle :: InQueue(p', d, k) <==> InQueue(p, d, k) || (d == db && k == h))
            && (forall k: Handle :: IsClosed(p', k) <==> IsClosed(p, k))
  {
    DistinctSnoc(QueueOf(p, db), h);
  }

  lemma PushPlaced(p: Pool, held: set<Handle>, h: Handle, db: Name)
    requires Placed(p, held) && h in held && OpenedAs(p, db, h)
    ensures Placed(p.(queues := p.queues[db := QueueOf(p, db) + [h]]), held - {h})
  {
    hide QueueOf, InQueue, IsClosed, Distinct;
    PushEffect(p, h, db);
  }

  ghost function HandlesOf(mc: MysqlConn): set<Handle>
  {
    if mc.Conn? then {mc.conn} else {}
  }

  /** What GetConn hands out is a handle nobody else has, opened for the name asked for. */
  lemma {:induction false} BorrowPlaced(p: Pool, held: set<Handle>, db: Name, alive: set<Handle>, configured: bool, connects: bool)
    requires Placed(p, held)
    ensures var (p', mc) := Borrow(p, db, alive, configured, connects);
            && mc.db_name == db && HandlesOf(mc) !! held && Placed(p', held + HandlesOf(mc))
            && (mc.Conn? ==> OpenedAs(p', db, mc.conn))
            && p.openedFor <= p'.openedFor && p.closed <= p'.closed
    decreases |QueueOf(p, db)|
  {
    hide Placed;
    var q := QueueOf(p, db);
    if q != [] {
      PopPlaced(p, held, db);
      var popped := p.(queues := p.queues[db := q[1..]]);
      if q[0] !in alive {
        ClosePlaced(popped, held + {q[0]}, q[0]);
        assert held + {q[0]} - {q[0]} == held;
        BorrowPlaced(popped.(closed := p.closed + [q[0]]), held, db, alive, configured, connects);
      }
    } else if configured {
      OpenPlaced(p, held, db);
      if !connects {
        var h := |p.openedFor|;
        ClosePlaced(p.(openedFor := p.openedFor + [db]), held + {h}, h);
        assert held + {h} - {h} == held;
      }
    } else {
      assert held + {} == held;
    }
    assert held + {} == held;
  }

  lemma GiveBackPlaced(p: Pool, held: set<Handle>, mc: MysqlConn, reset: bool)
    requires Placed(p, held) && HandlesOf(mc) <= held
    requires mc.Conn? ==> OpenedAs(p, mc.db_name, mc.conn)
    ensures var p' := GiveBack(p, mc, reset);
            Placed(p', held - HandlesOf(mc)) && p'.openedFor == p.openedFor && p.closed <= p'.closed
  {
    hide Placed;
    if mc.NoConn? {
      assert held - {} == held;
    } else if reset {
      PushPlaced(p, held, mc.conn, mc.db_name);
    } else {
      ClosePlaced(p, held, mc.conn);
    }
  }

  // Any number of jobs, one step at a time: GetConn and BackConn each hold the pool's lock throughout.

  /** Where a job stands in Call. */
  datatype Phase =
    | Posted                    // in the worker threads' queue
    | Working(mc: MysqlConn)    // after GetConn: runs the statement, unless mc is an error
    | Returned                  // after BackConn
    | Done                      // after AddMsg

  datatype Job = Job(cookie: int, db_name: Name, phase: Phase)

  datatype Reply = Reply(job: nat, cookie: int)

  datatype State = State(pool: Pool, jobs: map<nat, Job>, replies: seq<Reply>)

  datatype Step =
    | AddExecDb(j: nat, cookie: int, db_name: Name)
    | Get(j: nat, alive: set<Handle>, configured: bool, connects: bool)
    | Back(j: nat, reset: bool)
    | AddMsg(j: nat)

  /** The script message's cookie field is an int. */
  function ToInt(cookie: int): int
  {
    (cookie + 0x8000_0000) % 0x1_0000_0000 - 0x8000_0000
  }

  predicate Enabled(s: State, step: Step)
  {
    match step
    case AddExecDb(j, _, _) => j !in s.jobs
    case Get(j, _, _, _) => j in s.jobs && s.jobs[j].phase.Posted?
    case Back(j, _) => j in s.jobs && s.jobs[j].phase.Working?
    case AddMsg(j) => j in s.jobs && s.jobs[j].phase.Returned?
  }

  function Moved(s: State, j: nat, phase: Phase): map<nat, Job>
    requires j in s.jobs
  {
    s.jobs[j := s.jobs[j].(phase := phase)]
  }

  function Apply(s: State, step: Step): State
    requires Enabled(s, step)
  {
    match step
    case AddExecDb(j, cookie, db_name) => s.(jobs := s.jobs[j := Job(cookie, db_name, Posted)])
    case Get(j, alive, configured, connects) =>
      var (pool, mc) := Borrow(s.pool, s.jobs[j].db_name, alive, configured, connects);
      s.(pool := pool, jobs := Moved(s, j, Working(mc)))
    case Back(j, reset) => s.(pool := GiveBack(s.pool, s.jobs[j].phase.mc, reset), jobs := Moved(s, j, Returned))
    case AddMsg(j) => s.(jobs := Moved(s, j, Done), replies := s.replies + [Reply(j, ToInt(s.jobs[j].cookie))])
  }

  predicate Executes(s: State, steps: seq<Step>)
    decreases |steps|
  {
    steps == [] || (Enabled(s, steps[0]) && Executes(Apply(s, steps[0]), steps[1..]))
  }

  function After(s: State, steps: seq<Step>): State
    requires Executes(s, steps)
    decreases |steps|
  {
    if steps == [] then s else After(Apply(s, steps[0]), steps[1..])
  }

  const START := State(Pool(map[], [], []), map[], [])

  predicate Holds(s: State, j: nat)
  {
    j in s.jobs && s.jobs[j].phase.Working? && s.jobs[j].phase.mc.Conn?
  }

  function HandleOf(s: State, j: nat): Handle
    requires Holds(s, j)
  {
    s.jobs[j].phase.mc.conn
  }

  function Held(s: State): set<Handle>
  {
    set j | j in s.jobs && Holds(s, j) :: HandleOf(s, j)
  }

  ghost predicate PoolInv(s: State)
  {
    && Placed(s.pool, Held(s))
    && (forall j, k :: Holds(s, j) && Holds(s, k) && j != k ==> HandleOf(s, j) != HandleOf(s, k))
    && (forall j :: Holds(s, j) ==> s.jobs[j].phase.mc.db_name == s.jobs[j].db_name && OpenedAs(s.pool, s.jobs[j].db_name, HandleOf(s, j)))
  }

  ghost predicate Answers(s: State, i: nat, j: nat)
    requires i < |s.replies|
  {
    s.replies[i].job == j
  }

  /** Replies and finished jobs are in one-to-one correspondence, cookies included. */
  ghost predicate ReplyInv(s: State)
  {
    && (forall i, k :: 0 <= i < k < |s.replies| ==> s.replies[i].job != s.replies[k].job)
    && (forall i :: 0 <= i < |s.replies| ==>
          var j := s.replies[i].job;
          j in s.jobs && s.jobs[j].phase.Done? && s.replies[i].cookie == ToInt(s.jobs[j].cookie))
    && (forall j :: j in s.jobs && s.jobs[j].phase.Done? ==> exists i :: 0 <= i < |s.replies| && Answers(s, i, j))
  }

  /** After a step of job `j` alone, what is held is what the others hold and what `j` now holds. */
  lemma HeldAfter(s: State, s': State, j: nat)
    requires j in s.jobs && s'.jobs.Keys == s.jobs.Keys
    requires forall k :: k in s.jobs && k != j ==> s'.jobs[k] == s.jobs[k]
    ensures forall k :: k != j ==> (Holds(s', k) <==> Holds(s, k))
    ensures forall k :: k != j && Holds(s, k) ==> HandleOf(s', k) == HandleOf(s, k)
    ensures forall h :: h in Held(s') <==> (Holds(s', j) && HandleOf(s', j) == h) || exists k :: k != j && Holds(s, k) && HandleOf(s, k) == h
    ensures forall k :: Holds(s, k) ==> HandleOf(s, k) in Held(s)
  {
    forall h ensures h in Held(s') <==> (Holds(s', j) && HandleOf(s', j) == h) || exists k :: k != j && Holds(s, k) && HandleOf(s, k) == h {
      forall k | k != j && Holds(s, k) && HandleOf(s, k) == h
        ensures h in Held(s')
      {
        assert k in s'.jobs && Holds(s', k) && HandleOf(s', k) == h;
      }
      if h in Held(s') {
        var k :| k in s'.jobs && Holds(s', k) && HandleOf(s', k) == h;
        assert k != j ==> Holds(s, k) && HandleOf(s, k) == h;
      }
    }
  }

  lemma GetKeeps(s: State, step: Step)
    requires PoolInv(s) && Enabled(s, step) && step.Get?
    ensures PoolInv(Apply(s, step))
  {
    hide Placed, Borrow, Held;
    var s' := Apply(s, step);
    BorrowPlaced(s.pool, Held(s), s.jobs[step.j].db_name, step.alive, step.configured, step.connects);
    var mc := s'.jobs[step.j].phase.mc;
    HeldAfter(s, s', step.j);
    HeldAfter(s, s, step.j);
    assert Held(s') == Held(s) + HandlesOf(mc);
  }

  lemma BackKeeps(s: State, step: Step)
    requires PoolInv(s) && Enabled(s, step) && step.Back?
    ensures PoolInv(Apply(s, step))
  {
    hide Placed, GiveBack, Held;
    var s' := Apply(s, step);
    var mc := s.jobs[step.j].phase.mc;
    HeldAfter(s, s', step.j);
    HeldAfter(s, s, step.j);
    GiveBackPlaced(s.pool, Held(s), mc, step.reset);
    assert Held(s') == Held(s) - HandlesOf(mc);
  }

  lemma OtherKeeps(s: State, step: Step)
    requires PoolInv(s) && Enabled(s, step) && (step.AddExecDb? || step.AddMsg?)
    ensures PoolInv(Apply(s, step))
  {
    hide Placed;
    var s' := Apply(s, step);
    assert forall k :: Holds(s', k) <==> Holds(s, k);
    assert forall k :: Holds(s, k) ==> HandleOf(s', k) == HandleOf(s, k);
    assert Held(s') == Held(s);
  }

  lemma RepliesKeep(s: State, step: Step)
    requires ReplyInv(s) && Enabled(s, step)
    ensures ReplyInv(Apply(s, step))
  {
    hide Borrow, GiveBack;
    var s' := Apply(s, step);
    forall j | j in s'.jobs && s'.jobs[j].phase.Done?
      ensures exists i :: 0 <= i < |s'.replies| && Answers(s', i, j)
    {
      if j in s.jobs && s.jobs[j].phase.Done? {
        var i :| 0 <= i < |s.replies| && Answers(s, i, j);
        assert Answers(s', i, j);
      } else {
        assert Answers(s', |s.replies|, j);
      }
    }
  }

  lemma {:induction false} RunKeeps(s: State, steps: seq<Step>)
    requires PoolInv(s) && ReplyInv(s) && Executes(s, steps)
    ensures PoolInv(After(s, steps)) && ReplyInv(After(s, steps))
    decreases |steps|
  {
    if steps != [] {
      var step := steps[0];
      RepliesKeep(s, step);
      match step {
        case Get(_, _, _, _) => GetKeeps(s, step);
        case Back(_, _) => BackKeeps(s, step);
        case _ => OtherKeeps(s, step);
      }
      RunKeeps(Apply(s, step), steps[1..]);
    }
  }

  lemma StartInv()
    ensures PoolInv(START) && ReplyInv(START)
  {
    assert Held(START) == {};
  }

  /** At any time every handle opened is queued under its own name, held by one job under that name, or closed: one of the three, once. */
  lemma EveryHandleInOnePlace(steps: seq<Step>, h: Handle)
    requires Executes(START, steps) && h < |After(START, steps).pool.openedFor|
    ensures var s := After(START, steps); var db := s.pool.openedFor[h];
            && (InQueue(s.pool, db, h) || (exists j :: Holds(s, j) && HandleOf(s, j) == h) || IsClosed(s.pool, h))
            && (InQueue(s.pool, db, h) ==> !IsClosed(s.pool, h) && !exists j :: Holds(s, j) && HandleOf(s, j) == h)
            && (IsClosed(s.pool, h) ==> !exists j :: Holds(s, j) && HandleOf(s, j) == h)
            && (forall d :: InQueue(s.pool, d, h) ==> d == db)
            && Distinct(QueueOf(s.pool, db)) && Distinct(s.pool.closed)
            && (forall j, k :: Holds(s, j) && Holds(s, k) && HandleOf(s, j) == HandleOf(s, k) ==> j == k)
            && (forall j :: Holds(s, j) && HandleOf(s, j) == h ==> s.jobs[j].db_name == db)
  {
    StartInv();
    RunKeeps(START, steps);
    var s := After(START, steps);
    assert forall j :: Holds(s, j) ==> HandleOf(s, j) in Held(s);
    if h in Held(s) {
      var j :| j in s.jobs && Holds(s, j) && HandleOf(s, j) == h;
      assert Holds(s, j) && HandleOf(s, j) == h;
    }
  }

  /** When every job is done no handle is held, and each job has exactly one reply, with its own cookie when that fits an int. */
  lemma WhenAllDone(steps: seq<Step>)
    requires Executes(START, steps)
    requires var s := After(START, steps); forall j :: j in s.jobs ==> s.jobs[j].phase.Done?
    ensures var s := After(START, steps);
            && Held(s) == {}
            && (forall h: Handle :: h < |s.pool.openedFor| ==> InQueue(s.pool, s.pool.openedFor[h], h) || IsClosed(s.pool, h))
            && (forall j :: j in s.jobs ==> exists i :: 0 <= i < |s.replies| && Answers(s, i, j))
  {
    StartInv();
    RunKeeps(START, steps);
    assert Held(After(START, steps)) == {};
  }

  /** At any time a job has at most one reply, and has it exactly when it is done. */
  lemma OneReplyEach(steps: seq<Step>, j: nat)
    requires Executes(START, steps) && j in After(START, steps).jobs
    ensures var s := After(START, steps);
            && (s.jobs[j].phase.Done? <==> exists i :: 0 <= i < |s.replies| && Answers(s, i, j))
            && (forall i, k :: 0 <= i < |s.replies| && 0 <= k < |s.replies| && Answers(s, i, j) && Answers(s, k, j) ==> i == k)
            && (-0x8000_0000 <= s.jobs[j].cookie < 0x8000_0000 ==>
                  forall i :: 0 <= i < |s.replies| && Answers(s, i, j) ==> s.replies[i].cookie == s.jobs[j].cookie)
  {
    StartInv();
    RunKeeps(START, steps);
  }

  /** The job as it was posted: the steps that post it, read off the run alone. */
  predicate PostedIn(steps: seq<Step>, j: nat, cookie: int, db_name: Name)
  {
    exists i :: 0 <= i < |steps| && steps[i] == AddExecDb(j, cookie, db_name)
  }

  lemma {:induction false} JobKept(s: State, steps: seq<Step>, j: nat)
    requires Executes(s, steps) && j in s.jobs
    ensures j in After(s, steps).jobs
    ensures After(s, steps).jobs[j].cookie == s.jobs[j].cookie && After(s, steps).jobs[j].db_name == s.jobs[j].db_name
    decreases |steps|
  {
    hide Borrow, GiveBack;
    if steps != [] {
      JobKept(Apply(s, steps[0]), steps[1..], j);
    }
  }

  /** A job keeps, to its end, the cookie and the name it was posted with. */
  lemma {:induction false} JobAsPosted(s: State, steps: seq<Step>, j: nat, cookie: int, db_name: Name)
    requires Executes(s, steps) && PostedIn(steps, j, cookie, db_name)
    ensures j in After(s, steps).jobs
    ensures After(s, steps).jobs[j].cookie == cookie && After(s, steps).jobs[j].db_name == db_name
    decreases |steps|
  {
    hide Borrow, GiveBack;
    var i :| 0 <= i < |steps| && steps[i] == AddExecDb(j, cookie, db_name);
    if i == 0 {
      JobKept(Apply(s, steps[0]), steps[1..], j);
    } else {
      assert steps[1..][i - 1] == AddExecDb(j, cookie, db_name);
      JobAsPosted(Apply(s, steps[0]), steps[1..], j, cookie, db_name);
    }
  }
}
