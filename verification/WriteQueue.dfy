/**
 The outgoing queue of a TCP or WebSocket connection: script threads that push, the I/O thread's completion
 and handshake callbacks, one lock, and an unlocked read of finish_hand_shake, one atomic step at a time.
 */
module WriteQueue {
  import opened Bytes

  type Text = seq<byte>

  /** Where a thread stands in do_write_cache, do_write or a callback. */
  datatype Pc =
    | Idle
    | AtDoWrite            // about to run do_write
    | AtLock               // past the handshake test, about to take the lock
    | AtStart(msg: Text)   // holds a message taken from the queue, about to call async_write
    | AtClear              // write completion: about to reset is_writing under the lock
    | AtFinish             // handshake completion: about to set finish_hand_shake under the lock

  datatype Answer = NotSent | Sending | Sent | Broken

  datatype State = State(
    websocket: bool,
    queue: seq<Text>,        // _write_list
    isWriting: bool,
    finished: bool,          // finish_hand_shake
    answer: Answer,          // the handshake answer's own write
    pcs: map<nat, Pc>,       // every thread not listed is idle
    inFlight: seq<Text>,     // writes started and not completed
    written: seq<Text>,      // writes completed, in order
    lost: seq<Text>,         // writes that failed
    pushed: seq<Text>)       // every push, in the order of the lock

  function PcOf(s: State, t: nat): Pc
  {
    if t in s.pcs then s.pcs[t] else Idle
  }

  function At(s: State, t: nat, pc: Pc): State
  {
    s.(pcs := s.pcs[t := pc])
  }

  datatype Step =
    | Push(t: nat, msg: Text)
    | Check(t: nat)
    | Lock(t: nat)
    | Start(t: nat)
    | Complete(i: nat, t: nat, ok: bool)
    | Clear(t: nat)
    | SendAnswer
    | AnswerDone(t: nat, ok: bool)
    | Finish(t: nat)

  predicate Enabled(s: State, step: Step)
  {
    match step
    case Push(t, _) => PcOf(s, t).Idle?
    case Check(t) => PcOf(s, t).AtDoWrite?
    case Lock(t) => PcOf(s, t).AtLock?
    case Start(t) => PcOf(s, t).AtStart?
    case Complete(i, t, _) => i < |s.inFlight| && PcOf(s, t).Idle?
    case Clear(t) => PcOf(s, t).AtClear?
    case SendAnswer => s.websocket && s.answer.NotSent?
    case AnswerDone(t, _) => s.answer.Sending? && PcOf(s, t).Idle?
    case Finish(t) => PcOf(s, t).AtFinish?
  }

  function Apply(s: State, step: Step): State
    requires Enabled(s, step)
  {
    match step
    case Push(t, msg) => At(s.(queue := s.queue + [msg], pushed := s.pushed + [msg]), t, AtDoWrite)
    case Check(t) => At(s, t, if s.websocket && !s.finished then Idle else AtLock)
    case Lock(t) =>
      if !s.isWriting && |s.queue| > 0 then
        var msg := s.queue[0];
        At(s.(queue := s.queue[1..], isWriting := true), t, if msg != [] then AtStart(msg) else Idle)
      else At(s, t, Idle)
    case Start(t) => At(s.(inFlight := s.inFlight + [PcOf(s, t).msg]), t, Idle)
    case Complete(i, t, ok) =>
      var msg, others := s.inFlight[i], s.inFlight[..i] + s.inFlight[i + 1..];
      if ok then At(s.(inFlight := others, written := s.written + [msg]), t, AtClear)
      else s.(inFlight := others, lost := s.lost + [msg])
    case Clear(t) => At(s.(isWriting := false), t, AtDoWrite)
    case SendAnswer => s.(answer := Sending)
    case AnswerDone(t, ok) => if ok then At(s.(answer := Sent), t, AtFinish) else s.(answer := Broken)
    case Finish(t) => At(s.(finished := true), t, AtDoWrite)
  }

  /**
   The fields the threads share, and what one thread does to them between two points where others may run:
   each section is one step of the system.
   */
  class Connection {
    const websocket: bool
    var write_list: seq<Text>
    var is_writing: bool
    var finish_hand_shake: bool

    constructor (websocket: bool)
      ensures ShownIn(Initial(websocket))
    {
      this.websocket := websocket;
      write_list, is_writing, finish_hand_shake := [], false, false;
    }

    ghost predicate ShownIn(s: State)
      reads this
    {
      s.websocket == websocket && s.queue == write_list && s.isWriting == is_writing && s.finished == finish_hand_shake
    }

    /** do_write_cache under the lock. */
    method Enqueue(msg: Text, ghost s: State, ghost t: nat)
      requires ShownIn(s) && Enabled(s, Push(t, msg))
      modifies this
      ensures ShownIn(Apply(s, Push(t, msg)))
      ensures write_list == old(write_list) + [msg] && is_writing == old(is_writing) && finish_hand_shake == old(finish_hand_shake)
    {
      write_list := write_list + [msg];
    }

    /** The unlocked test at the start of the WebSocket's do_write. */
    method MayWrite(ghost s: State, ghost t: nat) returns (go: bool)
      requires ShownIn(s) && Enabled(s, Check(t))
      ensures ShownIn(Apply(s, Check(t)))
      ensures PcOf(Apply(s, Check(t)), t) == if go then AtLock else Idle
      ensures go == (websocket ==> finish_hand_shake)
    {
      go := true;
      if websocket {
        if !finish_hand_shake {
          go := false;
        }
      }
    }

    /** do_write under the lock; an empty result starts no write. */
    method TakeNext(ghost s: State, ghost t: nat) returns (msg: Text)
      requires ShownIn(s) && Enabled(s, Lock(t))
      modifies this
      ensures ShownIn(Apply(s, Lock(t)))
      ensures PcOf(Apply(s, Lock(t)), t) == if msg != [] then AtStart(msg) else Idle
      ensures !old(is_writing) && old(write_list) != [] ==> is_writing && [msg] + write_list == old(write_list)
      ensures old(is_writing) || old(write_list) == [] ==> is_writing == old(is_writing) && msg == [] && write_list == old(write_list)
      ensures finish_hand_shake == old(finish_hand_shake)
    {
      msg := [];
      if !is_writing && |write_list| > 0 {
        msg := write_list[0];
        write_list := write_list[1..];
        is_writing := true;
      }
    }

    /** The completion callback of a write under the lock. */
    method WriteDone(ghost s: State, ghost t: nat)
      requires ShownIn(s) && Enabled(s, Clear(t))
      modifies this
      ensures ShownIn(Apply(s, Clear(t)))
      ensures !is_writing && write_list == old(write_list) && finish_hand_shake == old(finish_hand_shake)
    {
      is_writing := false;
    }

    /** The completion callback of the handshake answer under the lock. */
    method HandshakeDone(ghost s: State, ghost t: nat)
      requires ShownIn(s) && Enabled(s, Finish(t))
      modifies this
      ensures ShownIn(Apply(s, Finish(t)))
      ensures finish_hand_shake && write_list == old(write_list) && is_writing == old(is_writing)
    {
      finish_hand_shake := true;
    }
  }

  function Initial(websocket: bool): State
  {
    State(websocket, [], false, false, NotSent, map[], [], [], [], [])
  }

  predicate Executes(s: State, steps: seq<Step>)
    decreases |steps|
  {
    steps == [] || (Enabled(s, steps[0]) && Executes(Apply(s, steps[0]), steps[1..]))
  }

  function After(s: State, steps: seq<Step>): State
    requires Executes(s, steps)
    decreases |steps|
  {
    if steps == [] then s else After(Apply(s, steps[0]), steps[1..])
  }

  // The invariant.

  /** Who answers for is_writing being set. */
  datatype Owner =
    | Nobody
    | Starting(t: nat, msg: Text)
    | Flying(msg: Text)
    | Clearing(t: nat)
    | Failed(msg: Text)
    | Swallowed

  function Carried(o: Owner): seq<Text>
  {
    match o
    case Starting(_, msg) => [msg]
    case Flying(msg) => [msg]
    case Failed(msg) => [msg]
    case Swallowed => [[]]
    case Nobody => []
    case Clearing(_) => []
  }

  predicate Open(s: State)
  {
    s.websocket ==> s.finished
  }

  predicate Trying(pc: Pc)
  {
    pc.AtDoWrite? || pc.AtLock?
  }

  ghost predicate Inv(s: State, o: Owner)
  {
    // is_writing has exactly one owner
    && (s.isWriting <==> !o.Nobody?)
    && (forall t :: PcOf(s, t).AtStart? ==> o == Starting(t, PcOf(s, t).msg))
    && (o.Starting? ==> PcOf(s, o.t) == AtStart(o.msg) && o.msg != [])
    && (forall t :: PcOf(s, t).AtClear? ==> o == Clearing(t))
    && (o.Clearing? ==> PcOf(s, o.t).AtClear?)
    && s.inFlight == (if o.Flying? then [o.msg] else [])
    && (o.Flying? ==> o.msg != [])
    && s.lost == (if o.Failed? then [o.msg] else [])
    // nothing lost, doubled or reordered
    && s.written + Carried(o) + s.queue == s.pushed
    && (forall i :: 0 <= i < |s.written| ==> s.written[i] != [])
    // before the handshake ends nothing is written
    && (!Open(s) ==> o.Nobody? && forall t :: !PcOf(s, t).AtLock?)
    && (s.finished ==> s.answer.Sent?)
    && (!s.answer.NotSent? ==> s.websocket)
    && (forall t :: PcOf(s, t).AtFinish? ==> s.answer.Sent?)
    // a waiting message has someone coming for it
    && (Open(s) && o.Nobody? && s.queue != [] ==> exists t :: Trying(PcOf(s, t)))
  }

  function NextOwner(s: State, o: Owner, step: Step): Owner
    requires Enabled(s, step)
  {
    match step
    case Lock(t) =>
      if !s.isWriting && |s.queue| > 0 then (if s.queue[0] != [] then Starting(t, s.queue[0]) else Swallowed) else o
    case Start(t) => Flying(PcOf(s, t).msg)
    case Complete(i, t, ok) => if ok then Clearing(t) else Failed(s.inFlight[i])
    case Clear(t) => Nobody
    case _ => o
  }

  /** The thread a step belongs to; none moves when the answer is sent or a write fails. */
  function ThreadOf(step: Step): nat
  {
    match step
    case Push(t, _) => t
    case Check(t) => t
    case Lock(t) => t
    case Start(t) => t
    case Complete(_, t, _) => t
    case Clear(t) => t
    case SendAnswer => 0
    case AnswerDone(t, _) => t
    case Finish(t) => t
  }

  lemma OthersStay(s: State, step: Step)
    requires Enabled(s, step)
    ensures forall u :: u != ThreadOf(step) || step.SendAnswer? ==> PcOf(Apply(s, step), u) == PcOf(s, u)
  {
  }

  lemma InitialInv(websocket: bool)
    ensures Inv(Initial(websocket), Nobody)
  {
  }

  lemma PushKeeps(s: State, o: Owner, step: Step)
    requires Inv(s, o) && Enabled(s, step) && step.Push?
    ensures Inv(Apply(s, step), o)
  {
    OthersStay(s, step);
    var s' := Apply(s, step);
    assert s.written + Carried(o) + (s.queue + [step.msg]) == s.written + Carried(o) + s.queue + [step.msg];
    assert Trying(PcOf(s', step.t));
  }

  lemma CheckKeeps(s: State, o: Owner, step: Step)
    requires Inv(s, o) && Enabled(s, step) && step.Check?
    ensures Inv(Apply(s, step), o)
  {
    OthersStay(s, step);
    var s' := Apply(s, step);
    if Open(s) {
      assert Trying(PcOf(s', step.t));
    }
  }

  lemma LockKeeps(s: State, o: Owner, step: Step)
    requires Inv(s, o) && Enabled(s, step) && step.Lock?
    ensures Inv(Apply(s, step), NextOwner(s, o, step))
  {
    OthersStay(s, step);
    if !s.isWriting && |s.queue| > 0 {
      assert s.written + [] + s.queue == s.written + [s.queue[0]] + s.queue[1..];
    }
  }

  lemma StartKeeps(s: State, o: Owner, step: Step)
    requires Inv(s, o) && Enabled(s, step) && step.Start?
    ensures Inv(Apply(s, step), NextOwner(s, o, step))
  {
    OthersStay(s, step);
  }

  lemma CompleteKeeps(s: State, o: Owner, step: Step)
    requires Inv(s, o) && Enabled(s, step) && step.Complete?
    ensures Inv(Apply(s, step), NextOwner(s, o, step))
  {
    OthersStay(s, step);
    assert s.inFlight == [o.msg] && step.i == 0;
    assert s.written + [o.msg] + s.queue == s.written + [o.msg] + [] + s.queue;
  }

  lemma ClearKeeps(s: State, o: Owner, step: Step)
    requires Inv(s, o) && Enabled(s, step) && step.Clear?
    ensures Inv(Apply(s, step), NextOwner(s, o, step))
  {
    OthersStay(s, step);
    assert Trying(PcOf(Apply(s, step), step.t));
  }

  lemma HandshakeKeeps(s: State, o: Owner, step: Step)
    requires Inv(s, o) && Enabled(s, step) && (step.SendAnswer? || step.AnswerDone? || step.Finish?)
    ensures Inv(Apply(s, step), o)
  {
    OthersStay(s, step);
    var s' := Apply(s, step);
    if step.Finish? {
      assert Trying(PcOf(s', step.t));
    }
  }

  /** Every step of every thread keeps the invariant. */
  lemma StepKeeps(s: State, o: Owner, step: Step)
    requires Inv(s, o) && Enabled(s, step)
    ensures Inv(Apply(s, step), NextOwner(s, o, step))
  {
    match step
    case Push(_, _) => PushKeeps(s, o, step);
    case Check(_) => CheckKeeps(s, o, step);
    case Lock(_) => LockKeeps(s, o, step);
    case Start(_) => StartKeeps(s, o, step);
    case Complete(_, _, _) => CompleteKeeps(s, o, step);
    case Clear(_) => ClearKeeps(s, o, step);
    case _ => HandshakeKeeps(s, o, step);
  }

  lemma {:induction false} RunKeeps(s: State, o: Owner, steps: seq<Step>) returns (o': Owner)
    requires Inv(s, o) && Executes(s, steps)
    ensures Inv(After(s, steps), o')
    decreases |steps|
  {
    if steps == [] {
      o' := o;
    } else {
      StepKeeps(s, o, steps[0]);
      o' := RunKeeps(Apply(s, steps[0]), NextOwner(s, o, steps[0]), steps[1..]);
    }
  }

  // What a run was asked to send, read off its steps alone.

  /** The texts of the pushes, in the order of the lock. */
  function Pushes(steps: seq<Step>): (texts: seq<Text>)
  {
    if steps == [] then []
    else (if steps[0].Push? then [steps[0].msg] else []) + Pushes(steps[1..])
  }

  /** The history records every push and nothing else. */
  lemma {:induction false} PushedIs(s: State, steps: seq<Step>)
    requires Executes(s, steps)
    ensures After(s, steps).pushed == s.pushed + Pushes(steps)
    decreases |steps|
  {
    if steps != [] {
      PushedIs(Apply(s, steps[0]), steps[1..]);
    }
  }

  // What holds in every reachable state.

  predicate AllIdle(s: State)
  {
    forall t :: t in s.pcs ==> s.pcs[t].Idle?
  }

  /** At most one write is on the socket, the handshake's answer included. */
  lemma AtMostOneWrite(websocket: bool, steps: seq<Step>)
    requires Executes(Initial(websocket), steps)
    ensures var s := After(Initial(websocket), steps);
            |s.inFlight| + (if s.answer.Sending? then 1 else 0) <= 1
  {
    InitialInv(websocket);
    var o := RunKeeps(Initial(websocket), Nobody, steps);
  }

  /**
   What is written, then what one thread or the socket holds, then what is queued, is what the run pushed, in the
   order of the lock. In a quiet moment what is held is the write in flight or the one that failed.
   */
  lemma NothingLost(websocket: bool, steps: seq<Step>)
    requires Executes(Initial(websocket), steps)
    ensures var s := After(Initial(websocket), steps);
            && (exists held :: |held| <= 1 && s.inFlight + s.lost <= held && s.written + held + s.queue == Pushes(steps))
            && (AllIdle(s) && [] !in Pushes(steps) ==> s.written + (s.inFlight + s.lost) + s.queue == Pushes(steps))
  {
    hide Inv, After, Executes, Pushes;
    InitialInv(websocket);
    var o := RunKeeps(Initial(websocket), Nobody, steps);
    PushedIs(Initial(websocket), steps);
    assert [] + Pushes(steps) == Pushes(steps);
    Accounts(After(Initial(websocket), steps), o);
  }

  lemma Accounts(s: State, o: Owner)
    requires Inv(s, o)
    ensures exists held :: |held| <= 1 && s.inFlight + s.lost <= held && s.written + held + s.queue == s.pushed
    ensures AllIdle(s) && [] !in s.pushed ==> s.written + (s.inFlight + s.lost) + s.queue == s.pushed
  {
    var held := Carried(o);
    assert |held| <= 1 && s.inFlight + s.lost <= held && s.written + held + s.queue == s.pushed;
    if AllIdle(s) && [] !in s.pushed {
      QuietOwner(s, o);
      if o.Swallowed? {
        SwallowedIsPushed(s);
      }
      assert held == s.inFlight + s.lost;
    }
  }

  lemma SwallowedIsPushed(s: State)
    requires Inv(s, Swallowed)
    ensures [] in s.pushed
  {
    assert s.pushed[|s.written|] == [];
  }

  lemma QuietOwner(s: State, o: Owner)
    requires Inv(s, o) && AllIdle(s)
    ensures o.Nobody? || o.Flying? || o.Swallowed? || o.Failed?
  {
    assert forall t :: PcOf(s, t).Idle?;
  }

  /**
   No lost wake-up. In a quiet moment - no thread inside a call, no write failed, the handshake over - a message
   is still queued only while a write is in flight, unless an empty message has been taken from the queue.
   */
  lemma QuietAndQueued(websocket: bool, steps: seq<Step>)
    requires Executes(Initial(websocket), steps)
    requires var s := After(Initial(websocket), steps);
             AllIdle(s) && s.lost == [] && Open(s) && s.queue != []
    ensures var s := After(Initial(websocket), steps);
            && |s.queue| <= |Pushes(steps)|
            && (|s.inFlight| == 1 <==> [] !in Pushes(steps)[..|Pushes(steps)| - |s.queue|])
  {
    hide Inv, After, Executes, Pushes;
    InitialInv(websocket);
    var o := RunKeeps(Initial(websocket), Nobody, steps);
    PushedIs(Initial(websocket), steps);
    assert [] + Pushes(steps) == Pushes(steps);
    WokenUp(After(Initial(websocket), steps), o);
  }

  lemma WokenUp(s: State, o: Owner)
    requires Inv(s, o) && AllIdle(s) && s.lost == [] && Open(s) && s.queue != []
    ensures |s.queue| <= |s.pushed|
    ensures |s.inFlight| == 1 <==> [] !in s.pushed[..|s.pushed| - |s.queue|]
  {
    QuietOwner(s, o);
    assert forall t :: !Trying(PcOf(s, t));
    var taken := s.written + Carried(o);
    assert s.pushed == taken + s.queue;
    assert s.pushed[..|s.pushed| - |s.queue|] == taken;
    if o.Swallowed? {
      assert taken[|s.written|] == [];
    }
  }

  /** The exception is real: an empty message sets is_writing, starts nothing, and the next message stays queued. */
  lemma EmptyMessageSticks()
    ensures var steps := [Push(0, []), Check(0), Lock(0), Push(0, [7]), Check(0), Lock(0)];
            && Executes(Initial(false), steps)
            && var s := After(Initial(false), steps);
               AllIdle(s) && s.lost == [] && s.queue == [[7]] && s.inFlight == []
  {
    var s0 := Initial(false);
    var s1 := Apply(s0, Push(0, []));
    var s2 := Apply(s1, Check(0));
    var s3 := Apply(s2, Lock(0));
    var s4 := Apply(s3, Push(0, [7]));
    var s5 := Apply(s4, Check(0));
    var s6 := Apply(s5, Lock(0));
    var steps := [Push(0, []), Check(0), Lock(0), Push(0, [7]), Check(0), Lock(0)];
    Unfold(s5, steps[5..]);
    Unfold(s4, steps[4..]);
    Unfold(s3, steps[3..]);
    Unfold(s2, steps[2..]);
    Unfold(s1, steps[1..]);
    Unfold(s0, steps);
    assert Executes(s6, []) && After(s6, []) == s6;
  }

  lemma Unfold(s: State, steps: seq<Step>)
    requires steps != [] && Enabled(s, steps[0])
    ensures Executes(s, steps) <==> Executes(Apply(s, steps[0]), steps[1..])
    ensures Executes(s, steps) ==> After(s, steps) == After(Apply(s, steps[0]), steps[1..])
  {
  }

  // Sending is possible.

  /** Nothing in the way: no thread inside a call, nothing queued, in flight or failed, the handshake over. */
  predicate Resting(s: State)
  {
    AllIdle(s) && Open(s) && !s.isWriting && s.queue == [] && s.inFlight == [] && s.lost == []
  }

  predicate SendingOne(s: State, msg: Text)
  {
    AllIdle(s) && Open(s) && s.isWriting && s.queue == [] && s.inFlight == [msg] && s.lost == []
  }

  lemma Starts(s: State, t: nat, msg: Text)
    requires Resting(s) && msg != []
    ensures var steps := [Push(t, msg), Check(t), Lock(t), Start(t)];
            Executes(s, steps) && SendingOne(After(s, steps), msg) && After(s, steps).written == s.written
  {
    var steps := [Push(t, msg), Check(t), Lock(t), Start(t)];
    var s1 := Apply(s, steps[0]);
    var s2 := Apply(s1, steps[1]);
    var s3 := Apply(s2, steps[2]);
    var s4 := Apply(s3, steps[3]);
    assert s4.inFlight == [msg] && AllIdle(s4);
    assert Executes(s4, []) && After(s4, []) == s4;
    hide Apply;
    Unfold(s3, steps[3..]);
    Unfold(s2, steps[2..]);
    Unfold(s1, steps[1..]);
    Unfold(s, steps);
  }

  lemma Finishes(s: State, t: nat, msg: Text)
    requires SendingOne(s, msg)
    ensures var steps := [Complete(0, t, true), Clear(t), Check(t), Lock(t)];
            Executes(s, steps) && Resting(After(s, steps)) && After(s, steps).written == s.written + [msg]
  {
    var steps := [Complete(0, t, true), Clear(t), Check(t), Lock(t)];
    var s1 := Apply(s, steps[0]);
    var s2 := Apply(s1, steps[1]);
    var s3 := Apply(s2, steps[2]);
    var s4 := Apply(s3, steps[3]);
    assert s4.inFlight == [] && AllIdle(s4) && s4.written == s.written + [msg];
    assert Executes(s4, []) && After(s4, []) == s4;
    hide Apply;
    Unfold(s3, steps[3..]);
    Unfold(s2, steps[2..]);
    Unfold(s1, steps[1..]);
    Unfold(s, steps);
  }

  lemma {:induction false} RunsJoin(s: State, a: seq<Step>, b: seq<Step>)
    requires Executes(s, a) && Executes(After(s, a), b)
    ensures Executes(s, a + b) && After(s, a + b) == After(After(s, a), b)
    decreases |a|
  {
    hide Apply, Enabled;
    if a == [] {
      assert a + b == b;
    } else {
      assert (a + b)[1..] == a[1..] + b;
      RunsJoin(Apply(s, a[0]), a[1..], b);
    }
  }

  lemma {:induction false} PushesJoin(a: seq<Step>, b: seq<Step>)
    ensures Pushes(a + b) == Pushes(a) + Pushes(b)
  {
    if a == [] {
      assert a + b == b;
    } else {
      assert (a + b)[1..] == a[1..] + b;
      PushesJoin(a[1..], b);
    }
  }

  lemma OnePush(t: nat, msg: Text)
    ensures Pushes([Push(t, msg), Check(t), Lock(t), Start(t)] + [Complete(0, t, true), Clear(t), Check(t), Lock(t)]) == [msg]
  {
    var rest := [Complete(0, t, true), Clear(t), Check(t), Lock(t)];
    assert Pushes(rest[3..]) == [];
    assert Pushes(rest[2..]) == [] && Pushes(rest[1..]) == [] && Pushes(rest) == [];
    var first := [Push(t, msg), Check(t), Lock(t), Start(t)];
    assert Pushes(first[3..]) == [];
    assert Pushes(first[2..]) == [] && Pushes(first[1..]) == [] && Pushes(first) == [msg];
    PushesJoin(first, rest);
  }

  /** From a resting state every list of texts, none of them empty, can be pushed and written, by any thread. */
  lemma {:induction false} CanSendAll(s: State, t: nat, texts: seq<Text>) returns (steps: seq<Step>)
    requires Resting(s) && [] !in texts
    ensures Executes(s, steps) && Pushes(steps) == texts
    ensures Resting(After(s, steps)) && After(s, steps).written == s.written + texts
    decreases |texts|
  {
    hide Apply, Enabled, Executes, After, Pushes, Resting, SendingOne;
    if texts == [] {
      steps := [];
      NoSteps(s);
      assert s.written + texts == s.written;
    } else {
      var first, second := [Push(t, texts[0]), Check(t), Lock(t), Start(t)], [Complete(0, t, true), Clear(t), Check(t), Lock(t)];
      Starts(s, t, texts[0]);
      Finishes(After(s, first), t, texts[0]);
      RunsJoin(s, first, second);
      OnePush(t, texts[0]);
      var after := After(s, first + second);
      var later := CanSendAll(after, t, texts[1..]);
      RunsJoin(s, first + second, later);
      PushesJoin(first + second, later);
      steps := first + second + later;
      assert texts == [texts[0]] + texts[1..];
      assert s.written + [texts[0]] + texts[1..] == s.written + texts;
    }
  }

  lemma NoSteps(s: State)
    ensures Executes(s, []) && After(s, []) == s && Pushes([]) == []
  {
  }
}
