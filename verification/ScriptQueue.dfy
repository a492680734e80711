/** The hand-over of script messages from any number of producers to the script thread's loop. */
module ScriptQueue {
  import opened Bytes

  /** A script message and the thread that posted it; the contents do not matter here. */
  datatype Posted<T> = Posted(producer: nat, content: T)

  class ScriptManager<T> {
    var wait_queue: seq<Posted<T>>
    /** What the script has been called with. */
    var handled: seq<Posted<T>>

    method AddMsg(sm: Posted<T>)
      modifies `wait_queue
      ensures wait_queue == old(wait_queue) + [sm]
    {
      wait_queue := wait_queue + [sm];
    }

    /** LuaLoop's first block, under the lock. */
    method TakeAll() returns (temp_queue: seq<Posted<T>>)
      modifies `wait_queue
      ensures temp_queue == old(wait_queue) && wait_queue == []
    {
      temp_queue := [];
      while |wait_queue| > 0
        invariant temp_queue + wait_queue == old(wait_queue)
        decreases |wait_queue|
      {
        temp_queue := temp_queue + [wait_queue[0]];
        wait_queue := wait_queue[1..];
      }
    }

    /** A whole LuaLoop with no producer in between. */
    method LuaLoop()
      modifies this
      ensures wait_queue == [] && handled == old(handled) + old(wait_queue)
    {
      var temp_queue := TakeAll();
      while |temp_queue| > 0
        invariant handled + temp_queue == old(handled) + old(wait_queue) && wait_queue == []
        decreases |temp_queue|
      {
        var cur := temp_queue[0];
        temp_queue := temp_queue[1..];
        handled := handled + [cur];
      }
    }
  }

  /** The queue, LuaLoop's temporary queue, and the messages given to Lua. */
  datatype State<T> = State(waiting: seq<Posted<T>>, temporary: seq<Posted<T>>, handled: seq<Posted<T>>)

  datatype Step<T> =
    | Add(sm: Posted<T>)   // any producer, at any time
    | Take                 // the script thread starts a loop: its last temporary queue has run empty
    | Handle               // the script thread handles the front of its temporary queue

  predicate Enabled<T>(s: State<T>, step: Step<T>)
  {
    match step
    case Add(_) => true
    case Take => |s.temporary| == 0
    case Handle => |s.temporary| > 0
  }

  function Apply<T>(s: State<T>, step: Step<T>): State<T>
    requires Enabled(s, step)
  {
    match step
    case Add(sm) => s.(waiting := s.waiting + [sm])
    case Take => s.(waiting := [], temporary := s.waiting)
    case Handle => s.(temporary := s.temporary[1..], handled := s.handled + [s.temporary[0]])
  }

  predicate Executes<T>(s: State<T>, steps: seq<Step<T>>)
    decreases |steps|
  {
    |steps| == 0 || (Enabled(s, steps[0]) && Executes(Apply(s, steps[0]), steps[1..]))
  }

  function After<T>(s: State<T>, steps: seq<Step<T>>): State<T>
    requires Executes(s, steps)
    decreases |steps|
  {
    if |steps| == 0 then s else After(Apply(s, steps[0]), steps[1..])
  }

  /** Every AddMsg of a run, in the order of the lock, read off its steps alone. */
  function Adds<T>(steps: seq<Step<T>>): seq<Posted<T>>
  {
    if |steps| == 0 then []
    else (if steps[0].Add? then [steps[0].sm] else []) + Adds(steps[1..])
  }

  function InSystem<T>(s: State<T>): seq<Posted<T>>
  {
    s.handled + s.temporary + s.waiting
  }

  /** Handled, then taken, then waiting: always exactly what there was and what was added, in the order of the lock. */
  lemma {:induction false} HandOver<T>(s: State<T>, steps: seq<Step<T>>)
    requires Executes(s, steps)
    ensures InSystem(After(s, steps)) == InSystem(s) + Adds(steps)
    decreases |steps|
  {
    hide Apply, Enabled, InSystem;
    if |steps| == 0 {
      assert InSystem(s) + Adds(steps) == InSystem(s);
    } else {
      StepHandsOver(s, steps[0]);
      HandOver(Apply(s, steps[0]), steps[1..]);
      Regroup(InSystem(s), if steps[0].Add? then [steps[0].sm] else [], Adds(steps[1..]));
    }
  }

  lemma StepHandsOver<T>(s: State<T>, step: Step<T>)
    requires Enabled(s, step)
    ensures InSystem(Apply(s, step)) == InSystem(s) + if step.Add? then [step.sm] else []
  {
  }

  function Of<T>(producer: nat, ms: seq<Posted<T>>): seq<Posted<T>>
  {
    if ms == [] then []
    else (if ms[0].producer == producer then [ms[0]] else []) + Of(producer, ms[1..])
  }

  lemma {:induction false} OfConcat<T>(producer: nat, a: seq<Posted<T>>, b: seq<Posted<T>>)
    ensures Of(producer, a + b) == Of(producer, a) + Of(producer, b)
  {
    if a == [] {
      assert a + b == b && Of(producer, a) == [];
    } else {
      assert (a + b)[1..] == a[1..] + b;
      OfConcat(producer, a[1..], b);
      OfUnfolds(producer, a);
      OfUnfolds(producer, a + b);
    }
  }

  lemma OfUnfolds<T>(producer: nat, ms: seq<Posted<T>>)
    requires ms != []
    ensures Of(producer, ms) == (if ms[0].producer == producer then [ms[0]] else []) + Of(producer, ms[1..])
  {
  }

  /** Each producer's messages are handled in the order it posted them, none twice and none passed over. */
  lemma ProducerOrder<T>(steps: seq<Step<T>>, producer: nat)
    requires Executes(State([], [], []), steps)
    ensures var s := After(State([], [], []), steps);
            && Of(producer, s.handled) + Of(producer, s.temporary) + Of(producer, s.waiting) == Of(producer, Adds(steps))
            && Of(producer, s.handled) <= Of(producer, Adds(steps))
  {
    HandOver(State([], [], []), steps);
    var s := After(State([], [], []), steps);
    assert InSystem(s) == Adds(steps);
    OfConcat(producer, s.handled, s.temporary);
    OfConcat(producer, s.handled + s.temporary, s.waiting);
  }
}
