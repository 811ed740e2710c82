/**
 The serial queue of src/io/serialQueue.ts as the promise chain it builds: submitting a task chains its
 result behind the current tail, and a handler on that result, for either outcome, becomes the new tail.
 */
module SerialQueue {
  import opened Runs

  /** The promise `run` returns for a task. */
  datatype Result = Queued | Running | Settled(fulfilled: bool)

  /**
   Task i's result is `results[i]`; `handled[i]` says its tail handler has run, which is when the tail it
   made is fulfilled and the depth goes down. `startOrder` records which task started when.
   */
  datatype Queue = Queue(results: seq<Result>, handled: seq<bool>, depth: int, startOrder: seq<nat>)

  const EMPTY := Queue([], [], 0, [])

  datatype Event = Run | Start(task: nat) | Settle(task: nat, fulfilled: bool) | Handle(task: nat)

  /** `tail.then(task, task)` starts a task once the tail before it is fulfilled; the first tail is. */
  predicate Enabled(q: Queue, e: Event) {
    match e
    case Run => true
    case Start(i) => i < |q.results| == |q.handled| && q.results[i].Queued? && (i == 0 || q.handled[i - 1])
    case Settle(i, _) => i < |q.results| && q.results[i].Running?
    case Handle(i) => i < |q.results| == |q.handled| && q.results[i].Settled? && !q.handled[i]
  }

  function Step(q: Queue, e: Event): Queue {
    match e
    case Run => q.(results := q.results + [Queued], handled := q.handled + [false], depth := q.depth + 1)
    case Start(i) =>
      if i < |q.results| then q.(results := q.results[i := Running], startOrder := q.startOrder + [i]) else q
    case Settle(i, fulfilled) => if i < |q.results| then q.(results := q.results[i := Settled(fulfilled)]) else q
    case Handle(i) => if i < |q.handled| then q.(handled := q.handled[i := true], depth := q.depth - 1) else q
  }

  function Stepper(): (Queue, Event) -> Queue {
    (q, e) => Step(q, e)
  }

  predicate Admissible(q: Queue, events: seq<Event>)
    decreases |events|
  {
    events == [] || (Enabled(q, events[0]) && Admissible(Step(q, events[0]), events[1..]))
  }

  function Exec(q: Queue, events: seq<Event>): Queue {
    Fold(Stepper(), q, events)
  }

  // ---------- the invariant ----------

  /** Everything before `k` is over, everything after it has not begun. */
  predicate Frontier(q: Queue, k: nat) {
    && |q.results| == |q.handled| && k <= |q.results|
    && (forall i :: 0 <= i < k ==> q.results[i].Settled? && q.handled[i])
    && (forall i :: k <= i < |q.results| ==> !q.handled[i])
    && (forall i :: k < i < |q.results| ==> q.results[i].Queued?)
    && q.depth == |q.results| - k
    && |q.startOrder| == k + (if k < |q.results| && !q.results[k].Queued? then 1 else 0)
    && (forall i :: 0 <= i < |q.startOrder| ==> q.startOrder[i] == i)
  }

  lemma StepFrontier(q: Queue, k: nat, e: Event)
    requires Frontier(q, k) && Enabled(q, e)
    ensures Frontier(Step(q, e), if e.Handle? then k + 1 else k)
  {
  }

  lemma {:induction false} RunFrontier(q: Queue, k: nat, events: seq<Event>) returns (m: nat)
    requires Frontier(q, k) && Admissible(q, events)
    ensures Frontier(Exec(q, events), m)
    decreases |events|
  {
    if events == [] {
      m := k;
    } else {
      var e := events[0];
      StepFrontier(q, k, e);
      m := RunFrontier(Step(q, e), if e.Handle? then k + 1 else k, events[1..]);
    }
  }

  /** Tasks start in submit order and at most one is running, in every run. */
  lemma OneAtATime(events: seq<Event>)
    requires Admissible(EMPTY, events)
    ensures var q := Exec(EMPTY, events);
      && (forall i, j :: 0 <= i < |q.results| && 0 <= j < |q.results| && q.results[i].Running? && q.results[j].Running?
            ==> i == j)
      && (forall i :: 0 <= i < |q.startOrder| ==> q.startOrder[i] == i)
  {
    var k := RunFrontier(EMPTY, 0, events);
  }

  lemma {:induction false} SettledFrom(q: Queue, events: seq<Event>, i: nat, fulfilled: bool)
    requires Admissible(q, events)
    ensures HasResult(Exec(q, events), i, fulfilled) <==> HasResult(q, i, fulfilled) || Settle(i, fulfilled) in events
    decreases |events|
  {
    if events != [] {
      var e := events[0];
      assert HasResult(Step(q, e), i, fulfilled) <==> HasResult(q, i, fulfilled) || e == Settle(i, fulfilled);
      SettledFrom(Step(q, e), events[1..], i, fulfilled);
      assert events == [e] + events[1..];
    }
  }

  predicate HasResult(q: Queue, i: nat, fulfilled: bool) {
    i < |q.results| && q.results[i] == Settled(fulfilled)
  }

  /** What `run` returns settles exactly as the task does, in every run. */
  lemma ResultsAreTheTasks(events: seq<Event>, i: nat, fulfilled: bool)
    requires Admissible(EMPTY, events)
    ensures HasResult(Exec(EMPTY, events), i, fulfilled) <==> Settle(i, fulfilled) in events
  {
    SettledFrom(EMPTY, events, i, fulfilled);
  }

  /** How many tasks' outcomes the tail has not registered. */
  function Unhandled(handled: seq<bool>): nat {
    if handled == [] then 0 else (if handled[0] then 0 else 1) + Unhandled(handled[1..])
  }

  lemma {:induction false} CountFrom(handled: seq<bool>, k: nat)
    requires k <= |handled|
    requires forall i :: 0 <= i < |handled| ==> (handled[i] <==> i < k)
    ensures Unhandled(handled) == |handled| - k
    decreases |handled|
  {
    if handled != [] {
      CountFrom(handled[1..], if k > 0 then k - 1 else 0);
    }
  }

  /** `depth` counts the tasks whose outcome the tail has not yet registered: queued, running or just settled. */
  lemma DepthCounts(events: seq<Event>)
    requires Admissible(EMPTY, events)
    ensures var q := Exec(EMPTY, events); q.depth == Unhandled(q.handled)
  {
    var k := RunFrontier(EMPTY, 0, events);
    CountFrom(Exec(EMPTY, events).handled, k);
  }

  /** The event a queue with work left and nothing running is waiting to make. */
  function NextEvent(q: Queue, k: nat): Event
    requires k < |q.results|
  {
    if q.results[k].Queued? then Start(k) else Handle(k)
  }

  /**
   Nothing blocks the queue: with tasks outstanding, either one is running or the chain can move on by
   itself, whether the tasks before were fulfilled or rejected.
   */
  lemma RejectionNeverBlocks(events: seq<Event>)
    requires Admissible(EMPTY, events) && Exec(EMPTY, events).depth > 0
    ensures var q := Exec(EMPTY, events);
      exists k :: 0 <= k < |q.results| && (q.results[k].Running? || Enabled(q, NextEvent(q, k)))
  {
    var k := RunFrontier(EMPTY, 0, events);
    var q := Exec(EMPTY, events);
    assert q.results[k].Running? || Enabled(q, NextEvent(q, k));
  }

  // ---------- the object ----------

  /** The queue as the object it is: a depth counter and the chain behind the current tail. */
  class SerialQueue {
    var depth: int
    var results: seq<Result>
    var handled: seq<bool>
    ghost var startOrder: seq<nat>

    ghost function View(): Queue
      reads this
    {
      Queue(results, handled, depth, startOrder)
    }

    constructor ()
      ensures View() == EMPTY
    {
      depth, results, handled, startOrder := 0, [], [], [];
    }

    /** `run`: one more on the depth, one more link on the chain; returns its place. */
    method Submit() returns (task: nat)
      modifies this
      ensures View() == Step(old(View()), Run) && task == |old(results)|
    {
      depth := depth + 1;
      task := |results|;
      results := results + [Queued];
      handled := handled + [false];
    }

    method Begin(task: nat)
      requires Enabled(View(), Start(task))
      modifies this`results, this`startOrder
      ensures View() == Step(old(View()), Start(task))
    {
      results := results[task := Running];
      startOrder := startOrder + [task];
    }

    method Finish(task: nat, fulfilled: bool)
      requires Enabled(View(), Settle(task, fulfilled))
      modifies this`results
      ensures View() == Step(old(View()), Settle(task, fulfilled))
    {
      results := results[task := Settled(fulfilled)];
    }

    /** The tail handler, the same for both outcomes. */
    method OnSettled(task: nat)
      requires Enabled(View(), Handle(task))
      modifies this`depth, this`handled
      ensures View() == Step(old(View()), Handle(task))
    {
      depth := depth - 1;
      handled := handled[task := true];
    }
  }
}
