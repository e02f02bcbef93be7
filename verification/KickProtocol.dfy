/**
 Queue kicks of a block slot (drivers/orlix/virtio/mmio.c) as a state machine: notifying threads set
 a bit and then schedule the work item, the worker exchanges the bits and passes over the queues,
 and a reset cancels the work and clears the bits. Any number of threads, every interleaving.
 */
module KickProtocol {
  import opened HostTypes

  const QUEUES: nat := 2

  /** Where `orlix_virtio_mmio_notify_work` is; `Passing` is at queue `index` of its loop. */
  datatype Worker = Sleeping | Exchanging | Passing(taken: set<nat>, index: nat) | Rechecking

  /** A status write of zero: work being cancelled, then bits about to be cleared. */
  datatype Reset = NoReset | Cancelling | Cancelled

  /**
   `calling` has the threads between `set_bit` and `schedule_work`. `owed` is history: queues whose bit
   was set after their last pass began, and not cleared by a reset since.
   */
  datatype State = State(pending: set<nat>, queued: bool, worker: Worker, calling: map<nat, nat>, reset: Reset,
                         owed: set<nat>)

  datatype Step =
    | SetBit(thread: nat, queue: nat)
    | Schedule(thread: nat)
    | StartWork
    | Exchange
    | Pass
    | Recheck
    | CancelWork
    | WorkCancelled
    | ClearBits

  const INITIAL := State({}, false, Sleeping, map[], NoReset, {})

  /** The state after a step, unless the step cannot be taken. */
  function Take(s: State, step: Step): Option<State> {
    match step
    case SetBit(t, q) =>
      if t in s.calling || q >= QUEUES then None
      else Some(s.(pending := s.pending + {q}, calling := s.calling[t := q], owed := s.owed + {q}))
    case Schedule(t) =>
      if t !in s.calling then None
      else Some(s.(calling := s.calling - {t}, queued := s.queued || s.reset != Cancelling))
    case StartWork =>
      if !s.queued || s.worker != Sleeping then None else Some(s.(queued := false, worker := Exchanging))
    case Exchange =>
      if s.worker != Exchanging then None else Some(s.(pending := {}, worker := Passing(s.pending, 0)))
    case Pass =>
      if !s.worker.Passing? then None
      else
        var i := s.worker.index;
        var next := if i + 1 < QUEUES then Passing(s.worker.taken, i + 1) else Rechecking;
        Some(s.(worker := next, owed := if i in s.worker.taken then s.owed - {i} else s.owed))
    case Recheck =>
      if s.worker != Rechecking then None else Some(s.(worker := if s.pending != {} then Exchanging else Sleeping))
    case CancelWork =>
      if s.reset != NoReset then None else Some(s.(queued := false, reset := Cancelling))
    case WorkCancelled =>
      if s.reset != Cancelling || s.worker != Sleeping then None else Some(s.(reset := Cancelled))
    case ClearBits =>
      if s.reset != Cancelled then None else Some(s.(pending := {}, owed := {}, reset := NoReset))
  }

  function Run(s: State, steps: seq<Step>): Option<State>
    decreases |steps|
  {
    if steps == [] then Some(s)
    else match Take(s, steps[0])
      case None => None
      case Some(next) => Run(next, steps[1..])
  }

  // ---------------------------------------------------------------- no kick is lost

  /** Queues the worker still has to pass over in this round. */
  predicate Taken(s: State, q: nat) {
    s.worker.Passing? && q in s.worker.taken && s.worker.index <= q
  }

  ghost predicate Inv(s: State) {
    && (forall q :: q in s.pending ==> q < QUEUES)
    && (s.worker.Passing? ==> s.worker.index < QUEUES && forall q :: q in s.worker.taken ==> q < QUEUES)
    && (s.reset == Cancelling ==> !s.queued)
    && (s.pending != {} ==> s.queued || s.worker != Sleeping || s.calling != map[] || s.reset != NoReset)
    && (forall q :: q in s.owed ==> q in s.pending || Taken(s, q))
  }

  lemma StepKeeps(s: State, step: Step)
    requires Inv(s) && Take(s, step).Some?
    ensures Inv(Take(s, step).value)
  {
    var n := Take(s, step).value;
    match step
    case SetBit(t, q) => assert t in n.calling;
    case Schedule(t) =>
    case StartWork =>
    case Exchange =>
    case Pass =>
    case Recheck =>
    case CancelWork =>
    case WorkCancelled =>
    case ClearBits =>
  }

  lemma {:induction false} RunKeeps(s: State, steps: seq<Step>)
    requires Inv(s) && Run(s, steps).Some?
    ensures Inv(Run(s, steps).value)
    decreases |steps|
  {
    if steps != [] {
      StepKeeps(s, steps[0]);
      RunKeeps(Take(s, steps[0]).value, steps[1..]);
    }
  }

  predicate Quiet(s: State) {
    s.worker == Sleeping && !s.queued && s.calling == map[] && s.reset == NoReset
  }

  /** Whatever the interleaving was: at rest no bit is set, and every queue had a pass after its last kick. */
  lemma NoLostKick(steps: seq<Step>)
    requires Run(INITIAL, steps).Some?
    ensures Quiet(Run(INITIAL, steps).value) ==>
              Run(INITIAL, steps).value.pending == {} && Run(INITIAL, steps).value.owed == {}
  {
    RunKeeps(INITIAL, steps);
    var s := Run(INITIAL, steps).value;
    if Quiet(s) {
      assert forall q :: q in s.owed ==> q in s.pending;
    }
  }

  // ---------------------------------------------------------------- every kick is served

  /** Worker steps, and one scheduling step, that can still come before the next pass over a queue that is owed one. */
  function Distance(s: State, q: nat): int {
    if Taken(s, q) then q - s.worker.index + 1
    else
      match s.worker
      case Sleeping => if s.queued then q + 3 else q + 4
      case Exchanging => q + 2
      case Passing(_, i) => QUEUES - i + q + 3
      case Rechecking => q + 3
  }

  predicate WorkerStep(step: Step) {
    step == StartWork || step == Exchange || step == Pass || step == Recheck
  }

  predicate ResetStep(step: Step) {
    step == CancelWork || step == WorkCancelled || step == ClearBits
  }

  /** While a queue is owed a pass, every worker step brings it closer and no other step moves it away. */
  lemma StepApproaches(s: State, step: Step, q: nat)
    requires Inv(s) && s.reset == NoReset && q in s.owed && Take(s, step).Some? && !ResetStep(step)
    ensures var n := Take(s, step).value;
            n.reset == NoReset
            && (q in n.owed ==> 0 <= Distance(n, q) <= Distance(s, q) - if WorkerStep(step) then 1 else 0)
  {
    StepKeeps(s, step);
  }

  /** The pass cannot be held up: a worker step is possible, or a thread has yet to schedule the work. */
  lemma StepPossible(s: State, q: nat)
    requires Inv(s) && s.reset == NoReset && q in s.owed
    ensures s.calling != map[] || exists step :: WorkerStep(step) && Take(s, step).Some?
  {
    if s.calling == map[] {
      var step := match s.worker
        case Sleeping => StartWork
        case Exchanging => Exchange
        case Passing(_, _) => Pass
        case Rechecking => Recheck;
      assert WorkerStep(step) && Take(s, step).Some?;
    }
  }

  function WorkerSteps(steps: seq<Step>): nat {
    if steps == [] then 0 else (if WorkerStep(steps[0]) then 1 else 0) + WorkerSteps(steps[1..])
  }

  /** The queue is owed a pass at every state of the run. */
  ghost predicate AlwaysOwed(s: State, steps: seq<Step>, q: nat)
    requires Run(s, steps).Some?
    decreases |steps|
  {
    q in s.owed && (steps != [] ==> AlwaysOwed(Take(s, steps[0]).value, steps[1..], q))
  }

  lemma {:induction false} OwedNotLong(s: State, steps: seq<Step>, q: nat)
    requires Inv(s) && s.reset == NoReset && Run(s, steps).Some? && AlwaysOwed(s, steps, q)
    requires forall i :: 0 <= i < |steps| ==> !ResetStep(steps[i])
    ensures WorkerSteps(steps) <= Distance(s, q)
    decreases |steps|
  {
    if steps != [] {
      var n := Take(s, steps[0]).value;
      StepKeeps(s, steps[0]);
      StepApproaches(s, steps[0], q);
      OwedNotLong(n, steps[1..], q);
    }
  }

  /**
   Every set bit is followed by a pass of its queue: without a reset, no run takes more than six worker
   steps while a queue waits, however many kicks come in between.
   */
  lemma EveryKickServed(before: seq<Step>, steps: seq<Step>, q: nat)
    requires Run(INITIAL, before).Some? && Run(INITIAL, before).value.reset == NoReset
    requires Run(Run(INITIAL, before).value, steps).Some? && AlwaysOwed(Run(INITIAL, before).value, steps, q)
    requires forall i :: 0 <= i < |steps| ==> !ResetStep(steps[i])
    ensures WorkerSteps(steps) <= 6
  {
    var s := Run(INITIAL, before).value;
    RunKeeps(INITIAL, before);
    OwedNotLong(s, steps, q);
  }
}
