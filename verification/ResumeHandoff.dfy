/**
 Handing a register frame from the thread that runs Linux to the timer thread that loads it
 (OrlixHostAdapter runtime/trap.c), as a state machine over the steps of both threads: a shared frame,
 an atomic flag, the user-active word, and Mach's suspension of the target thread.
 */
module ResumeHandoff {
  import opened HostTypes

  /** The thread that runs Linux. It copies a frame piece by piece, and the frame is torn in between. */
  datatype Target = InUser(frame: nat) | Trapped | InKernel | Copying | Copied | Spinning | Exited

  /** `OrlixHostUserResumeRedirect` in the timer thread. */
  datatype Timer = Outside | SawPending | HasSuspended | HasNeon | HasState | HasActivated | HasFailed | HasCleared

  /**
   Frames are numbered in the order they are copied, `next` being the number of the next one; a torn frame
   has no number. `loads` and `failures` are history: the frames loaded into the target, and failed attempts.
   */
  datatype State = State(target: Target, suspended: bool, timer: Timer, pending: bool, active: bool,
                         shared: Option<nat>, next: nat, loads: seq<nat>, failures: nat)

  datatype Step =
    | Trap
    | ClearActive
    | BeginCopy
    | EndCopy
    | Publish
    | CheckPending
    | LoadPending
    | Suspend(ok: bool)
    | SetNeon(ok: bool)
    | SetState(ok: bool)
    | RaiseActive
    | ClearPending
    | Resume

  const INITIAL := State(InKernel, false, Outside, false, false, None, 0, [], 0)

  predicate TargetStep(step: Step) {
    step.Trap? || step.ClearActive? || step.BeginCopy? || step.EndCopy? || step.Publish? || step.CheckPending?
  }

  /** The state after a step, unless the thread is elsewhere or suspended. */
  function Take(s: State, step: Step): Option<State> {
    if TargetStep(step) && s.suspended then None
    else
      match step
      // A trap or the timer signal takes the target out of user code; the handler then enters the kernel.
      case Trap => if s.target.InUser? then Some(s.(target := Trapped)) else None
      case ClearActive => if s.target == Trapped then Some(s.(target := InKernel, active := false)) else None
      // `orlix_host_user_trap_resume`.
      case BeginCopy => if s.target == InKernel then Some(s.(target := Copying, shared := None)) else None
      case EndCopy =>
        if s.target == Copying then Some(s.(target := Copied, shared := Some(s.next), next := s.next + 1))
        else None
      case Publish => if s.target == Copied then Some(s.(target := Spinning, pending := true)) else None
      case CheckPending =>
        if s.target == Spinning then Some(s.(target := if s.pending then Spinning else Exited))
        else None
      // `OrlixHostUserResumeRedirect`.
      case LoadPending =>
        if s.timer == Outside then Some(s.(timer := if s.pending then SawPending else Outside))
        else None
      case Suspend(ok) =>
        if s.timer != SawPending then None
        else if ok then Some(s.(timer := HasSuspended, suspended := true))
        else Some(s.(timer := Outside))
      case SetNeon(ok) => if s.timer == HasSuspended then Some(s.(timer := if ok then HasNeon else HasFailed)) else None
      case SetState(ok) =>
        if s.timer != HasSuspended && s.timer != HasNeon then None
        else if !ok then Some(s.(timer := HasFailed))
        else
          // What the target runs next is whatever the shared frame holds; a torn one would be no frame at all.
          var frame := if s.shared.Some? then s.shared.value else s.next;
          Some(s.(timer := HasState, target := InUser(frame), loads := s.loads + [frame]))
      case RaiseActive => if s.timer == HasState then Some(s.(timer := HasActivated, active := true)) else None
      case ClearPending =>
        if s.timer == HasActivated then Some(s.(timer := HasCleared, pending := false))
        else if s.timer == HasFailed then Some(s.(timer := HasCleared, pending := false, failures := s.failures + 1))
        else None
      case Resume => if s.timer == HasCleared then Some(s.(timer := Outside, suspended := false)) else None
  }

  function Run(s: State, steps: seq<Step>): Option<State>
    decreases |steps|
  {
    if steps == [] then Some(s)
    else match Take(s, steps[0])
      case None => None
      case Some(next) => Run(next, steps[1..])
  }

  // ---------------------------------------------------------------- invariant

  predicate BeforeLoad(t: Timer) {
    t == Outside || t == SawPending || t == HasSuspended || t == HasNeon || t == HasFailed
  }

  ghost predicate LoadsBelow(loads: seq<nat>, bound: int) {
    forall i :: 0 <= i < |loads| ==> loads[i] < bound
  }

  ghost predicate Increasing(loads: seq<nat>) {
    forall i, j :: 0 <= i < j < |loads| ==> loads[i] < loads[j]
  }

  ghost predicate Inv(s: State) {
    && (s.suspended <==> s.timer != Outside && s.timer != SawPending)
    && (s.pending ==>
          && s.next > 0 && s.shared == Some(s.next - 1)
          && s.target == (if BeforeLoad(s.timer) then Spinning else InUser(s.next - 1)))
    && (!s.pending ==> s.timer == Outside || s.timer == HasCleared)
    && (s.timer == HasCleared ==> !s.pending && (s.target == Spinning || s.target.InUser?))
    && (s.target == Copied ==> s.next > 0 && s.shared == Some(s.next - 1))
    && (s.active <==> (s.target.InUser? || s.target == Trapped) && s.timer != HasState)
    && (s.target.InUser? ==> s.loads != [] && s.loads[|s.loads| - 1] == s.target.frame)
    && (s.target == Exited || (s.target == Spinning && !s.pending) ==> s.failures > 0)
    && LoadsBelow(s.loads, s.next) && Increasing(s.loads)
    && (s.target == Copied || (s.pending && BeforeLoad(s.timer)) ==> LoadsBelow(s.loads, s.next - 1))
  }

  lemma LoadAppended(loads: seq<nat>, frame: nat)
    requires LoadsBelow(loads, frame) && Increasing(loads)
    ensures LoadsBelow(loads + [frame], frame + 1) && Increasing(loads + [frame])
  {
  }

  lemma StepKeeps(s: State, step: Step)
    requires Inv(s) && Take(s, step).Some?
    ensures Inv(Take(s, step).value)
  {
    if TargetStep(step) {
      if step == EndCopy {
        assert LoadsBelow(s.loads, s.next + 1);
      }
      hide LoadsBelow, Increasing;
    } else {
      if step == SetState(true) {
        LoadAppended(s.loads, s.next - 1);
      }
      hide LoadsBelow, Increasing;
    }
  }

  lemma {:induction false} RunKeeps(s: State, steps: seq<Step>)
    requires Inv(s) && Run(s, steps).Some?
    ensures Inv(Run(s, steps).value)
    decreases |steps|
  {
    if steps != [] {
      StepKeeps(s, steps[0]);
      RunKeeps(Take(s, steps[0]).value, steps[1..]);
    }
  }

  // ---------------------------------------------------------------- safety over all interleavings

  /**
   After any run: a frame is copied only while none is pending; what is loaded is the frame published
   last, whole, never loaded before, and the target is suspended; the user-active word is raised while the
   target is suspended with that frame in it; and whoever runs user code runs the frame loaded last, with
   the word raised.
   */
  lemma HandoffSafe(steps: seq<Step>, step: Step)
    requires Run(INITIAL, steps).Some? && Take(Run(INITIAL, steps).value, step).Some?
    ensures var s := Run(INITIAL, steps).value;
            && (step == BeginCopy || step == EndCopy ==> !s.pending && s.timer == Outside)
            && (step == SetState(true) ==>
                  && s.suspended && s.pending && s.next > 0 && s.shared == Some(s.next - 1) && s.next - 1 !in s.loads
                  && Take(s, step).value.target == InUser(s.next - 1))
            && (step == RaiseActive ==>
                s.suspended && s.next > 0 && s.target == InUser(s.next - 1) && s.shared == Some(s.next - 1))
            && (step == Trap ==> s.active && s.loads != [] && s.target == InUser(s.loads[|s.loads| - 1]))
  {
    RunKeeps(INITIAL, steps);
    var s := Run(INITIAL, steps).value;
    assert step == SetState(true) ==> LoadsBelow(s.loads, s.next - 1);
  }

  /**
   Frames are loaded at most once and in the order they were published, and the thread gives up only after a
   failed load.
   */
  lemma LoadedInOrder(steps: seq<Step>)
    requires Run(INITIAL, steps).Some?
    ensures var s := Run(INITIAL, steps).value;
            && (forall i, j :: 0 <= i < j < |s.loads| ==> s.loads[i] < s.loads[j])
            && (s.target == Exited ==> s.failures > 0)
  {
    RunKeeps(INITIAL, steps);
  }

  // ---------------------------------------------------------------- progress

  /** Steps of the timer thread until the pending flag is cleared, when suspending the target succeeds. */
  function Distance(s: State): nat {
    match s.timer
    case Outside => 6
    case SawPending => 5
    case HasSuspended => 4
    case HasNeon => 3
    case HasState => 2
    case HasActivated => 1
    case HasFailed => 1
    case HasCleared => 0
  }

  /** A pending frame waits only for the timer thread: it can always take a step, and each one brings the end nearer. */
  lemma PendingEnds(s: State, step: Step)
    requires Inv(s) && s.pending && Take(s, step).Some? && step != Suspend(false)
    ensures var n := Take(s, step).value;
            n.pending ==> n.next == s.next && Distance(n) <= Distance(s) - if TargetStep(step) then 0 else 1
    ensures exists t :: !TargetStep(t) && t != Suspend(false) && Take(s, t).Some?
  {
    StepKeeps(s, step);
    var t := match s.timer
      case Outside => LoadPending
      case SawPending => Suspend(true)
      case HasSuspended => SetState(true)
      case HasNeon => SetState(true)
      case HasState => RaiseActive
      case HasActivated => ClearPending
      case HasFailed => ClearPending
      case HasCleared => Resume;
    assert !TargetStep(t) && t != Suspend(false) && Take(s, t).Some?;
  }
}
