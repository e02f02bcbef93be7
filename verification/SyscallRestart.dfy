/** Syscall return and restart (arch/orlix/kernel/signal.c, arch/orlix/kernel/syscall.c). */
module SyscallRestart {
  import opened HostTypes
  import opened Arithmetic
  import opened SignalFrames

  const EINTR: int := 4
  const ERESTARTSYS: int := 512
  const ERESTARTNOINTR: int := 513
  const ERESTARTNOHAND: int := 514
  const ERESTART_RESTARTBLOCK: int := 516
  const NR_RESTART_SYSCALL: nat := 128
  const U32: nat := 0x1_0000_0000

  /** `int retval = regs->regs[0]`. */
  function Truncated(x: nat): (r: int)
    ensures -0x8000_0000 <= r < 0x8000_0000
  {
    var low := x % U32;
    if low < 0x8000_0000 then low else low - U32
  }

  /** A negative error as a register value. */
  function Negative(error: int): nat
    requires 0 < error < 4096
  {
    ADDRESS_SPACE - error
  }

  predicate RestartCode(result: int) {
    result == -ERESTARTSYS || result == -ERESTARTNOINTR || result == -ERESTARTNOHAND || result == -ERESTART_RESTARTBLOCK
  }

  // ---------------------------------------------------------------- what each result means

  /** Fate of a system call when the thread goes back to user mode. */
  datatype Fate = Delivered | Restarted | RestartedByBlock | Interrupted

  /** The table of restart codes and SA_RESTART; `signal` is the signal taken in the first round, if any. */
  function FateOf(result: int, signal: Option<Signal>): Fate {
    if !RestartCode(result) then Fate.Delivered
    else if result == -ERESTARTNOINTR then Restarted
    else if signal == None then (if result == -ERESTART_RESTARTBLOCK then RestartedByBlock else Restarted)
    else if result == -ERESTARTSYS && signal.value.restart then Restarted
    else Interrupted
  }

  /** Registers with which the interrupted program goes on, after the handler if there is one. */
  function Resumed(fate: Fate, r: Regs, origX0: nat): Regs
    requires |r.x| == REGS && r.pc < ADDRESS_SPACE
  {
    match fate
    case Delivered => r
    case Restarted => r.(x := r.x[0 := origX0], pc := Minus(r.pc, 4))
    case RestartedByBlock => r.(x := r.x[0 := origX0][8 := NR_RESTART_SYSCALL], pc := Minus(r.pc, 4))
    case Interrupted => r.(x := r.x[0 := Negative(EINTR)])
  }

  lemma NegativeIs(error: int)
    requires 0 < error < 4096
    ensures Truncated(Negative(error)) == -error
  {
    ModUnique(U32, U32 - 1, U32 - error);
    assert Negative(error) == U32 * (U32 - 1) + (U32 - error);
  }

  /** The registers are left alone exactly when the low 32 bits of the result are none of the four restart codes. */
  lemma ResultKeptExactly(r: Regs, origX0: nat, signal: Option<Signal>)
    requires WordSized(r)
    ensures Resumed(FateOf(Truncated(r.x[0]), signal), r, origX0) == r <==> !RestartCode(Truncated(r.x[0]))
  {
    var fate := FateOf(Truncated(r.x[0]), signal);
    if fate == Interrupted {
      NegativeIs(EINTR);
      assert Resumed(fate, r, origX0).x[0] == Negative(EINTR);
    }
  }

  /** No error number other than the four restart codes is taken for one. */
  lemma ErrorsKept(error: int)
    requires 0 < error < 4096
    ensures Truncated(Negative(error)) == -error
    ensures RestartCode(Truncated(Negative(error))) <==>
              error in {ERESTARTSYS, ERESTARTNOINTR, ERESTARTNOHAND, ERESTART_RESTARTBLOCK}
  {
    NegativeIs(error);
  }

  // ---------------------------------------------------------------- the exit loop

  /**
   One round of the loop: whether a flag for a pending signal asks for signal work, the signal
   `get_signal` finds, and the mask it leaves in force.
   */
  datatype Round = Round(flagged: bool, signal: Option<Signal>, blocked: nat)

  ghost predicate GoodSignals(rounds: seq<Round>) {
    forall i :: 0 <= i < |rounds| && rounds[i].signal.Some? ==> GoodSignal(rounds[i].signal.value)
  }

  predicate NoSignals(rounds: seq<Round>) {
    forall i :: 0 <= i < |rounds| ==> rounds[i].signal == None
  }

  predicate GoodSignal(g: Signal) {
    && (g.info.Some? ==> |g.info.value| == INFO_WORDS)
    && g.number < ADDRESS_SPACE && (g.restorer.Some? ==> g.restorer.value < ADDRESS_SPACE)
  }

  lemma HandlerIsWordSized(before: User, g: Signal, after: User)
    requires SignalFrames.Delivered(before, g, after) && GoodSignal(g)
    ensures WordSized(after.regs)
  {
    hide FramePlace, FrameHolds, InfoHolds, SameOutside;
    PlaceBelow(before.regs.sp);
  }

  lemma ResumedIsWordSized(r: Regs, origX0: nat, fate: Fate)
    requires WordSized(r) && origX0 < ADDRESS_SPACE
    ensures WordSized(Resumed(fate, r, origX0))
  {
  }

  /** The mask the kernel blocks for the handler is not part of the frame. */
  lemma DeliveredWithMask(before: User, g: Signal, after: User, blocked: nat)
    requires SignalFrames.Delivered(before, g, after)
    ensures SignalFrames.Delivered(before, g, after.(blocked := blocked))
  {
    hide FramePlace, FrameHolds, InfoHolds, SameOutside;
  }

  /** The two switches: what the result of the call and the signal do to the registers. */
  method ApplyTable(t: Thread, signal: Option<Signal>)
    requires t.Valid() && t.origX0 < ADDRESS_SPACE
    modifies t`pc, t`syscallno, t.x
    ensures t.syscallno == NO_SYSCALL && t.x.Length == REGS && t.Valid()
    ensures t.State().regs == if old(t.syscallno) == NO_SYSCALL then old(t.State().regs)
                              else Resumed(FateOf(Truncated(old(t.x[0])), signal), old(t.State().regs), t.origX0)
  {
    var continueAddr, restartAddr, retval := 0, 0, 0;
    var syscall := t.syscallno != NO_SYSCALL;
    if syscall {
      continueAddr := t.pc;
      restartAddr := Minus(continueAddr, 4);
      retval := Truncated(t.x[0]);
      t.syscallno := NO_SYSCALL;
      if RestartCode(retval) {
        t.x[0] := t.origX0;
        t.pc := restartAddr;
      }
    }
    if signal.Some? {
      if t.pc == restartAddr &&
         (retval == -ERESTARTNOHAND || retval == -ERESTART_RESTARTBLOCK
          || (retval == -ERESTARTSYS && !signal.value.restart))
      {
        t.x[0] := Negative(EINTR);
        t.pc := continueAddr;
      }
    } else if syscall && t.pc == restartAddr && retval == -ERESTART_RESTARTBLOCK {
      t.x[8] := NR_RESTART_SYSCALL;
    }
  }

  /**
   `orlix_do_signal_or_restart`. Before a frame is built, or without one, the registers are those the
   table gives; the signal then finds them on its frame. The system call is forgotten. A mask that was
   put aside goes to the frame of the signal, or is in force again without one; it is put aside no longer.
   */
  method DoSignalOrRestart(t: Thread, signal: Option<Signal>, stack: seq<nat>) returns (ok: bool, ghost resumed: User)
    requires t.Valid() && t.origX0 < ADDRESS_SPACE && |stack| == 3 && (signal.Some? ==> GoodSignal(signal.value))
    modifies t, t.x
    ensures t.syscallno == NO_SYSCALL && t.x.Length == REGS && t.origX0 == old(t.origX0)
    ensures resumed.mem == old(t.mem) && resumed.blocked == old(t.MaskToSave())
    ensures ok ==> t.saved == None
    ensures resumed.regs == if old(t.syscallno) == NO_SYSCALL then old(t.State().regs)
                            else Resumed(FateOf(Truncated(old(t.x[0])), signal), old(t.State().regs), t.origX0)
    ensures signal == None ==> ok && t.State() == resumed
    ensures signal.Some? ==> ok == CanDeliver(resumed, signal.value)
    ensures signal.Some? && ok ==> SignalFrames.Delivered(resumed, signal.value, t.State())
  {
    hide Resumed, FateOf, Truncated, SignalFrames.Delivered, CanDeliver, WordSized;
    ApplyTable(t, signal);
    resumed := t.State().(blocked := t.MaskToSave());
    if signal.Some? {
      ok := t.SetupRtFrame(signal.value, stack, t.MaskToSave());
      if ok {
        t.saved := None;
      }
      return;
    }
    t.blocked, t.saved := t.MaskToSave(), None;
    ok := true;
  }

  /** Registers with which the interrupted program goes on after the whole loop. */
  function LoopResumed(r: Regs, origX0: nat, syscallno: int, first: Option<Signal>): Regs
    requires |r.x| == REGS && r.pc < ADDRESS_SPACE
  {
    if syscallno == NO_SYSCALL then r else Resumed(FateOf(Truncated(r.x[0]), first), r, origX0)
  }

  /** One round that has signal work, and the mask that `signal_setup_done` leaves for the handler. */
  method TakeRound(t: Thread, round: Round, stack: seq<nat>) returns (ok: bool, ghost resumed: User)
    requires t.Valid() && t.origX0 < ADDRESS_SPACE && |stack| == 3
    requires round.signal.Some? ==> GoodSignal(round.signal.value)
    modifies t, t.x
    ensures t.syscallno == NO_SYSCALL && t.x.Length == REGS && t.origX0 == old(t.origX0)
    ensures resumed.mem == old(t.mem) && resumed.blocked == old(t.MaskToSave())
    ensures resumed.regs
         == LoopResumed(old(t.State().regs), t.origX0, old(t.syscallno), round.signal)
    ensures ok ==> t.Valid() && t.saved == None
    ensures round.signal == None ==> ok && t.State() == resumed
    ensures ok && round.signal.Some? ==> SignalFrames.Delivered(resumed, round.signal.value, t.State())
  {
    hide Resumed, FateOf, Truncated, SignalFrames.Delivered, CanDeliver, WordSized;
    var signal := round.signal;
    ResumedIsWordSized(t.State().regs, t.origX0, FateOf(Truncated(t.x[0]), signal));
    ok, resumed := DoSignalOrRestart(t, signal, stack);
    if ok && signal.Some? {
      HandlerIsWordSized(resumed, signal.value, t.State());
      DeliveredWithMask(resumed, signal.value, t.State(), round.blocked);
      t.blocked := round.blocked;
    }
  }

  /** Each state of the trace has a frame for the signal on top of the state before it. */
  ghost predicate Chain(trace: seq<User>, taken: seq<Signal>) {
    |trace| == |taken| + 1 && forall i :: 0 <= i < |taken| ==> SignalFrames.Delivered(trace[i], taken[i], trace[i + 1])
  }

  lemma ChainStarts(u: User)
    ensures Chain([u], [])
  {
  }

  lemma ChainGrows(trace: seq<User>, taken: seq<Signal>, g: Signal, u: User)
    requires Chain(trace, taken) && SignalFrames.Delivered(trace[|taken|], g, u)
    ensures Chain(trace + [u], taken + [g]) && (trace + [u])[0] == trace[0] && (trace + [u])[|taken + [g]|] == u
  {
    hide SignalFrames.Delivered;
  }

  /**
   `orlix_exit_to_user_mode_work`: only the first round sees the system call, so the program counter is
   moved back at most once however many signals follow; each of them interrupts the handler before it.
   */
  method ExitToUserModeWork(t: Thread, rounds: seq<Round>, stack: seq<nat>)
    returns (ok: bool, ghost trace: seq<User>, ghost taken: seq<Signal>)
    requires t.Valid() && t.origX0 < ADDRESS_SPACE && |stack| == 3 && rounds != [] && GoodSignals(rounds)
    modifies t, t.x
    ensures t.syscallno == NO_SYSCALL && t.x.Length == REGS
    ensures Chain(trace, taken)
    ensures trace[0].regs == LoopResumed(old(t.State().regs), old(t.origX0), old(t.syscallno), rounds[0].signal)
    ensures trace[0].mem == old(t.mem) && trace[0].blocked == old(t.MaskToSave())
    ensures ok ==> t.State() == trace[|taken|] && t.saved == None
    ensures NoSignals(rounds) ==> ok && taken == []
  {
    assert |t.State().regs.x| == REGS && t.pc < ADDRESS_SPACE;
    hide Resumed, FateOf, Truncated, SignalFrames.Delivered, CanDeliver, WordSized, Chain, GoodSignal;
    ok, trace, taken := true, [t.State()], [];
    ChainStarts(t.State());
    var i := 0;
    while i < |rounds|
      invariant i <= |rounds| && t.Valid() && ok && t.origX0 == old(t.origX0)
      invariant |trace| == |taken| + 1 && (taken == [] || !NoSignals(rounds))
      invariant Chain(trace, taken) && t.State() == trace[|taken|]
      invariant if i == 0 then t.syscallno == old(t.syscallno) && taken == [] && t.State() == old(t.State())
                               && t.saved == old(t.saved) && trace == [t.State()]
                else t.syscallno == NO_SYSCALL && t.saved == None && trace[0].blocked == old(t.MaskToSave())
                     && trace[0].regs
                         == LoopResumed(old(t.State().regs), old(t.origX0), old(t.syscallno), rounds[0].signal)
      invariant trace[0].mem == old(t.mem)
    {
      if t.syscallno != NO_SYSCALL || rounds[i].flagged || t.saved.Some? {
        ghost var resumed;
        ok, resumed := TakeRound(t, rounds[i], stack);
        if i == 0 {
          trace := [resumed];
          ChainStarts(resumed);
        }
        if !ok {
          return;
        }
        if rounds[i].signal.Some? {
          ChainGrows(trace, taken, rounds[i].signal.value, t.State());
          trace, taken := trace + [t.State()], taken + [rounds[i].signal.value];
        }
      }
      i := i + 1;
    }
  }

  // ---------------------------------------------------------------- dispatch

  function WithMask(u: User, saved: Option<nat>): User {
    if saved.Some? then u.(blocked := saved.value) else u
  }

  /** `orlix_syscall_dispatch` for a call that returned `result`. */
  method Dispatch(t: Thread, result: nat, rounds: seq<Round>, stack: seq<nat>)
    returns (ok: bool, ret: nat, ghost trace: seq<User>, ghost taken: seq<Signal>)
    requires t.Valid() && result < ADDRESS_SPACE && |stack| == 3 && rounds != [] && GoodSignals(rounds)
    modifies t, t.x
    ensures t.syscallno == NO_SYSCALL && t.x.Length == REGS && ret == t.x[0]
    ensures Chain(trace, taken) && trace[0].mem == old(t.mem) && trace[0].blocked == old(t.MaskToSave())
    ensures var r := old(t.State().regs);
            trace[0].regs == LoopResumed(r.(x := r.x[0 := result]), r.x[0], old(t.syscallno), rounds[0].signal)
    ensures ok ==> t.State() == trace[|taken|] && t.saved == None
    ensures NoSignals(rounds) ==> ok && taken == []
  {
    t.origX0 := t.x[0];
    t.x[0] := result;
    ok, trace, taken := ExitToUserModeWork(t, rounds, stack);
    // The call was forgotten in the first round, so the dispatcher's own forget finds nothing to do.
    assert t.syscallno == NO_SYSCALL;
    ret := t.x[0];
  }

  /**
   The same for `rt_sigreturn`: the x0 it restored goes through the return value and the exit loop, so
   the program goes on with all the registers its frame held, and with its mask unless one was put aside.
   */
  method DispatchSigreturn(t: Thread, rounds: seq<Round>, stack: seq<nat>)
    returns (ok: bool, ret: nat, ghost trace: seq<User>, ghost taken: seq<Signal>)
    requires t.Valid() && |stack| == 3 && rounds != [] && GoodSignals(rounds)
    requires Returned(t.State()).Some? ==> WordSized(Returned(t.State()).value.regs)
    modifies t, t.x
    ensures Returned(old(t.State())) == None ==> !ok
    ensures Returned(old(t.State())).Some? ==>
              && t.syscallno == NO_SYSCALL && Chain(trace, taken)
              && trace[0] == WithMask(Returned(old(t.State())).value, old(t.saved))
              && (ok ==> t.State() == trace[|taken|] && ret == t.x[0])
              && (NoSignals(rounds) ==> ok && taken == [])
  {
    t.origX0 := t.x[0];
    ok, ret := t.RtSigreturn();
    if !ok {
      trace, taken := [], [];
      return;
    }
    t.x[0] := ret;
    assert t.x[..] == t.x[..][0 := ret];
    ok, trace, taken := ExitToUserModeWork(t, rounds, stack);
    ret := t.x[0];
  }

  /**
   What the program that made the call sees once the handler of the first signal has returned: the table's
   registers, and the mask that went to the frame, which is the one the call had put aside if it did.
   */
  lemma CallAfterHandler(before: User, e: Episode, after: User, r: Regs, origX0: nat)
    requires WordSized(r) && r.pc >= 4
    requires before.regs == Resumed(FateOf(Truncated(r.x[0]), Some(e.signal)), r, origX0) && Runs(before, e, after)
    ensures var code := Truncated(r.x[0]);
            && (code == -ERESTARTNOINTR || (code == -ERESTARTSYS && e.signal.restart) ==>
                  after.regs == r.(x := r.x[0 := origX0], pc := r.pc - 4))
            && ((code == -ERESTARTSYS && !e.signal.restart) || code == -ERESTARTNOHAND
                || code == -ERESTART_RESTARTBLOCK ==>
                  after.regs == r.(x := r.x[0 := Negative(EINTR)]))
            && (!RestartCode(code) ==> after.regs == r)
    ensures after.blocked == before.blocked
  {
    hide Runs;
    EpisodeRestores(before, e, after);
  }
}
