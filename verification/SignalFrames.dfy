/**
 Signal frames on the user stack (arch/orlix/kernel/signal.c). User memory is a map from the addresses of
 mapped 8-byte words to their values; sizes and offsets are those of the arm64 signal ABI.
 */
module SignalFrames {
  import opened HostTypes

  const TASK_SIZE: nat := 0x7000_0000_0000
  const STACK_TOP: nat := TASK_SIZE
  const REGS: nat := 31
  const NO_SYSCALL: int := -1

  /** `struct rt_sigframe`: `info`, then `uc` with its mask and machine context. */
  const FRAME_SIZE: nat := 4688
  const RECORD_SIZE: nat := 16
  const INFO_WORDS: nat := 16
  const UC: nat := 128
  const UC_MASK: nat := UC + 40
  const CONTEXT: nat := UC + 176
  const RESERVED: nat := CONTEXT + 288
  const RESERVED_WORDS: nat := 512

  type Memory = map<nat, nat>

  /** The registers a signal frame saves. */
  datatype Regs = Regs(x: seq<nat>, sp: nat, pc: nat, pstate: nat)

  ghost predicate WordSized(r: Regs) {
    && |r.x| == REGS && r.sp < ADDRESS_SPACE && r.pc < ADDRESS_SPACE && r.pstate < ADDRESS_SPACE
    && forall i :: 0 <= i < REGS ==> r.x[i] < ADDRESS_SPACE
  }

  /** `orlix_valid_user_regs`: the mode bits of EL0t are zero. */
  predicate ValidUser(r: Regs) {
    UserMode(r.pstate) && r.pc < TASK_SIZE && r.sp <= STACK_TOP
  }

  predicate UserMode(pstate: nat) {
    pstate % 16 == 0
  }

  /** A handler as `sigaction` set it up, with the words of the `siginfo` it gets; `restart` is SA_RESTART. */
  datatype Signal = Signal(number: nat, handler: nat, restorer: Option<nat>, info: Option<seq<nat>>, restart: bool)

  // ---------------------------------------------------------------- where frames lie

  function RoundDown(n: nat): (r: nat)
    ensures r <= n < r + 16 && r % 16 == 0
  {
    n - n % 16
  }

  /** `unsigned long` subtraction. */
  function Minus(a: nat, b: nat): nat
    requires a < ADDRESS_SPACE && b < ADDRESS_SPACE
  {
    (a + ADDRESS_SPACE - b) % ADDRESS_SPACE
  }

  predicate AccessOk(address: nat, size: nat) {
    size <= TASK_SIZE && address <= TASK_SIZE - size
  }

  /** Addresses of the frame record and of the frame, unless they fall outside user space. */
  datatype Place = Place(record: nat, frame: nat)

  /** `get_sigframe` without an alternate stack. */
  function FramePlace(sp: nat): (r: Option<Place>)
    requires sp < ADDRESS_SPACE
  {
    var record := RoundDown(Minus(sp, RECORD_SIZE));
    var frame := RoundDown(Minus(record, FRAME_SIZE));
    if AccessOk(frame, Minus(sp, frame)) then Some(Place(record, frame)) else None
  }

  lemma MinusWraps(a: nat, b: nat)
    requires a < ADDRESS_SPACE && b < ADDRESS_SPACE
    ensures Minus(a, b) == if b <= a then a - b else a + ADDRESS_SPACE - b
  {
  }

  /** Frames are 16-aligned and lie wholly below the interrupted stack pointer, with the record above the frame. */
  lemma PlaceBelow(sp: nat)
    requires sp < ADDRESS_SPACE && FramePlace(sp).Some?
    ensures var p := FramePlace(sp).value;
            p.frame % 16 == 0 && p.record % 16 == 0 && p.frame + FRAME_SIZE <= p.record
            && p.record + RECORD_SIZE <= sp <= TASK_SIZE
  {
    PlaceExactly(sp);
    MinusWraps(sp, RECORD_SIZE);
    MinusWraps(RoundDown(Minus(sp, RECORD_SIZE)), FRAME_SIZE);
    hide Minus;
  }

  /** There is a place exactly when the stack has room for the record and the frame, with padding, inside user space. */
  lemma PlaceExactly(sp: nat)
    requires sp < ADDRESS_SPACE
    ensures FramePlace(sp).Some? <==> RECORD_SIZE + FRAME_SIZE <= sp <= TASK_SIZE
  {
    MinusWraps(sp, RECORD_SIZE);
    var record := RoundDown(Minus(sp, RECORD_SIZE));
    MinusWraps(record, FRAME_SIZE);
    var frame := RoundDown(Minus(record, FRAME_SIZE));
    MinusWraps(sp, frame);
    hide Minus;
  }

  // ---------------------------------------------------------------- delivery and return

  /** User-visible state of the thread. */
  datatype User = User(regs: Regs, mem: Memory, blocked: nat)

  /** Word `i` of the `sigcontext` at `at`: the 31 registers, then sp, pc and pstate; the fault address comes first. */
  function Word(at: nat, i: nat): nat {
    at + 8 + 8 * i
  }

  /** A `sigcontext` at `at` that holds the registers. */
  ghost predicate Context(mem: Memory, at: nat, r: Regs) {
    && |r.x| == REGS && Holds(mem, at, 0)
    && (forall i :: 0 <= i < REGS ==> Holds(mem, Word(at, i), r.x[i]))
    && Holds(mem, Word(at, REGS), r.sp) && Holds(mem, Word(at, REGS + 1), r.pc)
    && Holds(mem, Word(at, REGS + 2), r.pstate)
  }

  predicate Holds(mem: Memory, address: nat, value: nat) {
    address in mem && mem[address] == value
  }

  ghost predicate Cleared(mem: Memory, at: nat, words: nat) {
    forall i :: 0 <= i < words ==> Holds(mem, at + 8 * i, 0)
  }

  /** The same words are mapped, and those outside `[low, high)` keep their value. */
  ghost predicate SameOutside(before: Memory, after: Memory, low: nat, high: nat) {
    && before.Keys == after.Keys
    && forall a :: a in before && (a < low || a >= high) ==> after[a] == before[a]
  }

  /** What the kernel leaves on the stack for registers `r` and signal mask `mask`. */
  ghost predicate FrameHolds(mem: Memory, p: Place, r: Regs, mask: nat) {
    && Context(mem, p.frame + CONTEXT, r) && Cleared(mem, p.frame + RESERVED, RESERVED_WORDS)
    && Holds(mem, p.record, r.x[29]) && Holds(mem, p.record + 8, r.x[30])
    && Holds(mem, p.frame + UC, 0) && Holds(mem, p.frame + UC + 8, 0) && Holds(mem, p.frame + UC_MASK, mask)
  }

  /** Registers the handler starts with. */
  function HandlerRegs(r: Regs, g: Signal, p: Place): Regs
    requires |r.x| == REGS && g.restorer.Some?
  {
    var info, context := if g.info.Some? then p.frame else 0, if g.info.Some? then p.frame + UC else 0;
    var x := r.x[0 := g.number][1 := info][2 := context];
    Regs(x[29 := p.record][30 := g.restorer.value], p.frame, g.handler, 0)
  }

  ghost predicate InfoHolds(mem: Memory, at: nat, g: Signal) {
    g.info.Some? ==> |g.info.value| == INFO_WORDS && forall i :: 0 <= i < INFO_WORDS ==>
        Holds(mem, at + 8 * i, g.info.value[i])
  }

  /** A successful `setup_rt_frame`; the new mask is the kernel's choice. */
  ghost predicate Delivered(before: User, g: Signal, after: User) {
    && WordSized(before.regs) && g.restorer.Some? && FramePlace(before.regs.sp).Some?
    && var p := FramePlace(before.regs.sp).value;
       && after.regs == HandlerRegs(before.regs, g, p) && ValidUser(after.regs)
       && FrameHolds(after.mem, p, before.regs, before.blocked) && InfoHolds(after.mem, p.frame, g)
       && SameOutside(before.mem, after.mem, p.frame, before.regs.sp)
  }

  predicate ContextMapped(mem: Memory, at: nat) {
    forall i :: 0 <= i < REGS + 3 ==> Word(at, i) in mem
  }

  function ContextRegs(mem: Memory, at: nat): (r: Regs)
    requires ContextMapped(mem, at)
    ensures |r.x| == REGS
  {
    Regs(seq(REGS, i requires 0 <= i < REGS && ContextMapped(mem, at) => mem[Word(at, i)]),
         mem[Word(at, REGS)], mem[Word(at, REGS + 1)], mem[Word(at, REGS + 2)])
  }

  /** `rt_sigreturn`; with no result the thread is killed by SIGSEGV. */
  function Returned(u: User): Option<User> {
    var c := u.regs.sp + CONTEXT;
    if u.regs.sp % 16 != 0 || !AccessOk(u.regs.sp, FRAME_SIZE) then None
    else if u.regs.sp + UC_MASK !in u.mem || !ContextMapped(u.mem, c) then None
    else if ValidUser(ContextRegs(u.mem, c)) then Some(User(ContextRegs(u.mem, c), u.mem, u.mem[u.regs.sp + UC_MASK]))
    else None
  }

  /**
   When the handler has left its frame alone and returns with the stack pointer it started with, the
   return succeeds exactly when the interrupted registers were valid, and then brings them and the mask back.
   */
  lemma ReturnRestores(before: User, g: Signal, entered: User, last: User)
    requires Delivered(before, g, entered) && last.regs.sp == entered.regs.sp
    requires SameOutside(entered.mem, last.mem, 0, entered.regs.sp)
    ensures Returned(last) == if ValidUser(before.regs) then Some(User(before.regs, last.mem, before.blocked)) else None
  {
    hide FramePlace, InfoHolds, Cleared;
    var p := FramePlace(before.regs.sp).value;
    var c := p.frame + CONTEXT;
    PlaceBelow(before.regs.sp);
    forall i | 0 <= i < REGS + 3
      ensures Word(c, i) in last.mem && last.mem[Word(c, i)] == entered.mem[Word(c, i)]
    {
      assert i < REGS ==> Holds(entered.mem, Word(c, i), before.regs.x[i]);
    }
    assert ContextRegs(last.mem, c).x == before.regs.x;
  }

  // ---------------------------------------------------------------- nested signals

  /** A signal taken by a handler, up to its `rt_sigreturn`. */
  datatype Episode = Episode(signal: Signal, entered: User, body: Body)

  /** What a handler does: it runs code of its own, takes further signals, and returns. */
  datatype Body =
    | Return
    | Compute(after: User, rest: Body)
    | Handle(inner: Episode, after: User, rest: Body)

  /**
   A handler with its frame at `frame` writes only below it, and keeps its stack pointer there when it is
   interrupted.
   */
  ghost predicate BodyRuns(frame: nat, u: User, body: Body)
    decreases body
  {
    match body
    case Return => u.regs.sp == frame
    case Compute(after, rest) => SameOutside(u.mem, after.mem, 0, frame) && BodyRuns(frame, after, rest)
    case Handle(inner, after, rest) => u.regs.sp <= frame && Runs(u, inner, after) && BodyRuns(frame, after, rest)
  }

  function Last(u: User, body: Body): User
    decreases body
  {
    match body
    case Return => u
    case Compute(after, rest) => Last(after, rest)
    case Handle(_, after, rest) => Last(after, rest)
  }

  /** The episode takes the thread from one state to the other, and no frame or return in it fails. */
  ghost predicate Runs(before: User, e: Episode, after: User)
    decreases e
  {
    && Delivered(before, e.signal, e.entered) && BodyRuns(e.entered.regs.sp, e.entered, e.body)
    && Returned(Last(e.entered, e.body)) == Some(after)
  }

  lemma {:induction false} BodyKeeps(frame: nat, u: User, body: Body)
    requires BodyRuns(frame, u, body)
    ensures SameOutside(u.mem, Last(u, body).mem, 0, frame) && Last(u, body).regs.sp == frame
    decreases body
  {
    match body
    case Return =>
    case Compute(after, rest) => BodyKeeps(frame, after, rest);
    case Handle(inner, after, rest) =>
      EpisodeRestores(u, inner, after);
      BodyKeeps(frame, after, rest);
  }

  /**
   Any properly nested run of deliveries and returns brings back all 31 registers, sp, pc, pstate and
   the signal mask, and leaves the memory at and above the interrupted stack pointer as it was.
   */
  lemma {:induction false} EpisodeRestores(before: User, e: Episode, after: User)
    requires Runs(before, e, after)
    ensures after.regs == before.regs && after.blocked == before.blocked && ValidUser(before.regs)
    ensures SameOutside(before.mem, after.mem, 0, before.regs.sp)
    decreases e
  {
    BodyKeeps(e.entered.regs.sp, e.entered, e.body);
    ReturnRestores(before, e.signal, e.entered, Last(e.entered, e.body));
    PlaceBelow(before.regs.sp);
  }

  /** The frame of a nested signal lies wholly below the frame of the handler it interrupts. */
  lemma NestedFrameBelow(outer: User, g: Signal, entered: User, u: User, h: Signal, inner: User)
    requires Delivered(outer, g, entered) && u.regs.sp <= entered.regs.sp && Delivered(u, h, inner)
    ensures FramePlace(u.regs.sp).value.record + RECORD_SIZE <= FramePlace(outer.regs.sp).value.frame
    ensures inner.regs.sp + FRAME_SIZE <= FramePlace(u.regs.sp).value.record && inner.regs.sp % 16 == 0
  {
    PlaceBelow(u.regs.sp);
    PlaceBelow(outer.regs.sp);
  }

  // ---------------------------------------------------------------- the kernel's code

  ghost predicate WordsMapped(mem: Memory, at: nat, words: nat) {
    forall i :: 0 <= i < words ==> at + 8 * i in mem
  }

  /** Every word the kernel writes for a frame is mapped. */
  ghost predicate FrameMapped(mem: Memory, p: Place, info: bool) {
    && WordsMapped(mem, p.record, 2) && WordsMapped(mem, p.frame + UC, 6)
    && WordsMapped(mem, p.frame + CONTEXT, REGS + 4) && WordsMapped(mem, p.frame + RESERVED, RESERVED_WORDS)
    && (info ==> WordsMapped(mem, p.frame, INFO_WORDS))
  }

  ghost predicate CanDeliver(u: User, g: Signal) {
    && u.regs.sp < ADDRESS_SPACE && FramePlace(u.regs.sp).Some? && g.restorer.Some? && g.handler < TASK_SIZE
    && FrameMapped(u.mem, FramePlace(u.regs.sp).value, g.info.Some?)
  }

  lemma ContextKept(before: Memory, after: Memory, at: nat, r: Regs, low: nat, high: nat)
    requires Context(before, at, r) && SameOutside(before, after, low, high)
    requires Word(at, REGS + 3) <= low || high <= at
    ensures Context(after, at, r)
  {
  }

  lemma FrameKept(before: Memory, after: Memory, p: Place, r: Regs, mask: nat)
    requires p.frame + FRAME_SIZE <= p.record && FrameHolds(before, p, r, mask)
    requires SameOutside(before, after, p.frame, p.frame + UC)
    ensures FrameHolds(after, p, r, mask)
  {
    ContextKept(before, after, p.frame + CONTEXT, r, p.frame, p.frame + UC);
  }

  lemma FramePieces(mem: Memory, p: Place, info: bool)
    ensures FrameMapped(mem, p, info)
          == (FrameMapped(mem, p, false) && (info ==> WordsMapped(mem, p.frame, INFO_WORDS)))
  {
  }

  lemma SameWords(before: Memory, after: Memory, at: nat, words: nat)
    requires before.Keys == after.Keys
    ensures WordsMapped(before, at, words) == WordsMapped(after, at, words)
  {
    assert forall a :: a in before <==> a in before.Keys;
    assert forall a :: a in after <==> a in after.Keys;
  }

  lemma DeliveredFrom(before: User, g: Signal, p: Place, written: Memory, after: User)
    requires WordSized(before.regs) && g.restorer.Some? && FramePlace(before.regs.sp) == Some(p)
    requires SameOutside(before.mem, written, p.frame, p.record + RECORD_SIZE)
    requires FrameHolds(written, p, before.regs, before.blocked)
    requires SameOutside(written, after.mem, p.frame, p.frame + UC) && InfoHolds(after.mem, p.frame, g)
    requires after.regs == HandlerRegs(before.regs, g, p)
    ensures SameOutside(before.mem, after.mem, p.frame, before.regs.sp)
    ensures ValidUser(after.regs) == (g.handler < TASK_SIZE)
    ensures ValidUser(after.regs) ==> Delivered(before, g, after)
  {
    hide InfoHolds, FramePlace, Context, Cleared, FrameHolds;
    PlaceBelow(before.regs.sp);
    FrameKept(written, after.mem, p, before.regs, before.blocked);
  }

  lemma NoPlace(u: User, g: Signal)
    requires u.regs.sp < ADDRESS_SPACE && FramePlace(u.regs.sp) == None
    ensures !CanDeliver(u, g)
  {
  }

  lemma CanDeliverFrom(u: User, g: Signal, p: Place, written: Memory)
    requires u.regs.sp < ADDRESS_SPACE && FramePlace(u.regs.sp) == Some(p) && u.mem.Keys == written.Keys
    ensures CanDeliver(u, g) == (FrameMapped(u.mem, p, false) && g.restorer.Some?
                                 && (g.info.Some? ==> WordsMapped(written, p.frame, INFO_WORDS))
                                 && g.handler < TASK_SIZE)
  {
    hide FrameMapped, WordsMapped;
    FramePieces(u.mem, p, g.info.Some?);
    SameWords(u.mem, written, p.frame, INFO_WORDS);
  }

  /** The frame is mapped if its parts are, in whatever memory the kernel finds when it gets to them. */
  lemma FrameMappedFrom(first: Memory, second: Memory, third: Memory, p: Place)
    requires first.Keys == second.Keys == third.Keys
    ensures FrameMapped(first, p, false)
         == (WordsMapped(first, p.record, 2) && WordsMapped(second, p.frame + UC, 6)
             && WordsMapped(third, p.frame + CONTEXT, REGS + 4)
             && WordsMapped(third, p.frame + RESERVED, RESERVED_WORDS))
  {
    hide WordsMapped;
    SameWords(first, second, p.frame + UC, 6);
    SameWords(first, third, p.frame + CONTEXT, REGS + 4);
    SameWords(first, third, p.frame + RESERVED, RESERVED_WORDS);
  }

  lemma FrameHoldsFrom(second: Memory, third: Memory, fourth: Memory, p: Place, r: Regs, pair: seq<nat>, head: seq<nat>)
    requires |r.x| == REGS && p.frame + FRAME_SIZE <= p.record
    requires |pair| == 2 && pair[0] == r.x[29] && pair[1] == r.x[30] && |head| == 6 && head[0] == head[1] == 0
    requires forall i :: 0 <= i < 2 ==> Holds(second, p.record + 8 * i, pair[i])
    requires forall i :: 0 <= i < 6 ==> Holds(third, p.frame + UC + 8 * i, head[i])
    requires SameOutside(second, third, p.frame + UC, p.frame + UC + 48)
    requires SameOutside(third, fourth, p.frame + CONTEXT, p.frame + FRAME_SIZE)
    requires Context(fourth, p.frame + CONTEXT, r) && Cleared(fourth, p.frame + RESERVED, RESERVED_WORDS)
    ensures FrameHolds(fourth, p, r, head[5])
  {
    hide Context, Cleared;
    assert Holds(second, p.record + 8 * 0, pair[0]) && Holds(second, p.record + 8 * 1, pair[1]);
    assert Holds(third, p.frame + UC + 8 * 0, head[0]) && Holds(third, p.frame + UC + 8 * 1, head[1]);
    assert Holds(third, p.frame + UC + 8 * 5, head[5]);
  }

  class Thread {
    const x: array<nat>
    var sp: nat
    var pc: nat
    var pstate: nat
    var origX0: nat
    var syscallno: int
    var mem: Memory
    var blocked: nat
    /** The mask a system call has put aside for the time it waits; TIF_RESTORE_SIGMASK says there is one. */
    var saved: Option<nat>

    ghost predicate Valid()
      reads this, x
    {
      x.Length == REGS && WordSized(State().regs)
    }

    ghost function State(): User
      reads this, x
    {
      User(Regs(x[..], sp, pc, pstate), mem, blocked)
    }

    constructor (u: User, origX0: nat, syscallno: int)
      requires WordSized(u.regs)
      ensures Valid() && State() == u && this.origX0 == origX0 && this.syscallno == syscallno && fresh(x)
      ensures saved == None
    {
      x := new nat[REGS](i requires 0 <= i < REGS => u.regs.x[i]);
      sp, pc, pstate, mem, blocked := u.regs.sp, u.regs.pc, u.regs.pstate, u.mem, u.blocked;
      this.origX0, this.syscallno, saved := origX0, syscallno, None;
      new;
      assert x[..] == u.regs.x;
    }

    /** `sigmask_to_save`: the mask the interrupted program is to have again. */
    function MaskToSave(): nat
      reads this
    {
      if saved.Some? then saved.value else blocked
    }

    method PutUser(address: nat, value: nat) returns (ok: bool)
      modifies this`mem
      ensures ok == (address in old(mem)) && mem == if ok then old(mem)[address := value] else old(mem)
    {
      ok := address in mem;
      if ok {
        mem := mem[address := value];
      }
    }

    /** `put_user` of words that follow each other. */
    method PutWords(at: nat, words: seq<nat>) returns (ok: bool)
      modifies this`mem
      ensures ok == WordsMapped(old(mem), at, |words|) && SameOutside(old(mem), mem, at, at + 8 * |words|)
      ensures ok ==> forall i :: 0 <= i < |words| ==> Holds(mem, at + 8 * i, words[i])
    {
      for n := 0 to |words|
        invariant WordsMapped(old(mem), at, n) && SameOutside(old(mem), mem, at, at + 8 * n)
        invariant forall i :: 0 <= i < n ==> Holds(mem, at + 8 * i, words[i])
      {
        ok := PutUser(at + 8 * n, words[n]);
        if !ok {
          return;
        }
      }
      ok := true;
    }

    /** `clear_user` of the reserved words. */
    method ClearWords(at: nat, words: nat) returns (ok: bool)
      modifies this`mem
      ensures ok == WordsMapped(old(mem), at, words) && SameOutside(old(mem), mem, at, at + 8 * words)
      ensures ok ==> Cleared(mem, at, words)
    {
      for n := 0 to words
        invariant WordsMapped(old(mem), at, n) && SameOutside(old(mem), mem, at, at + 8 * n)
        invariant Cleared(mem, at, n)
      {
        ok := PutUser(at + 8 * n, 0);
        if !ok {
          return;
        }
      }
      ok := true;
    }

    /** `setup_sigcontext`. */
    method SetupSigcontext(at: nat) returns (ok: bool)
      requires Valid()
      modifies this`mem
      ensures ok
            == (WordsMapped(old(mem), at, REGS + 4) && WordsMapped(old(mem), at + (RESERVED - CONTEXT), RESERVED_WORDS))
      ensures SameOutside(old(mem), mem, at, at + (FRAME_SIZE - CONTEXT))
      ensures ok ==> Context(mem, at, State().regs) && Cleared(mem, at + (RESERVED - CONTEXT), RESERVED_WORDS)
    {
      ghost var words := [0] + x[..] + [sp, pc, pstate];
      ok := PutWords(at, [0] + x[..] + [sp, pc, pstate]);
      if !ok {
        return;
      }
      ghost var written := mem;
      assert Context(mem, at, State().regs) by {
        assert Holds(mem, at + 8 * 0, words[0]);
        forall i | 0 <= i < REGS
          ensures Holds(mem, Word(at, i), x[i])
        {
          assert Holds(mem, at + 8 * (i + 1), words[i + 1]);
        }
        assert Holds(mem, at + 8 * (REGS + 1), words[REGS + 1]) && Holds(mem, at + 8 * (REGS + 2), words[REGS + 2]);
        assert Holds(mem, at + 8 * (REGS + 3), words[REGS + 3]);
      }
      ok := ClearWords(at + (RESERVED - CONTEXT), RESERVED_WORDS);
      ContextKept(written, mem, at, State().regs, at + (RESERVED - CONTEXT), at + (FRAME_SIZE - CONTEXT));
    }

    /** `setup_return`: the registers the handler starts with. */
    method SetupReturn(g: Signal, p: Place) returns (ok: bool)
      requires Valid()
      modifies x, this`sp, this`pc, this`pstate
      ensures x.Length == REGS && ok == g.restorer.Some?
      ensures ok ==> State().regs == HandlerRegs(old(State()).regs, g.(info := None), p)
      ensures !ok ==> State() == old(State())
    {
      if g.restorer == None {
        return false;
      }
      x[0], x[1], x[2] := g.number, 0, 0;
      sp := p.frame;
      x[29] := p.record;
      pc := g.handler;
      x[30] := g.restorer.value;
      pstate := 0;
      return true;
    }

    /** The stores of `setup_rt_frame`, without the `siginfo`. */
    method WriteFrame(p: Place, stack: seq<nat>, mask: nat) returns (ok: bool)
      requires Valid() && |stack| == 3 && p.frame + FRAME_SIZE <= p.record
      modifies this`mem
      ensures ok == FrameMapped(old(mem), p, false)
      ensures SameOutside(old(mem), mem, p.frame, p.record + RECORD_SIZE)
      ensures ok ==> FrameHolds(mem, p, State().regs, mask)
    {
      hide Context, Cleared, WordsMapped, FrameHolds, FrameMapped;
      ghost var first := mem;
      var pair := [x[29], x[30]];
      ok := PutWords(p.record, pair);
      FrameMappedFrom(first, mem, mem, p);
      if !ok {
        return;
      }
      ghost var second := mem;
      var head := [0, 0] + stack + [mask];
      ok := PutWords(p.frame + UC, head);
      FrameMappedFrom(first, second, mem, p);
      if !ok {
        return;
      }
      ghost var third := mem;
      ok := SetupSigcontext(p.frame + CONTEXT);
      if ok {
        FrameHoldsFrom(second, third, mem, p, State().regs, pair, head);
      }
    }

    /** `copy_siginfo_to_user` for SA_SIGINFO, and the handler's second and third argument. */
    method SetupInfo(g: Signal, p: Place) returns (ok: bool)
      requires x.Length == REGS && (g.info.Some? ==> |g.info.value| == INFO_WORDS)
      modifies this`mem, x
      ensures ok == (g.info.Some? ==> WordsMapped(old(mem), p.frame, INFO_WORDS))
      ensures SameOutside(old(mem), mem, p.frame, p.frame + UC)
      ensures ok ==> InfoHolds(mem, p.frame, g)
      ensures x[..] == if ok && g.info.Some? then old(x[..])[1 := p.frame][2 := p.frame + UC] else old(x[..])
    {
      ok := true;
      if g.info.Some? {
        ok := PutWords(p.frame, g.info.value);
        if ok {
          x[1], x[2] := p.frame, p.frame + UC;
        }
      }
    }

    /** The registers of the handler, and its `siginfo`. */
    method EnterHandler(g: Signal, p: Place) returns (ok: bool)
      requires Valid() && (g.info.Some? ==> |g.info.value| == INFO_WORDS)
      modifies this`mem, x, this`sp, this`pc, this`pstate
      ensures ok == (g.restorer.Some? && (g.info.Some? ==> WordsMapped(old(mem), p.frame, INFO_WORDS)))
      ensures SameOutside(old(mem), mem, p.frame, p.frame + UC)
      ensures ok ==> InfoHolds(mem, p.frame, g) && State().regs == HandlerRegs(old(State()).regs, g, p)
    {
      hide InfoHolds, WordsMapped, WordSized;
      ok := SetupReturn(g, p);
      if ok {
        ok := SetupInfo(g, p);
      }
    }

    /** `setup_rt_frame`; `stack` is the alternate stack to record, and `mask` is saved with the registers. */
    method SetupRtFrame(g: Signal, stack: seq<nat>, mask: nat) returns (ok: bool)
      requires Valid() && |stack| == 3 && (g.info.Some? ==> |g.info.value| == INFO_WORDS)
      modifies this`mem, x, this`sp, this`pc, this`pstate
      ensures ok == CanDeliver(old(State()).(blocked := mask), g)
      ensures ok ==> Delivered(old(State()).(blocked := mask), g, State())
      ensures FramePlace(old(sp)).Some? ==> SameOutside(old(mem), mem, FramePlace(old(sp)).value.frame, old(sp))
    {
      ghost var before := State().(blocked := mask);
      assert sp < ADDRESS_SPACE && WordSized(before.regs);
      hide FrameHolds, FramePlace, FrameMapped, WordsMapped, InfoHolds, WordSized, Delivered, CanDeliver, UserMode;
      var place := FramePlace(sp);
      if place == None {
        NoPlace(before, g);
        return false;
      }
      var p := place.value;
      PlaceBelow(sp);
      ok := WriteFrame(p, stack, mask);
      ghost var written := mem;
      CanDeliverFrom(before, g, p, written);
      if !ok {
        return;
      }
      ok := EnterHandler(g, p);
      if !ok {
        return;
      }
      DeliveredFrom(before, g, p, written, State());
      ok := UserMode(pstate) && pc < TASK_SIZE && sp <= STACK_TOP;
    }

    /** `restore_sigcontext`; after a failure the registers are a mixture, and the thread is killed. */
    method RestoreSigcontext(at: nat) returns (ok: bool)
      requires x.Length == REGS
      modifies x, this`sp, this`pc, this`pstate, this`syscallno
      ensures ok == (ContextMapped(mem, at) && ValidUser(ContextRegs(mem, at)))
      ensures ok ==> State().regs == ContextRegs(mem, at) && syscallno == NO_SYSCALL
    {
      ghost var m := mem;
      for i := 0 to REGS
        invariant mem == m
        invariant forall k :: 0 <= k < i ==> Holds(m, Word(at, k), x[k])
      {
        if Word(at, i) !in mem {
          return false;
        }
        x[i] := mem[Word(at, i)];
      }
      if Word(at, REGS) !in mem || Word(at, REGS + 1) !in mem || Word(at, REGS + 2) !in mem {
        return false;
      }
      forall i | 0 <= i < REGS + 3
        ensures Word(at, i) in m
      {
        assert i < REGS ==> Holds(m, Word(at, i), x[i]);
      }
      sp, pc, pstate := mem[Word(at, REGS)], mem[Word(at, REGS + 1)], mem[Word(at, REGS + 2)];
      syscallno := NO_SYSCALL;
      assert x[..] == ContextRegs(m, at).x;
      ok := UserMode(pstate) && pc < TASK_SIZE && sp <= STACK_TOP;
    }

    /** `sys_rt_sigreturn`: what it returns is the x0 it restored. */
    method RtSigreturn() returns (ok: bool, ret: nat)
      requires x.Length == REGS
      modifies x, this`sp, this`pc, this`pstate, this`syscallno, this`blocked
      ensures ok == Returned(old(State())).Some?
      ensures ok ==> Returned(old(State())) == Some(State()) && ret == x[0] && syscallno == NO_SYSCALL
      ensures !ok ==> ret == 0
    {
      if sp % 16 != 0 || !AccessOk(sp, FRAME_SIZE) || sp + UC_MASK !in mem {
        return false, 0;
      }
      blocked := mem[sp + UC_MASK];
      ok := RestoreSigcontext(sp + CONTEXT);
      ret := if ok then x[0] else 0;
    }
  }
}
