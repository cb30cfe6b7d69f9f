/** Signal masks, delivery and the return from a handler (kernel/process.c, kernel/asm.s).
    A mask is the set of signal numbers whose bits are set; bit n stands for signal n. */
module Signals {
  import opened Layout

  const SIGKILL: nat := 9
  const SIGUSR2: nat := 12
  const SIGPIPE: nat := 13
  const SIGCHLD: nat := 17
  const SIGCONT: nat := 18
  const SIGSTOP: nat := 19
  const NSIG: nat := 32

  // Rows of the table of action masks.
  const SA_MAX: nat := 18

  type Mask = set<nat>

  datatype Handler = Default | Ignore | User(addr: nat)

  // suspending/suspendMask: sigsuspend's mask to restore; handling/handlerMask: the running
  // handler's; persistent: installed by sigaction.
  datatype Task = Task(pending: Mask, blocked: Mask, suspending: bool, suspendMask: Mask,
                       handling: bool, handlerMask: Mask,
                       handlers: seq<Handler>, persistent: Mask, actionMask: seq<Mask>)

  ghost predicate Shaped(s: Task) {
    |s.handlers| == NSIG && |s.actionMask| == SA_MAX
  }

  // sig_restore_suspend_mask
  function EndSuspend(s: Task): Task {
    if s.suspending then s.(suspending := false, blocked := s.suspendMask) else s
  }

  // sig_action_mask
  function ActionMask(s: Task, sig: nat): Mask
    requires |s.actionMask| == SA_MAX
  {
    if 0 < sig < SA_MAX then s.actionMask[sig] else {}
  }

  datatype How = Block | Unblock | SetMask

  function NewMask(was: Mask, how: How, signals: Mask): Mask {
    (match how
     case Block => was + signals
     case Unblock => was - signals
     case SetMask => signals) - {SIGKILL}
  }

  // The stored action mask is sixteen bits wide.
  function Stored(mask: Mask): Mask {
    set n | n in mask && n < 16
  }

  // What sigaction does to its own task.
  function Install(s: Task, sig: nat, h: Handler, mask: Mask): Task
    requires Shaped(s) && 0 < sig < NSIG
  {
    s.(handlers := s.handlers[sig := h],
       persistent := if h.User? then s.persistent + {sig} else s.persistent - {sig},
       actionMask := if sig < SA_MAX then s.actionMask[sig := if h.User? then Stored(mask) else {}] else s.actionMask)
  }

  // Of the mask a program asks for, signals 16 and SIGCHLD are not kept.
  lemma InstallDrops(s: Task, sig: nat, addr: nat, mask: Mask)
    requires Shaped(s) && 0 < sig < SA_MAX && forall n :: n in mask ==> n <= SIGCHLD
    ensures ActionMask(Install(s, sig, User(addr), mask), sig) == mask - {16, SIGCHLD}
  {
  }

  // ---------------------------------------------------------------------
  // do_signal
  // ---------------------------------------------------------------------

  datatype Outcome = Nothing | Entered(sig: nat, addr: nat) | Killed(sig: nat)

  predicate Fatal(sig: nat) {
    sig in {2, 3, 9, 11, 13, 14}
  }

  // What a handler's entry does to the task.
  function Enter(s: Task, sig: nat): (r: Task)
    requires Shaped(s) && sig < NSIG
    ensures Shaped(r)
  {
    var s1 := if sig != SIGCHLD && sig !in s.persistent then s.(handlers := s.handlers[sig := Default]) else s;
    var s2 := EndSuspend(s1);
    s2.(handling := true, handlerMask := s2.blocked, blocked := s2.blocked + {sig} + ActionMask(s, sig))
  }

  // The scan from signal `sig` on, for a task interrupted in user mode or not.
  function Scan(s: Task, sig: nat, user: bool): (r: (Task, Outcome))
    requires Shaped(s) && sig <= NSIG
    ensures Shaped(r.0)
    decreases NSIG - sig
  {
    if sig == NSIG then (EndSuspend(s), Nothing)
    else if sig !in s.pending then Scan(s, sig + 1, user)
    else if sig == SIGSTOP || sig == SIGCONT then Scan(s.(pending := s.pending - {sig}), sig + 1, user)
    else if sig in s.blocked then Scan(s, sig + 1, user)
    else
      var s' := s.(pending := s.pending - {sig});
      match s.handlers[sig]
      case Ignore => Scan(s', sig + 1, user)
      case User(addr) =>
        if user then (Enter(s', sig), Entered(sig, addr))
        else if Fatal(sig) then (s', Killed(sig)) else Scan(s', sig + 1, user)
      case Default => if Fatal(sig) then (s', Killed(sig)) else Scan(s', sig + 1, user)
  }

  // A signal for which the task could be entered or killed.
  predicate Acts(s: Task, n: nat, user: bool)
    requires Shaped(s)
  {
    && 0 < n < NSIG && n in s.pending && n !in s.blocked && n != SIGSTOP && n != SIGCONT
    && ((s.handlers[n].User? && user) || (!s.handlers[n].Ignore? && Fatal(n)))
  }

  // The state the scan goes on with after passing over `sig`.
  function Pass(s: Task, sig: nat): (r: Task) {
    if sig in s.pending && (sig == SIGSTOP || sig == SIGCONT || sig !in s.blocked)
    then s.(pending := s.pending - {sig}) else s
  }

  lemma ScanStep(s: Task, sig: nat, user: bool)
    requires Shaped(s) && 0 < sig < NSIG
    ensures !Acts(s, sig, user) ==> Scan(s, sig, user) == Scan(Pass(s, sig), sig + 1, user)
    ensures Acts(s, sig, user) ==>
              Scan(s, sig, user) == if s.handlers[sig].User? && user
                                    then (Enter(Pass(s, sig), sig), Entered(sig, s.handlers[sig].addr))
                                    else (Pass(s, sig), Killed(sig))
  {
  }

  // No signal from a up to b acts.
  predicate Quiet(s: Task, a: nat, b: nat, user: bool)
    requires Shaped(s)
  {
    forall n: nat :: a <= n < b ==> !Acts(s, n, user)
  }

  // The lowest signal that can act does, and only that one, which is then no longer pending.
  lemma {:induction false} ScanPicksLowest(s: Task, sig: nat, user: bool)
    requires Shaped(s) && 0 < sig <= NSIG
    ensures var o := Scan(s, sig, user).1;
            && (o.Nothing? <==> Quiet(s, sig, NSIG, user))
            && (!o.Nothing? ==> sig <= o.sig < NSIG && Acts(s, o.sig, user) && Quiet(s, sig, o.sig, user))
            && (!o.Nothing? ==> o.sig !in Scan(s, sig, user).0.pending)
            && (o.Entered? ==> s.handlers[o.sig] == User(o.addr) && user)
            && (o.Killed? ==> !(s.handlers[o.sig].User? && user))
    decreases NSIG - sig
  {
    hide Scan;
    if sig == NSIG {
      ScanEnds(s, user);
    } else {
      ScanStep(s, sig, user);
      var s' := Pass(s, sig);
      if !Acts(s, sig, user) {
        ScanPicksLowest(s', sig + 1, user);
        assert forall n: nat :: sig < n ==> Acts(s', n, user) == Acts(s, n, user);
        assert Scan(s, sig, user).1.Nothing? <==> Quiet(s, sig, NSIG, user);
      }
    }
  }

  lemma ScanEnds(s: Task, user: bool)
    requires Shaped(s)
    ensures Scan(s, NSIG, user) == (EndSuspend(s), Nothing)
  {
  }

  // A blocked signal stays pending.
  lemma {:induction false} BlockedStaysPending(s: Task, sig: nat, user: bool, n: nat)
    requires Shaped(s) && 0 < sig <= NSIG
    requires n in s.pending && (n < sig || n >= NSIG || (n in s.blocked && n != SIGSTOP && n != SIGCONT))
    ensures n in Scan(s, sig, user).0.pending
    decreases NSIG - sig
  {
    hide Scan;
    if sig == NSIG {
      ScanEnds(s, user);
    } else {
      ScanStep(s, sig, user);
      if !Acts(s, sig, user) {
        BlockedStaysPending(Pass(s, sig), sig + 1, user, n);
      }
    }
  }

  // How the scan leaves the masks: untouched, or those of the handler entered.
  lemma {:induction false} ScanMasks(s: Task, sig: nat, user: bool)
    requires Shaped(s) && 0 < sig <= NSIG
    ensures var (r, o) := Scan(s, sig, user);
            var base := if s.suspending then s.suspendMask else s.blocked;
            && (!o.Killed? ==> !r.suspending)
            && (o.Killed? ==> r.suspending == s.suspending && r.suspendMask == s.suspendMask)
            && (o.Nothing? ==> r.blocked == base && r.handling == s.handling && r.handlerMask == s.handlerMask)
            && (o.Entered? ==>
                r.handling && r.handlerMask == base && r.blocked == base + {o.sig} + ActionMask(s, o.sig))
            && (o.Entered? ==> o.sig !in s.blocked)
    decreases NSIG - sig
  {
    hide Scan;
    if sig == NSIG {
      ScanEnds(s, user);
    } else {
      ScanStep(s, sig, user);
      if !Acts(s, sig, user) {
        ScanMasks(Pass(s, sig), sig + 1, user);
      }
    }
  }

  // ---------------------------------------------------------------------
  // Masks over a run
  // ---------------------------------------------------------------------

  // What a task does in user mode, and what the kernel does before it goes on.
  datatype Event =
    | Post(sig: nat)                        // a signal arrives
    | Procmask(how: How, signals: Mask)
    | Sigsuspend(mask: Mask, arrived: Mask) // returns once something the mask lets through is pending
    | OtherCall                             // any other system call, or a clock tick
    | Sigreturn                             // the handler returned

  function Before(s: Task, e: Event): Task {
    match e
    case Post(sig) => s.(pending := s.pending + {sig})
    case Procmask(how, signals) => s.(blocked := NewMask(s.blocked, how, signals))
    case Sigsuspend(mask, arrived) =>
      s.(pending := s.pending + arrived, blocked := mask - {SIGKILL}, suspending := true, suspendMask := s.blocked)
    case OtherCall => s
    case Sigreturn => if s.handling then s.(handling := false, blocked := s.handlerMask) else s
  }

  // The kernel calls do_signal on the way back when something is pending.
  function After(s: Task, e: Event): (r: (Task, Outcome))
    requires Shaped(s)
    ensures Shaped(r.0)
  {
    var s' := Before(s, e);
    if e.Post? || s'.pending == {} then (s', Nothing) else Scan(s', 1, true)
  }

  // sigsuspend sleeps until a signal the new mask lets through is pending.
  predicate Possible(s: Task, e: Event) {
    e.Sigsuspend? ==> exists n :: n in s.pending + e.arrived && n !in e.mask - {SIGKILL}
  }

  // What the program believes: its mask, and the one to come back to after the handler.
  datatype Belief = Belief(mask: Mask, saved: Option<Mask>)

  function BeliefOf(s: Task): Belief {
    Belief(s.blocked, if s.handling then Some(s.handlerMask) else None)
  }

  // What it should believe after an event, whose outcome may be a handler blocking `extra`.
  function Intended(b: Belief, e: Event, o: Outcome, extra: Mask): Belief {
    var m := match e
      case Procmask(how, signals) => b.(mask := NewMask(b.mask, how, signals))
      case Sigreturn => if b.saved.Some? then Belief(b.saved.value, None) else b
      case _ => b;
    if o.Entered? then Belief(m.mask + {o.sig} + extra, Some(m.mask)) else m
  }

  // Each event changes the masks as intended: sigsuspend leaves no trace, and a handler's mask
  // comes on top of the one in force.
  lemma EventIsIntended(s: Task, e: Event)
    requires Shaped(s) && !s.suspending && Possible(s, e)
    ensures var (r, o) := After(s, e);
            && (!o.Killed? ==> !r.suspending)
            && (!o.Killed? ==>
                BeliefOf(r) == Intended(BeliefOf(s), e, o, if o.Entered? then ActionMask(s, o.sig) else {}))
  {
    var s' := Before(s, e);
    hide Scan;
    if !e.Post? && s'.pending != {} {
      ScanMasks(s', 1, true);
      var o := Scan(s', 1, true).1;
      if o.Entered? {
        ScanPicksLowest(s', 1, true);
        assert ActionMask(s', o.sig) == ActionMask(s, o.sig);
      }
    }
  }

  // The mask in force when the event's own effect is done and nothing has been delivered yet.
  function MaskAt(s: Task, e: Event): Mask {
    Intended(BeliefOf(s), e, Nothing, {}).mask
  }

  // Events during which no handler is entered and none returns.
  ghost predicate Calm(s: Task, es: seq<Event>)
    requires Shaped(s)
    decreases |es|
  {
    es == [] ||
    (&& Possible(s, es[0]) && !es[0].Sigreturn? && After(s, es[0]).1.Nothing?
     && Calm(After(s, es[0]).0, es[1..]))
  }

  function RunAll(s: Task, es: seq<Event>): (t: Task)
    requires Shaped(s)
    ensures Shaped(t)
    decreases |es|
  {
    if es == [] then s else RunAll(After(s, es[0]).0, es[1..])
  }

  // The mask after the calls to sigprocmask among the events.
  function Masked(mask: Mask, es: seq<Event>): Mask
    decreases |es|
  {
    if es == [] then mask
    else Masked(if es[0].Procmask? then NewMask(mask, es[0].how, es[0].signals) else mask, es[1..])
  }

  // Over a calm run only sigprocmask changes the mask, and nothing the one to come back to.
  lemma {:induction false} CalmKeepsSaved(s: Task, es: seq<Event>)
    requires Shaped(s) && Calm(s, es) && !s.suspending
    ensures var t := RunAll(s, es);
            && !t.suspending && t.handling == s.handling
            && BeliefOf(t) == Belief(Masked(s.blocked, es), BeliefOf(s).saved)
    decreases |es|
  {
    hide After;
    if es != [] {
      EventIsIntended(s, es[0]);
      CalmKeepsSaved(After(s, es[0]).0, es[1..]);
    }
  }

  // With one handler outstanding, whatever the handler blocks, unblocks or waits for, its return
  // brings back the mask that was in force when it was entered.
  lemma HandlerRestoresMask(s: Task, e: Event, es: seq<Event>)
    requires Shaped(s) && !s.suspending && Possible(s, e) && After(s, e).1.Entered?
    requires Calm(After(s, e).0, es)
    ensures var t := RunAll(After(s, e).0, es);
            && (After(t, Sigreturn).1.Nothing? ==> BeliefOf(After(t, Sigreturn).0) == Belief(MaskAt(s, e), None))
            && (After(t, Sigreturn).1.Entered? ==> BeliefOf(After(t, Sigreturn).0).saved == Some(MaskAt(s, e)))
  {
    EventIsIntended(s, e);
    CalmKeepsSaved(After(s, e).0, es);
    EventIsIntended(RunAll(After(s, e).0, es), Sigreturn);
  }

  // The task enters a handler at e and, events es later, one more at f.
  ghost predicate Nests(s: Task, e: Event, es: seq<Event>, f: Event)
    requires Shaped(s)
  {
    && !s.suspending && Possible(s, e) && After(s, e).1.Entered? && Calm(After(s, e).0, es)
    && var a := RunAll(After(s, e).0, es); Possible(a, f) && !f.Sigreturn? && After(a, f).1.Entered?
  }

  // Events gs later a handler returns, and no other is entered at once.
  ghost predicate Returns(s: Task, gs: seq<Event>)
    requires Shaped(s)
  {
    Calm(s, gs) && After(RunAll(s, gs), Sigreturn).1.Nothing?
  }

  // There is one place to save a mask: when a second handler is entered inside the first, the
  // first return brings back the mask in force between them and the second return nothing, so
  // the mask from before them is back exactly when that one, with what the rest of the first
  // handler did to it, is the same.
  lemma NestedHandlersRestoreIff(s: Task, e: Event, es: seq<Event>, f: Event, gs: seq<Event>, hs: seq<Event>)
    requires Shaped(s) && Nests(s, e, es, f)
    requires Returns(After(RunAll(After(s, e).0, es), f).0, gs)
    requires Returns(After(RunAll(After(RunAll(After(s, e).0, es), f).0, gs), Sigreturn).0, hs)
    ensures var a := RunAll(After(s, e).0, es);
            var u := After(RunAll(After(a, f).0, gs), Sigreturn).0;
            && BeliefOf(u) == Belief(MaskAt(a, f), None)
            && (BeliefOf(After(RunAll(u, hs), Sigreturn).0) == Belief(MaskAt(s, e), None) <==>
                Masked(MaskAt(a, f), hs) == MaskAt(s, e))
  {
    var r := After(s, e).0;
    var a := RunAll(r, es);
    var b := After(a, f).0;
    EventIsIntended(s, e);
    hide After, RunAll, Calm, Masked;
    CalmKeepsSaved(r, es);
    EventIsIntended(a, f);
    CalmKeepsSaved(b, gs);
    EventIsIntended(RunAll(b, gs), Sigreturn);
    var u := After(RunAll(b, gs), Sigreturn).0;
    CalmKeepsSaved(u, hs);
    EventIsIntended(RunAll(u, hs), Sigreturn);
  }

  // A handler without calls to sigprocmask runs with its own signal blocked, which the mask
  // before it may not have had; then a nested handler loses that mask.
  lemma NestedHandlerLosesMask(s: Task, e: Event, f: Event)
    requires Shaped(s) && !s.suspending && Possible(s, e) && After(s, e).1.Entered? && !f.Procmask? && !f.Sigreturn?
    requires After(s, e).1.sig !in MaskAt(s, e)
    ensures MaskAt(After(s, e).0, f) != MaskAt(s, e)
  {
    EventIsIntended(s, e);
  }

  // The signal is blocked whenever the kernel looks for one to deliver.
  ghost predicate Held(s: Task, es: seq<Event>, n: nat)
    requires Shaped(s)
    decreases |es|
  {
    es == [] || (n in Before(s, es[0]).blocked && Held(After(s, es[0]).0, es[1..], n))
  }

  // A signal stays pending over every run during which it is blocked,
  lemma {:induction false} HeldStaysPending(s: Task, es: seq<Event>, n: nat)
    requires Shaped(s) && n in s.pending && n != SIGSTOP && n != SIGCONT && Held(s, es, n)
    ensures n in RunAll(s, es).pending
    decreases |es|
  {
    hide Scan;
    if es != [] {
      if After(s, es[0]).0 != Before(s, es[0]) {
        BlockedStaysPending(Before(s, es[0]), 1, true, n);
      }
      HeldStaysPending(After(s, es[0]).0, es[1..], n);
    }
  }

  // and its handler is entered at the first event that leaves it unblocked, if no lower one acts.
  lemma HeldThenDelivered(s: Task, es: seq<Event>, n: nat, e: Event)
    requires Shaped(s) && n in s.pending && 0 < n < NSIG && n != SIGSTOP && n != SIGCONT && Held(s, es, n)
    requires var t := Before(RunAll(s, es), e);
             n !in t.blocked && t.handlers[n].User? && Quiet(t, 1, n, true) && !e.Post?
    ensures After(RunAll(s, es), e).1 == Entered(n, RunAll(s, es).handlers[n].addr)
  {
    HeldStaysPending(s, es, n);
    hide Scan;
    var t := Before(RunAll(s, es), e);
    assert Acts(t, n, true);
    ScanPicksLowest(t, 1, true);
  }

  // ---------------------------------------------------------------------
  // Fork
  // ---------------------------------------------------------------------

  // What sys_fork gives the child, whose slot still has what its last task left: pending signals
  // and handlers come with the copied task, masks and actions are copied, and sigsuspend's flag
  // and mask are not touched.
  function Inherit(slot: Task, parent: Task): Task {
    parent.(suspending := slot.suspending, suspendMask := slot.suspendMask, handling := false)
  }

  // do_signal: what is pending is looked at, and sigsuspend is over in any case.
  function Delivered(s: Task, user: bool): (r: (Task, Outcome))
    requires Shaped(s)
  {
    if s.pending == {} then (EndSuspend(s), Nothing) else Scan(s, 1, user)
  }

  // A task that is killed out of sigsuspend leaves the flag set.
  lemma KilledLeavesFlag(s: Task, user: bool)
    requires Shaped(s) && Delivered(s, user).1.Killed?
    ensures Delivered(s, user).0.suspending == s.suspending
  {
    ScanMasks(s, 1, user);
  }

  /** The child's mask after its first do_signal, and the one its first handler returns to, is the
      parent's if and only if the last task of its slot left sigsuspend's flag clear or noted that
      very mask. */
  lemma ForkMaskIff(slot: Task, parent: Task, user: bool)
    requires Shaped(parent)
    ensures var (r, o) := Delivered(Inherit(slot, parent), user);
            !o.Killed? ==>
              ((if o.Entered? then r.handlerMask else r.blocked) == parent.blocked <==>
               !slot.suspending || slot.suspendMask == parent.blocked)
  {
    ScanMasks(Inherit(slot, parent), 1, user);
  }

  // SIGKILL is blocked by a handler exactly when its action mask has it.
  lemma KillBlockedIff(s: Task, e: Event)
    requires Shaped(s) && !s.suspending && Possible(s, e) && After(s, e).1.Entered? && SIGKILL !in MaskAt(s, e)
    requires |s.handlers| == NSIG && s.handlers[SIGKILL] == Default
    ensures SIGKILL in After(s, e).0.blocked <==> SIGKILL in ActionMask(s, After(s, e).1.sig)
  {
    EventIsIntended(s, e);
    ScanPicksLowest(Before(s, e), 1, true);
  }

  // ---------------------------------------------------------------------
  // Contexts
  // ---------------------------------------------------------------------

  type Word = w: int | 0 <= w < WORD

  // The frame a system call returns through.
  type Frame = f: seq<Word> | |f| == 16 witness seq(16, _ => 0)

  const EBX: nat := 0
  const ECX: nat := 1
  const EDX: nat := 2
  const ESI: nat := 3
  const EDI: nat := 4
  const EBP: nat := 5
  const EAX: nat := 6
  const GS: nat := 7
  const FS: nat := 8
  const ES: nat := 9
  const DS: nat := 10
  const EIP: nat := 11
  const CS: nat := 12
  const EFLAGS: nat := 13
  const ESP: nat := 14
  const SS: nat := 15

  const SIGFRAME_MAGIC: Word := 0x51475346
  const SIGRETURN_ENTRY: Word := 0x083F_F100
  const SIGFRAME_BYTES: nat := 92
  const USER_CS: Word := 0x1B
  const USER_DS: Word := 0x23

  // The context the kernel keeps while a handler runs.
  type Context = c: seq<Word> | |c| == 20 witness seq(20, _ => 0)

  function Signed(w: Word): int {
    if w < WORD / 2 then w else w - WORD
  }

  // Where the signal block goes, below the interrupted stack pointer.
  function BlockBase(esp: Word): Word {
    (esp - 4 - SIGFRAME_BYTES) % WORD
  }

  // deliver_signal's test of the stack.
  predicate StackOk(esp: Word) {
    && USER_STACK_FLOOR <= Signed(esp) <= USER_STACK_TOP
    && Signed(BlockBase(esp)) >= USER_STACK_FLOOR
  }

  // The block lies within the user stack exactly when the test passes.
  lemma StackOkIff(esp: Word)
    ensures StackOk(esp) <==> USER_STACK_FLOOR + 4 + SIGFRAME_BYTES <= esp <= USER_STACK_TOP
  {
  }

  function Save(f: Frame, sig: Word, addr: Word): Context {
    [SIGFRAME_MAGIC, SIGRETURN_ENTRY, addr, sig,
     f[EIP], f[CS], f[EFLAGS], f[ESP], f[SS], f[GS], f[FS], f[ES], f[DS], f[EAX],
     f[EBX], f[ECX], f[EDX], f[ESI], f[EDI], f[EBP]]
  }

  // What the handler is entered with.
  function HandlerFrame(f: Frame, addr: Word): Frame {
    f[EIP := addr][ESP := BlockBase(f[ESP])]
  }

  // sys_sigreturn's checks.
  predicate Accepted(c: Context) {
    && c[0] == SIGFRAME_MAGIC && c[1] == SIGRETURN_ENTRY && c[4] != 0 && c[5] == USER_CS && c[8] == USER_DS
    && c[7] % 4 == 0 && USER_STACK_FLOOR <= c[7] < USER_WINDOW_TOP
  }

  function Resumed(c: Context): Frame {
    c[14..] + [c[13]] + c[9..13] + c[4..9]
  }

  // The sixteen words come back as they were; a frame that was delivered on is accepted exactly
  // when it returns to user code with an aligned stack.
  lemma ContextRoundTrip(f: Frame, sig: Word, addr: Word)
    requires StackOk(f[ESP])
    ensures Resumed(Save(f, sig, addr)) == f
    ensures Accepted(Save(f, sig, addr)) <==> f[EIP] != 0 && f[CS] == USER_CS && f[SS] == USER_DS && f[ESP] % 4 == 0
  {
  }

  // When the stack is refused the handler does not run, but its signal is gone and its mask is in
  // force: the masks are those the program should have exactly when the stack is accepted, or the
  // handler's mask adds nothing to one that is already saved.
  lemma RefusedFrameKeepsMasksIff(s: Task, e: Event, esp: Word)
    requires Shaped(s) && !s.suspending && Possible(s, e) && After(s, e).1.Entered?
    ensures var (r, o) := After(s, e);
            var extra := ActionMask(s, o.sig);
            var m := Intended(BeliefOf(s), e, Nothing, {});
            && o.sig in Before(s, e).pending && o.sig !in r.pending
            && (BeliefOf(r) == Intended(BeliefOf(s), e, if StackOk(esp) then o else Nothing, extra) <==>
                StackOk(esp) || (m.saved == Some(m.mask) && {o.sig} + extra <= m.mask))
  {
    hide Scan;
    EventIsIntended(s, e);
    ScanPicksLowest(Before(s, e), 1, true);
    var (r, o) := After(s, e);
    var m := Intended(BeliefOf(s), e, Nothing, {});
    var added := {o.sig} + ActionMask(s, o.sig);
    assert r.blocked == m.mask + added;
    assert m.mask + added == m.mask <==> added <= m.mask;
  }

  datatype Delivery = Delivery(frame: Frame, sig: Word, addr: Word)

  // There is one context for all tasks; every delivery, in whatever task, overwrites it.
  function DeliverAll(c: Context, ds: seq<Delivery>): Context
    decreases |ds|
  {
    if ds == [] then c else DeliverAll(Save(ds[0].frame, ds[0].sig, ds[0].addr), ds[1..])
  }

  // So a task gets its own frame back exactly when the last delivery's frame was equal.
  lemma {:induction false} OwnFrameIff(c: Context, ds: seq<Delivery>, i: nat)
    requires i < |ds| && StackOk(ds[|ds| - 1].frame[ESP])
    ensures Resumed(DeliverAll(c, ds)) == ds[i].frame <==> ds[|ds| - 1].frame == ds[i].frame
  {
    LastDeliveryStays(c, ds);
    var last := ds[|ds| - 1];
    ContextRoundTrip(last.frame, last.sig, last.addr);
  }

  lemma {:induction false} LastDeliveryStays(c: Context, ds: seq<Delivery>)
    requires ds != []
    ensures var last := ds[|ds| - 1]; DeliverAll(c, ds) == Save(last.frame, last.sig, last.addr)
    decreases |ds|
  {
    if |ds| > 1 {
      LastDeliveryStays(Save(ds[0].frame, ds[0].sig, ds[0].addr), ds[1..]);
    } else {
      assert ds[1..] == [];
    }
  }

  // The timer interrupt's frame: pushal order, then segments and the iret frame.
  type TimerFrame = f: seq<Word> | |f| == 17 witness seq(17, _ => 0)

  datatype Register =
    | Ebx | Ecx | Edx | Esi | Edi | Ebp | Eax | Gs | Fs | Es | Ds | Eip | Cs | Eflags | Esp | Ss

  function InFrame(f: Frame, r: Register): Word {
    match r
    case Ebx => f[0] case Ecx => f[1] case Edx => f[2] case Esi => f[3] case Edi => f[4] case Ebp => f[5]
    case Eax => f[6] case Gs => f[7] case Fs => f[8] case Es => f[9] case Ds => f[10] case Eip => f[11]
    case Cs => f[12] case Eflags => f[13] case Esp => f[14] case Ss => f[15]
  }

  function InTimerFrame(f: TimerFrame, r: Register): Word {
    match r
    case Edi => f[0] case Esi => f[1] case Ebp => f[2] case Ebx => f[4] case Edx => f[5] case Ecx => f[6]
    case Eax => f[7] case Gs => f[8] case Fs => f[9] case Es => f[10] case Ds => f[11] case Eip => f[12]
    case Cs => f[13] case Eflags => f[14] case Esp => f[15] case Ss => f[16]
  }

  // do_signal_from_intr's copy.
  function Canonical(t: TimerFrame): Frame {
    [t[4], t[6], t[5], t[1], t[0], t[2], t[7], t[8], t[9], t[10], t[11], t[12], t[13], t[14], t[15], t[16]]
  }

  // A handler entered from the timer returns to the very registers the timer interrupted.
  lemma TimerContextRoundTrip(t: TimerFrame, sig: Word, addr: Word, r: Register)
    requires StackOk(InTimerFrame(t, Esp))
    ensures InFrame(Resumed(Save(Canonical(t), sig, addr)), r) == InTimerFrame(t, r)
  {
  }

  // ---------------------------------------------------------------------
  // The kernel's code
  // ---------------------------------------------------------------------

  class SignalState {
    var pending: Mask
    var blocked: Mask
    var suspending: bool
    var suspendMask: Mask
    var handling: bool
    var handlerMask: Mask
    var handlers: seq<Handler>
    var persistent: Mask
    var actionMask: seq<Mask>

    function St(): Task
      reads this
    {
      Task(pending, blocked, suspending, suspendMask, handling, handlerMask, handlers, persistent, actionMask)
    }

    // sys_sigprocmask
    method Sigprocmask(how: How, signals: Mask)
      modifies `blocked
      ensures St() == old(Before(St(), Procmask(how, signals)))
    {
      var mask := match how case Block => blocked + signals case Unblock => blocked - signals case SetMask => signals;
      blocked := mask - {SIGKILL};
    }

    // sys_sigaction, which only asks when there is no action; a user handler must lie in the
    // program image.
    method Sigaction(sig: int, act: Option<(Handler, Mask)>) returns (ok: bool)
      requires Shaped(St())
      modifies `handlers, `persistent, `actionMask
      ensures ok <==> && 1 <= sig < NSIG && sig != SIGKILL
                      && (act.Some? && act.value.0.User? ==> USER_PROG_START <= act.value.0.addr < USER_PROG_END)
      ensures St() == if ok && act.Some? then old(Install(St(), sig, act.value.0, act.value.1)) else old(St())
    {
      if sig < 1 || sig >= NSIG || sig == SIGKILL {
        return false;
      }
      if act.None? {
        return true;
      }
      var (h, mask) := act.value;
      if h.User? && (h.addr < USER_PROG_START || h.addr >= USER_PROG_END) {
        return false;
      }
      handlers := handlers[sig := h];
      if h.User? {
        persistent := persistent + {sig};
        if sig < SA_MAX {
          actionMask := actionMask[sig := Stored(mask)];
        }
      } else {
        persistent := persistent - {sig};
        if sig < SA_MAX {
          actionMask := actionMask[sig := {}];
        }
      }
      return true;
    }

    // sys_sigsuspend; `arrived` is what other tasks post while it sleeps.
    method SuspendUntil(mask: Mask, arrived: Mask)
      requires Possible(St(), Sigsuspend(mask, arrived))
      modifies `pending, `blocked, `suspending, `suspendMask
      ensures St() == old(Before(St(), Sigsuspend(mask, arrived)))
    {
      var was := blocked;
      blocked := mask - {SIGKILL};
      pending := pending + arrived;
      suspendMask := was;
      suspending := true;
    }

    method RestoreSuspendMask()
      modifies `suspending, `blocked
      ensures St() == old(EndSuspend(St()))
    {
      if suspending {
        suspending := false;
        blocked := suspendMask;
      }
    }

    // Entry of a user handler.
    method EnterHandler(sig: nat)
      requires Shaped(St()) && sig < NSIG
      modifies `handlers, `suspending, `blocked, `handling, `handlerMask
      ensures St() == old(Enter(St(), sig))
    {
      if sig != SIGCHLD && sig !in persistent {
        handlers := handlers[sig := Default];
      }
      RestoreSuspendMask();
      handlerMask := blocked;
      handling := true;
      blocked := blocked + {sig} + if 0 < sig < SA_MAX then actionMask[sig] else {};
    }

    // do_signal
    method DoSignal(frame: array<Word>, context: array<Word>, user: bool) returns (o: Outcome)
      requires Shaped(St()) && frame.Length == 16 && context.Length == 20 && frame != context
      requires forall n :: 0 <= n < NSIG && handlers[n].User? ==> handlers[n].addr < WORD
      modifies this, frame, context
      ensures (St(), o) == if old(pending) == {} then (old(EndSuspend(St())), Nothing) else Scan(old(St()), 1, user)
      ensures o.Entered? && StackOk(old(frame[ESP])) ==>
                && o.addr < WORD && o.sig < WORD
                && context[..] == Save(old(frame[..]), o.sig, o.addr)
                && frame[..] == HandlerFrame(old(frame[..]), o.addr)
      ensures !(o.Entered? && StackOk(old(frame[ESP]))) ==>
              frame[..] == old(frame[..]) && context[..] == old(context[..])
    {
      o := Nothing;
      if pending == {} {
        RestoreSuspendMask();
        return;
      }
      ghost var s := St();
      var sig := 1;
      while sig < NSIG
        invariant 1 <= sig <= NSIG && Shaped(St()) && Scan(St(), sig, user) == Scan(s, 1, user)
        invariant handlers == s.handlers && frame[..] == old(frame[..]) && context[..] == old(context[..])
      {
        if sig in pending {
          if sig == SIGSTOP || sig == SIGCONT {
            pending := pending - {sig};
          } else if sig !in blocked {
            var h := handlers[sig];
            pending := pending - {sig};
            if h.User? && user {
              EnterHandler(sig);
              var _ := Deliver(sig, h.addr, frame, context);
              return Entered(sig, h.addr);
            }
            if !h.Ignore? && Fatal(sig) {
              return Killed(sig);
            }
          }
        }
        sig := sig + 1;
      }
      RestoreSuspendMask();
    }

    // deliver_signal: nothing is written when the stack pointer is out of range.
    static method Deliver(sig: Word, addr: Word, frame: array<Word>, context: array<Word>) returns (ok: bool)
      requires frame.Length == 16 && context.Length == 20 && frame != context
      modifies frame, context
      ensures ok <==> StackOk(old(frame[ESP]))
      ensures !ok ==> frame[..] == old(frame[..]) && context[..] == old(context[..])
      ensures ok ==> context[..] == Save(old(frame[..]), sig, addr) && frame[..] == HandlerFrame(old(frame[..]), addr)
    {
      var esp := frame[ESP];
      var base := BlockBase(esp);
      if Signed(esp) < USER_STACK_FLOOR || Signed(esp) > USER_STACK_TOP || Signed(base) < USER_STACK_FLOOR {
        return false;
      }
      context[0], context[1], context[2], context[3] := SIGFRAME_MAGIC, SIGRETURN_ENTRY, addr, sig;
      context[4], context[5], context[6], context[7], context[8] :=
        frame[EIP], frame[CS], frame[EFLAGS], frame[ESP], frame[SS];
      context[9], context[10], context[11], context[12], context[13] :=
        frame[GS], frame[FS], frame[ES], frame[DS], frame[EAX];
      context[14], context[15], context[16] := frame[EBX], frame[ECX], frame[EDX];
      context[17], context[18], context[19] := frame[ESI], frame[EDI], frame[EBP];
      frame[EIP] := addr;
      frame[ESP] := base;
      return true;
    }

    // sys_sigreturn; false: the machine stops.
    method SigreturnCall(frame: array<Word>, context: array<Word>) returns (ok: bool)
      requires frame.Length == 16 && context.Length == 20 && frame != context
      modifies `handling, `blocked, frame
      ensures St() == old(Before(St(), Sigreturn))
      ensures ok <==> Accepted(context[..])
      ensures frame[..] == if ok then Resumed(context[..]) else old(frame[..])
    {
      if handling {
        handling := false;
        blocked := handlerMask;
      }
      if context[0] != SIGFRAME_MAGIC || context[1] != SIGRETURN_ENTRY || context[4] == 0 || context[5] != USER_CS ||
         context[8] != USER_DS || context[7] % 4 != 0 || context[7] < USER_STACK_FLOOR || context[7] >= USER_WINDOW_TOP
      {
        return false;
      }
      Rewrite(frame, context);
      return true;
    }

    // The frame is rewritten word by word: what iret pops, the segments and eax, the general
    // registers.
    static method Rewrite(frame: array<Word>, context: array<Word>)
      requires frame.Length == 16 && context.Length == 20 && frame != context
      modifies frame
      ensures frame[..] == Resumed(context[..])
    {
      RewriteIret(frame, context);
      RewriteSegments(frame, context);
      frame[EBX] := context[14];
      frame[ECX] := context[15];
      frame[EDX] := context[16];
      frame[ESI] := context[17];
      frame[EDI] := context[18];
      frame[EBP] := context[19];
    }

    static method RewriteIret(frame: array<Word>, context: array<Word>)
      requires frame.Length == 16 && context.Length == 20 && frame != context
      modifies frame
      ensures frame[..11] == old(frame[..11]) && frame[11..] == context[4..9]
    {
      frame[SS] := context[8];
      frame[ESP] := context[7];
      frame[EFLAGS] := context[6];
      frame[CS] := context[5];
      frame[EIP] := context[4];
    }

    static method RewriteSegments(frame: array<Word>, context: array<Word>)
      requires frame.Length == 16 && context.Length == 20 && frame != context
      modifies frame
      ensures frame[..6] == old(frame[..6]) && frame[6] == context[13]
      ensures frame[7..11] == context[9..13] && frame[11..] == old(frame[11..])
    {
      frame[GS] := context[9];
      frame[FS] := context[10];
      frame[ES] := context[11];
      frame[DS] := context[12];
      frame[EAX] := context[13];
    }
  }
}
