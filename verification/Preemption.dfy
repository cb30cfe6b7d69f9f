/** sleep_on (fs/buffer.c) one assignment at a time.  A call that is made with interrupts on can be
    preempted between its assignments, since the timer interrupt calls schedule() whatever it
    interrupts; one that is made with interrupts off cannot. */
module Preemption {
  import opened Layout
  import opened WaitQueue

  // How far a call has come: the head has been read, or the caller is the new head but still
  // marked runnable.
  datatype Mid = Read(tmp: Option<nat>) | Linked(tmp: Option<nat>)

  // The queue, the calls under way, and the tasks whose calls can be preempted.
  datatype Fine = Fine(queue: Queue, mid: map<nat, Mid>, on: set<nat>)

  datatype Micro = ReadHead(t: nat) | LinkIn(t: nat) | Mark(t: nat) | Wake | GoOn(t: nat)

  // Nobody else runs while a call with interrupts off is under way.
  predicate MayRun(f: Fine, t: Option<nat>) {
    forall u :: u in f.mid && u !in f.on ==> t == Some(u)
  }

  predicate CanDo(f: Fine, m: Micro) {
    match m
    case ReadHead(t) => t < |f.queue.tasks| && f.queue.tasks[t].Away? && t !in f.mid && MayRun(f, Some(t))
    case LinkIn(t) => t in f.mid && f.mid[t].Read? && MayRun(f, Some(t))
    case Mark(t) => t in f.mid && f.mid[t].Linked? && t < |f.queue.tasks| && MayRun(f, Some(t))
    case Wake => MayRun(f, None)
    case GoOn(t) => t < |f.queue.tasks| && f.queue.tasks[t].Woken? && MayRun(f, Some(t))
  }

  function Step1(f: Fine, m: Micro): Fine
    requires CanDo(f, m)
  {
    match m
    case ReadHead(t) => f.(mid := f.mid[t := Read(f.queue.head)])
    case LinkIn(t) => f.(queue := f.queue.(head := Some(t)), mid := f.mid[t := Linked(f.mid[t].tmp)])
    case Mark(t) =>
      var q := f.queue;
      f.(queue := q.(tasks := q.tasks[t := Asleep(f.mid[t].tmp, q.clock)], clock := q.clock + 1), mid := f.mid - {t})
    case Wake => f.(queue := Apply(f.queue, WakeUp))
    case GoOn(t) => f.(queue := Apply(f.queue, Resume(t)))
  }

  predicate CanDoAll(f: Fine, ms: seq<Micro>)
    decreases |ms|
  {
    ms == [] || (CanDo(f, ms[0]) && CanDoAll(Step1(f, ms[0]), ms[1..]))
  }

  function StepAll(f: Fine, ms: seq<Micro>): Fine
    requires CanDoAll(f, ms)
    decreases |ms|
  {
    if ms == [] then f else StepAll(Step1(f, ms[0]), ms[1..])
  }

  // n tasks, none of them on the queue.
  function Idle(n: nat, on: set<nat>): Fine {
    Fine(Queue(None, seq(n, _ => Away), 0), map[], on)
  }

  // A sleeper that neither the head nor a saved predecessor leads to.
  ghost predicate Stranded(q: Queue, u: nat) {
    Sleeps(q, u) && q.head != Some(u) && forall t: nat :: !Keeps(q, t, u)
  }

  // ---------------------------------------------------------------------
  // With interrupts off
  // ---------------------------------------------------------------------

  // The queue before the call that is under way.
  function Before(f: Fine, t: nat): Queue
    requires t in f.mid
  {
    if f.mid[t].Linked? then f.queue.(head := f.mid[t].tmp) else f.queue
  }

  // At most one call is under way, and without it the queue is sound.
  ghost predicate Solid(f: Fine) {
    && (f.mid == map[] ==> Inv(f.queue))
    && (f.mid != map[] ==> exists t: nat :: Alone(f, t))
  }

  ghost predicate Alone(f: Fine, t: nat) {
    && f.mid.Keys == {t} && t < |f.queue.tasks| && f.queue.tasks[t].Away? && Inv(Before(f, t))
    && (f.mid[t].Read? ==> f.mid[t].tmp == f.queue.head) && (f.mid[t].Linked? ==> f.queue.head == Some(t))
  }

  lemma SolidStep(f: Fine, m: Micro)
    requires f.on == {} && Solid(f) && CanDo(f, m)
    ensures Solid(Step1(f, m))
  {
    var r := Step1(f, m);
    if f.mid == map[] {
      match m
      case ReadHead(t) => assert Alone(r, t);
      case Wake => WakeUpKeepsInv(f.queue);
      case GoOn(t) => ResumeKeepsInv(f.queue, t);
    } else {
      var t: nat :| Alone(f, t);
      assert t in f.mid;
      if m == LinkIn(t) {
        assert Before(r, t) == f.queue;
        assert Alone(r, t);
      } else {
        SolidMark(f, t, m);
      }
    }
  }

  // The last assignment completes the step of the coarse queue.
  lemma SolidMark(f: Fine, t: nat, m: Micro)
    requires f.on == {} && Alone(f, t) && CanDo(f, m) && m != LinkIn(t)
    ensures m == Mark(t) && Step1(f, m).mid == map[] && Inv(Step1(f, m).queue)
  {
    assert t in f.mid && m == Mark(t);
    var q := Before(f, t);
    SleepOnKeepsInv(q, t);
    assert Step1(f, m).queue == Apply(q, SleepOn(t));
  }

  lemma {:induction false} SolidRun(f: Fine, ms: seq<Micro>)
    requires f.on == {} && Solid(f) && CanDoAll(f, ms)
    ensures Solid(StepAll(f, ms))
    decreases |ms|
  {
    if ms != [] {
      SolidStep(f, ms[0]);
      SolidRun(Step1(f, ms[0]), ms[1..]);
    }
  }

  lemma SolidIsNotStranded(f: Fine, u: nat)
    requires Solid(f)
    ensures f.mid == map[] ==> !Stranded(f.queue, u)
  {
  }

  // ---------------------------------------------------------------------
  // With interrupts on
  // ---------------------------------------------------------------------

  // u's whole call falls between the first two assignments of t's.
  function Torn(t: nat, u: nat): seq<Micro> {
    [ReadHead(t), ReadHead(u), LinkIn(u), Mark(u), LinkIn(t), Mark(t)]
  }

  lemma TornStrands(n: nat, on: set<nat>, t: nat, u: nat)
    requires t in on && t < n && u < n && t != u
    ensures CanDoAll(Idle(n, on), Torn(t, u))
    ensures var f := StepAll(Idle(n, on), Torn(t, u)); f.mid == map[] && Stranded(f.queue, u)
  {
    var f0, ms := Idle(n, on), Torn(t, u);
    var f1 := Step1(f0, ReadHead(t));
    var f2 := Step1(f1, ReadHead(u));
    var f3 := Step1(f2, LinkIn(u));
    var f4 := Step1(f3, Mark(u));
    var f5 := Step1(f4, LinkIn(t));
    var f6 := Step1(f5, Mark(t));
    assert f6.mid == map[] && Stranded(f6.queue, u);
    assert ms[1..][1..][1..][1..][1..][1..] == [];
    assert CanDoAll(f6, []) && StepAll(f6, []) == f6;
    assert ms[5..] == [Mark(t)] && ms[4..][1..] == ms[5..] && ms[3..][1..] == ms[4..];
    assert ms[2..][1..] == ms[3..] && ms[1..][1..] == ms[2..] && ms[5..][1..] == [];
    assert CanDoAll(f5, ms[5..]) && StepAll(f5, ms[5..]) == f6;
    assert CanDoAll(f4, ms[4..]) && StepAll(f4, ms[4..]) == f6;
    assert CanDoAll(f3, ms[3..]) && StepAll(f3, ms[3..]) == f6;
    assert CanDoAll(f2, ms[2..]) && StepAll(f2, ms[2..]) == f6;
    assert CanDoAll(f1, ms[1..]) && StepAll(f1, ms[1..]) == f6;
  }

  // A stranded task sleeps on, whatever is done on the queue.
  lemma StrandedStep(q: Queue, step: Step, u: nat)
    requires Stranded(q, u) && Enabled(q, step)
    ensures Stranded(Apply(q, step), u)
  {
    var r := Apply(q, step);
    forall t: nat ensures !Keeps(r, t, u) {
      assert !Keeps(q, t, u);
    }
    assert step.Resume? ==> !Keeps(q, step.t, u);
  }

  lemma {:induction false} StrandedForever(q: Queue, steps: seq<Step>, u: nat)
    requires Stranded(q, u) && Legal(q, steps)
    ensures Sleeps(Run(q, steps), u)
    decreases |steps|
  {
    if steps != [] {
      StrandedStep(q, steps[0], u);
      StrandedForever(Apply(q, steps[0]), steps[1..], u);
    }
  }

  // Some run leaves a task stranded when all calls are over.
  ghost predicate CanStrand(n: nat, on: set<nat>) {
    exists ms, u: nat :: CanDoAll(Idle(n, on), ms) && StepAll(Idle(n, on), ms).mid == map[] &&
                         Stranded(StepAll(Idle(n, on), ms).queue, u)
  }

  /** With two tasks or more, no run strands a sleeper if and only if every call of sleep_on on the
      queue is made with interrupts off. */
  lemma NoneStrandedIff(n: nat, on: set<nat>)
    requires n >= 2 && forall t :: t in on ==> t < n
    ensures !CanStrand(n, on) <==> on == {}
  {
    if on != {} {
      var t :| t in on;
      var u := if t == 0 then 1 else 0;
      TornStrands(n, on, t, u);
    } else {
      forall ms, u: nat | CanDoAll(Idle(n, on), ms) && StepAll(Idle(n, on), ms).mid == map[]
        ensures !Stranded(StepAll(Idle(n, on), ms).queue, u)
      {
        SolidRun(Idle(n, on), ms);
        SolidIsNotStranded(StepAll(Idle(n, on), ms), u);
      }
    }
  }
}
