/** Wait queues (fs/buffer.c, sleep_on and wake_up).  A queue is one head pointer; the
    rest of the list lives on the sleepers' kernel stacks, each sleeper holding the head
    it found.  wake_up makes the head runnable and empties the queue, and every woken
    sleeper makes its saved predecessor runnable when it resumes. */
module WaitQueue {
  import opened Layout

  // A task as the queue sees it.  Asleep: inside sleep_on and not runnable.  Woken: made
  // runnable but not yet past the schedule() in sleep_on.  `prev` is the local tmp;
  // `ticket` numbers the calls of sleep_on.
  datatype Task = Away | Asleep(prev: Option<nat>, ticket: nat) | Woken(prev: Option<nat>, ticket: nat)

  datatype Queue = Queue(head: Option<nat>, tasks: seq<Task>, clock: nat)

  predicate Sleeps(q: Queue, t: nat) {
    t < |q.tasks| && q.tasks[t].Asleep?
  }

  predicate Waits(q: Queue, t: nat) {
    t < |q.tasks| && !q.tasks[t].Away?
  }

  // ---------------------------------------------------------------------
  // Steps
  // ---------------------------------------------------------------------

  datatype Step = SleepOn(t: nat) | WakeUp | Resume(t: nat)

  predicate Enabled(q: Queue, step: Step) {
    match step
    case SleepOn(t) => t < |q.tasks| && q.tasks[t].Away?
    case WakeUp => true
    case Resume(t) => t < |q.tasks| && q.tasks[t].Woken?
  }

  // state = TASK_RUNNING for a task that sleeps here; no effect on any other task.
  function MakeRunnable(tasks: seq<Task>, o: Option<nat>): (r: seq<Task>)
    ensures |r| == |tasks|
  {
    if o.Some? && o.value < |tasks| && tasks[o.value].Asleep? then
      tasks[o.value := Woken(tasks[o.value].prev, tasks[o.value].ticket)]
    else tasks
  }

  function Apply(q: Queue, step: Step): Queue
    requires Enabled(q, step)
  {
    match step
    case SleepOn(t) => Queue(Some(t), q.tasks[t := Asleep(q.head, q.clock)], q.clock + 1)
    case WakeUp => Queue(None, MakeRunnable(q.tasks, q.head), q.clock)
    case Resume(t) => Queue(q.head, MakeRunnable(q.tasks[t := Away], q.tasks[t].prev), q.clock)
  }

  predicate Legal(q: Queue, steps: seq<Step>)
    decreases |steps|
  {
    steps == [] || (Enabled(q, steps[0]) && Legal(Apply(q, steps[0]), steps[1..]))
  }

  function Run(q: Queue, steps: seq<Step>): Queue
    requires Legal(q, steps)
    decreases |steps|
  {
    if steps == [] then q else Run(Apply(q, steps[0]), steps[1..])
  }

  predicate Empty(q: Queue) {
    q.head.None? && forall t :: 0 <= t < |q.tasks| ==> q.tasks[t].Away?
  }

  // ---------------------------------------------------------------------
  // The invariant: every sleeper has exactly one keeper
  // ---------------------------------------------------------------------

  // t will make p runnable when it resumes.
  predicate Keeps(q: Queue, t: nat, p: nat) {
    Waits(q, t) && q.tasks[t].prev == Some(p)
  }

  ghost predicate Inv(q: Queue) {
    // the head is NULL or a task asleep on this queue, and nobody else keeps it
    && (q.head.Some? ==> Sleeps(q, q.head.value))
    && (q.head.Some? ==> forall t: nat :: !Keeps(q, t, q.head.value))
    // a saved predecessor is asleep and came before
    && (forall t: nat, p: nat :: Keeps(q, t, p) ==> Sleeps(q, p) && q.tasks[p].ticket < q.tasks[t].ticket)
    // and is saved only once
    && (forall t: nat, u: nat, p: nat :: Keeps(q, t, p) && Keeps(q, u, p) ==> t == u)
    // every sleeper is the head or somebody's saved predecessor
    && (forall p: nat :: Sleeps(q, p) ==> q.head == Some(p) || exists t: nat :: Keeps(q, t, p))
    && (forall t: nat :: Waits(q, t) ==> q.tasks[t].ticket < q.clock)
  }

  lemma SleepOnKeepsInv(q: Queue, t: nat)
    requires Inv(q) && Enabled(q, SleepOn(t))
    ensures Inv(Apply(q, SleepOn(t)))
  {
    var r := Apply(q, SleepOn(t));
    forall p: nat | Sleeps(r, p) && p != t ensures exists u: nat :: Keeps(r, u, p) {
      if q.head == Some(p) {
        assert Keeps(r, t, p);
      } else {
        var u: nat :| Keeps(q, u, p);
        assert Keeps(r, u, p);
      }
    }
    forall u: nat, p: nat | Keeps(r, u, p) && u != t ensures Keeps(q, u, p) {
    }
  }

  lemma WakeUpKeepsInv(q: Queue)
    requires Inv(q)
    ensures Inv(Apply(q, WakeUp))
  {
    var r := Apply(q, WakeUp);
    forall p: nat | Sleeps(r, p) ensures exists u: nat :: Keeps(r, u, p) {
      var u: nat :| Keeps(q, u, p);
      assert Keeps(r, u, p);
    }
    forall u: nat, p: nat | Keeps(r, u, p) ensures Keeps(q, u, p) {
    }
  }

  lemma ResumeKeepsInv(q: Queue, t: nat)
    requires Inv(q) && Enabled(q, Resume(t))
    ensures Inv(Apply(q, Resume(t)))
  {
    var r := Apply(q, Resume(t));
    assert r.tasks[t].Away? by {
      assert q.tasks[t].prev == Some(t) ==> Keeps(q, t, t);
    }
    forall u: nat, p: nat | Keeps(r, u, p)
      ensures Keeps(q, u, p) && r.tasks[u].ticket == q.tasks[u].ticket && r.tasks[p] == q.tasks[p]
    {
      assert u != t && Keeps(q, u, p);
      assert !Keeps(q, t, p);
    }
    forall p: nat | Sleeps(r, p) && r.head != Some(p) ensures exists u: nat :: Keeps(r, u, p) {
      assert Sleeps(q, p);
      var u: nat :| Keeps(q, u, p);
      assert Keeps(r, u, p);
    }
    assert q.head.Some? ==> !Keeps(q, t, q.head.value);
  }

  lemma StepKeepsInv(q: Queue, step: Step)
    requires Inv(q) && Enabled(q, step)
    ensures Inv(Apply(q, step))
  {
    match step
    case SleepOn(t) => SleepOnKeepsInv(q, t);
    case WakeUp => WakeUpKeepsInv(q);
    case Resume(t) => ResumeKeepsInv(q, t);
  }

  lemma {:induction false} RunKeepsInv(q: Queue, steps: seq<Step>)
    requires Inv(q) && Legal(q, steps)
    ensures Inv(Run(q, steps))
    decreases |steps|
  {
    if steps != [] {
      StepKeepsInv(q, steps[0]);
      RunKeepsInv(Apply(q, steps[0]), steps[1..]);
    }
  }

  // ---------------------------------------------------------------------
  // No stranded sleeper
  // ---------------------------------------------------------------------

  // Walking saved predecessors along the path leads from its first task to its last.
  ghost predicate IsPath(q: Queue, path: seq<nat>) {
    |path| > 0 && forall i :: 0 <= i < |path| - 1 ==> Keeps(q, path[i], path[i + 1])
  }

  // The wake-up of path[0] will reach p.
  ghost predicate Reaches(q: Queue, path: seq<nat>, p: nat) {
    && IsPath(q, path) && path[|path| - 1] == p
    && (q.head == Some(path[0]) || (path[0] < |q.tasks| && q.tasks[path[0]].Woken?))
  }

  lemma {:induction false} SleeperIsReached(q: Queue, p: nat) returns (path: seq<nat>)
    requires Inv(q) && Sleeps(q, p)
    ensures Reaches(q, path, p)
    decreases q.clock - q.tasks[p].ticket
  {
    if q.head == Some(p) {
      path := [p];
    } else {
      var t: nat :| Keeps(q, t, p);
      if q.tasks[t].Woken? {
        path := [t, p];
      } else {
        path := SleeperIsReached(q, t);
        path := path + [p];
      }
    }
  }

  /** No stranded sleeper: after every sequence of sleep_on, wake_up and resume steps the
      head is NULL or asleep here, and every sleeper can be reached through saved
      predecessors from the head or from a woken waiter that has not resumed. */
  lemma NoStrandedSleeper(q: Queue, steps: seq<Step>)
    requires Empty(q) && Legal(q, steps)
    ensures var r := Run(q, steps);
            && (r.head.Some? ==> Sleeps(r, r.head.value))
            && forall p: nat :: Sleeps(r, p) ==> exists path :: Reaches(r, path, p)
  {
    RunKeepsInv(q, steps);
    var r := Run(q, steps);
    forall p: nat | Sleeps(r, p) ensures exists path :: Reaches(r, path, p) {
      var path := SleeperIsReached(r, p);
    }
  }

  // ---------------------------------------------------------------------
  // A wake-up reaches everybody who was queued
  // ---------------------------------------------------------------------

  // A call of sleep_on made before `limit` that has not been woken.
  predicate OldSleeper(q: Queue, t: nat, limit: nat) {
    Sleeps(q, t) && q.tasks[t].ticket < limit
  }

  // Calls made from `limit` on are not chained to earlier ones.
  ghost predicate Detached(q: Queue, limit: nat) {
    && limit <= q.clock
    && (q.head.Some? ==> Sleeps(q, q.head.value) && q.tasks[q.head.value].ticket >= limit)
    && (forall t: nat, p: nat :: Keeps(q, t, p) && q.tasks[t].ticket >= limit ==>
          Sleeps(q, p) && q.tasks[p].ticket >= limit)
  }

  lemma WakeUpDetaches(q: Queue)
    requires Inv(q)
    ensures Detached(Apply(q, WakeUp), q.clock)
  {
  }

  lemma StaysDetached(q: Queue, step: Step, limit: nat)
    requires Inv(q) && Detached(q, limit) && Enabled(q, step)
    ensures Detached(Apply(q, step), limit)
  {
    var r := Apply(q, step);
    StepKeepsInv(q, step);
    forall t: nat, p: nat | Keeps(r, t, p) && r.tasks[t].ticket >= limit
      ensures Sleeps(r, p) && r.tasks[p].ticket >= limit
    {
      if !(step.SleepOn? && step.t == t) {
        assert Keeps(q, t, p);
      }
    }
    if step.Resume? && q.head.Some? {
      assert !Keeps(q, step.t, q.head.value);
    }
  }

  lemma {:induction false} RunStaysDetached(q: Queue, steps: seq<Step>, limit: nat)
    requires Inv(q) && Detached(q, limit) && Legal(q, steps)
    ensures Inv(Run(q, steps)) && Detached(Run(q, steps), limit)
    decreases |steps|
  {
    if steps != [] {
      StepKeepsInv(q, steps[0]);
      StaysDetached(q, steps[0], limit);
      RunStaysDetached(Apply(q, steps[0]), steps[1..], limit);
    }
  }

  // As long as a task queued before the wake-up sleeps, a woken one has yet to resume.
  lemma {:induction false} OldSleeperHasWokenKeeper(q: Queue, p: nat, limit: nat) returns (t: nat)
    requires Inv(q) && Detached(q, limit) && OldSleeper(q, p, limit)
    ensures t < |q.tasks| && q.tasks[t].Woken? && q.tasks[t].ticket < limit
    decreases limit - q.tasks[p].ticket
  {
    t :| Keeps(q, t, p);
    if !q.tasks[t].Woken? {
      t := OldSleeperHasWokenKeeper(q, t, limit);
    }
  }

  /** A wake_up followed by the resumes it enables wakes everybody: in every continuation,
      whoever else sleeps and wakes, once no woken task is left to resume, none of the
      tasks queued at the wake_up is still asleep in the call it was in. */
  lemma WakeUpReachesAll(q: Queue, before: seq<Step>, after: seq<Step>, p: nat)
    requires Empty(q) && Legal(q, before)
    requires Legal(Apply(Run(q, before), WakeUp), after)
    requires var r := Run(Apply(Run(q, before), WakeUp), after);
             forall t :: 0 <= t < |r.tasks| ==> !r.tasks[t].Woken?
    ensures !OldSleeper(Run(Apply(Run(q, before), WakeUp), after), p, Run(q, before).clock)
  {
    RunKeepsInv(q, before);
    var m := Run(q, before);
    WakeUpKeepsInv(m);
    WakeUpDetaches(m);
    RunStaysDetached(Apply(m, WakeUp), after, m.clock);
    var r := Run(Apply(m, WakeUp), after);
    if OldSleeper(r, p, m.clock) {
      var t := OldSleeperHasWokenKeeper(r, p, m.clock);
    }
  }

  // How many calls made before `limit` are still inside sleep_on.
  function OldWaiters(tasks: seq<Task>, limit: nat): nat {
    if tasks == [] then 0
    else (if !tasks[0].Away? && tasks[0].ticket < limit then 1 else 0) + OldWaiters(tasks[1..], limit)
  }

  lemma {:induction false} OldWaitersSet(tasks: seq<Task>, t: nat, x: Task, limit: nat)
    requires t < |tasks|
    ensures OldWaiters(tasks[t := x], limit)
            == OldWaiters(tasks, limit)
               - (if !tasks[t].Away? && tasks[t].ticket < limit then 1 else 0)
               + (if !x.Away? && x.ticket < limit then 1 else 0)
  {
    if t == 0 {
      assert tasks[t := x][1..] == tasks[1..];
    } else {
      assert tasks[t := x][1..] == tasks[1..][t - 1 := x];
      OldWaitersSet(tasks[1..], t - 1, x, limit);
    }
  }

  /** The cascade ends: no step adds to the calls queued before the wake-up, and each
      resume of one of them takes one away. */
  lemma CascadeShrinks(q: Queue, step: Step, limit: nat)
    requires Inv(q) && Enabled(q, step) && limit <= q.clock
    ensures OldWaiters(Apply(q, step).tasks, limit)
            == OldWaiters(q.tasks, limit)
               - (if step.Resume? && q.tasks[step.t].ticket < limit then 1 else 0)
  {
    match step
    case SleepOn(t) => OldWaitersSet(q.tasks, t, Asleep(q.head, q.clock), limit);
    case WakeUp =>
      if q.head.Some? {
        var h := q.head.value;
        OldWaitersSet(q.tasks, h, Woken(q.tasks[h].prev, q.tasks[h].ticket), limit);
      }
    case Resume(t) =>
      OldWaitersSet(q.tasks, t, Away, limit);
      if q.tasks[t].prev.Some? {
        var p := q.tasks[t].prev.value;
        assert Keeps(q, t, p);
        OldWaitersSet(q.tasks[t := Away], p, Woken(q.tasks[p].prev, q.tasks[p].ticket), limit);
      }
  }

  // ---------------------------------------------------------------------
  // The code
  // ---------------------------------------------------------------------

  // A queue head and the task table it points into.  `clock` numbers the sleep_on calls;
  // the code has no such counter and no branch depends on it.
  class Waiters {
    var head: Option<nat>
    var tasks: array<Task>
    var clock: nat

    ghost function St(): Queue
      reads this, tasks
    {
      Queue(head, tasks[..], clock)
    }

    ghost predicate Valid()
      reads this, tasks
    {
      Inv(St())
    }

    // sleep_on by task t, up to its schedule().
    method SleepOn(t: nat)
      requires Valid() && Enabled(St(), Step.SleepOn(t))
      modifies this, tasks
      ensures Valid() && tasks == old(tasks)
      ensures St() == Apply(old(St()), Step.SleepOn(t))
    {
      SleepOnKeepsInv(St(), t);
      var tmp := head;
      head := Some(t);
      tasks[t] := Asleep(tmp, clock);
      clock := clock + 1;
      assert tasks[..] == old(tasks[..])[t := Asleep(tmp, old(clock))];
    }

    method Rouse(o: Option<nat>)
      modifies tasks
      ensures tasks[..] == MakeRunnable(old(tasks[..]), o)
    {
      if o.Some? && o.value < tasks.Length && tasks[o.value].Asleep? {
        var p := o.value;
        tasks[p] := Woken(tasks[p].prev, tasks[p].ticket);
        assert tasks[..] == old(tasks[..])[p := tasks[p]];
      }
    }

    // wake_up: the head becomes runnable and the queue is emptied.
    method WakeUp()
      requires Valid()
      modifies this, tasks
      ensures Valid() && tasks == old(tasks)
      ensures St() == Apply(old(St()), Step.WakeUp)
    {
      WakeUpKeepsInv(St());
      if head.Some? {
        Rouse(head);
        head := None;
      }
    }

    // The rest of sleep_on, once task t runs again.
    method Resume(t: nat)
      requires Valid() && Enabled(St(), Step.Resume(t))
      modifies this, tasks
      ensures Valid() && tasks == old(tasks)
      ensures St() == Apply(old(St()), Step.Resume(t))
    {
      ResumeKeepsInv(St(), t);
      var tmp := tasks[t].prev;
      tasks[t] := Away;
      assert tasks[..] == old(tasks[..])[t := Away];
      Rouse(tmp);
    }
  }
}
