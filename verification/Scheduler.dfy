/** The scheduler (kernel/sched.c): selection by remaining counter, recharge when every
    runnable counter is used up, and the timer tick that spends the running task's
    counter. */
module Scheduler {
  import opened Layout

  datatype Task = Task(running: bool, counter: nat, priority: nat)

  type Table = seq<Option<Task>>

  predicate Runnable(tasks: Table, k: int) {
    0 <= k < |tasks| && tasks[k].Some? && tasks[k].value.running
  }

  // Every priority is at least 1 (init_task starts at 15 and sys_nice never goes lower).
  predicate Prioritised(tasks: Table) {
    forall k :: 0 <= k < |tasks| && tasks[k].Some? ==> tasks[k].value.priority >= 1
  }

  // ---------------------------------------------------------------------
  // Selection and recharge
  // ---------------------------------------------------------------------

  // The selection pass over slots |tasks|-1 down to k: the slot chosen and its counter.
  function Pick(tasks: Table, k: nat): (r: (int, int))
    requires k <= |tasks|
    ensures r.1 < 0 <==> forall j :: k <= j < |tasks| ==> !Runnable(tasks, j)
    ensures r.1 >= 0 ==> k <= r.0 < |tasks| && Runnable(tasks, r.0) && tasks[r.0].value.counter == r.1
    ensures forall j :: k <= j < |tasks| && Runnable(tasks, j) ==> tasks[j].value.counter <= r.1
    ensures forall j :: r.1 >= 0 && r.0 < j < |tasks| && Runnable(tasks, j) ==> tasks[j].value.counter < r.1
    decreases |tasks| - k
  {
    if k == |tasks| then (-1, -1)
    else
      var rest := Pick(tasks, k + 1);
      if Runnable(tasks, k) && tasks[k].value.counter > rest.1 then (k, tasks[k].value.counter) else rest
  }

  function RechargeOne(o: Option<Task>): Option<Task> {
    if o.None? then None else Some(o.value.(counter := o.value.counter / 2 + o.value.priority))
  }

  function Recharge(tasks: Table): (r: Table)
    ensures |r| == |tasks|
    ensures forall k :: 0 <= k < |tasks| ==> r[k] == RechargeOne(tasks[k])
  {
    seq(|tasks|, k requires 0 <= k < |tasks| => RechargeOne(tasks[k]))
  }

  // After a recharge every runnable task has something to spend.
  lemma RechargeEnables(tasks: Table)
    requires Prioritised(tasks) && Pick(tasks, 0).1 == 0
    ensures Prioritised(Recharge(tasks)) && Pick(Recharge(tasks), 0).1 > 0
  {
  }

  // What schedule() decides: the table it leaves, the slot to switch to (None: idle, the
  // caller goes on) and whether counters were recharged.
  datatype Decision = Decision(tasks: Table, next: Option<nat>, recharged: bool)

  function Schedule(tasks: Table): (d: Decision)
    requires Prioritised(tasks)
    ensures |d.tasks| == |tasks|
    ensures d.next.Some? ==> Runnable(d.tasks, d.next.value) && d.tasks[d.next.value].value.counter > 0
    ensures d.tasks == if d.recharged then Recharge(tasks) else tasks
    ensures d.next.None? <==> forall k :: 0 <= k < |tasks| ==> !Runnable(tasks, k)
  {
    var (n, c) := Pick(tasks, 0);
    if c > 0 then Decision(tasks, Some(n), false)
    else if c < 0 then Decision(Recharge(tasks), None, true)
    else
      RechargeEnables(tasks);
      Decision(Recharge(tasks), Some(Pick(Recharge(tasks), 0).0), true)
  }

  /** What schedule() promises: the task it switches to is runnable, no runnable task has
      a larger counter, and among equals the highest slot wins. */
  lemma ScheduleIsMaximal(tasks: Table, k: nat)
    requires Prioritised(tasks) && Runnable(tasks, k)
    ensures var d := Schedule(tasks);
            && d.next.Some?
            && d.tasks[k].value.counter <= d.tasks[d.next.value].value.counter
            && (k > d.next.value ==> d.tasks[k].value.counter < d.tasks[d.next.value].value.counter)
  {
  }

  // ---------------------------------------------------------------------
  // The code
  // ---------------------------------------------------------------------

  class RunQueue {
    var tasks: array<Option<Task>>

    // The inner loop of schedule().
    method Select() returns (next: int, c: int)
      ensures (next, c) == Pick(tasks[..], 0)
    {
      c := -1;
      next := -1;
      var p := tasks.Length;
      while p > 0
        invariant 0 <= p <= tasks.Length
        invariant (next, c) == Pick(tasks[..], p)
      {
        p := p - 1;
        if tasks[p].Some? && tasks[p].value.running && tasks[p].value.counter > c {
          c := tasks[p].value.counter;
          next := p;
        }
      }
    }

    // The recharge loop.
    method RechargeAll()
      modifies tasks
      ensures tasks[..] == Recharge(old(tasks[..]))
    {
      var p := tasks.Length;
      while p > 0
        invariant 0 <= p <= tasks.Length
        invariant forall k :: p <= k < tasks.Length ==> tasks[k] == RechargeOne(old(tasks[k]))
        invariant forall k :: 0 <= k < p ==> tasks[k] == old(tasks[k])
      {
        p := p - 1;
        if tasks[p].Some? {
          var t := tasks[p].value;
          tasks[p] := Some(t.(counter := t.counter / 2 + t.priority));
        }
      }
    }

    /** schedule() up to switch_to.  Its endless loop makes at most two selection passes. */
    method Choose() returns (next: Option<nat>, passes: nat)
      requires Prioritised(tasks[..])
      modifies tasks
      ensures passes <= 2
      ensures tasks[..] == Schedule(old(tasks[..])).tasks && next == Schedule(old(tasks[..])).next
    {
      passes := 0;
      while true
        invariant passes <= 1
        invariant passes == 0 ==> tasks[..] == old(tasks[..])
        invariant passes == 1 ==> Pick(old(tasks[..]), 0).1 == 0 && tasks[..] == Recharge(old(tasks[..]))
        decreases 2 - passes
      {
        if passes == 1 {
          RechargeEnables(old(tasks[..]));
        }
        var n, c := Select();
        passes := passes + 1;
        if c > 0 {
          return Some(n), passes;
        }
        if c < 0 {
          RechargeAll();
          return None, passes;
        }
        RechargeAll();
      }
    }
  }

  // ---------------------------------------------------------------------
  // The system
  // ---------------------------------------------------------------------

  datatype System = System(tasks: Table, current: nat)

  // The timer, the running task giving up the CPU (asleep or not), a wake-up, and the
  // end of a task other than the running one.
  datatype Event = Tick | Block | Yield | Wake(k: nat) | Reap(k: nat)

  predicate Possible(s: System, e: Event) {
    match e
    case Wake(k) => k < |s.tasks| && s.tasks[k].Some?
    case Reap(k) => k < |s.tasks| && k != s.current
    case _ => true
  }

  predicate Sound(s: System) {
    && s.current < |s.tasks| && s.tasks[s.current].Some?
    && Prioritised(s.tasks)
    // counters stay at most twice the priority
    && forall k :: 0 <= k < |s.tasks| && s.tasks[k].Some? ==>
         s.tasks[k].value.counter <= 2 * s.tasks[k].value.priority
  }

  // schedule() as the running task calls it.
  function Switch(s: System): System
    requires Prioritised(s.tasks)
  {
    var d := Schedule(s.tasks);
    System(d.tasks, if d.next.Some? then d.next.value else s.current)
  }

  // The table after the part of do_timer that spends the counter.
  function Spend(s: System): Table
    requires s.current < |s.tasks| && s.tasks[s.current].Some?
  {
    var t := s.tasks[s.current].value;
    if t.counter > 0 then s.tasks[s.current := Some(t.(counter := t.counter - 1))] else s.tasks
  }

  // The state in which the event calls schedule(), if it does.
  function Before(s: System, e: Event): Option<System>
    requires Sound(s)
  {
    match e
    case Tick =>
      var tasks := Spend(s);
      if tasks[s.current].value.counter > 0 then None else Some(s.(tasks := tasks))
    case Block => Some(s.(tasks := s.tasks[s.current := Some(s.tasks[s.current].value.(running := false))]))
    case Yield => Some(s)
    case _ => None
  }

  function Next(s: System, e: Event): System
    requires Sound(s) && Possible(s, e)
  {
    match e
    case Wake(k) => s.(tasks := s.tasks[k := Some(s.tasks[k].value.(running := true))])
    case Reap(k) => s.(tasks := s.tasks[k := None])
    case Tick => if Before(s, e).Some? then Switch(Before(s, e).value) else s.(tasks := Spend(s))
    case _ => Switch(Before(s, e).value)
  }

  // The event makes schedule() recharge the counters.
  predicate Recharges(s: System, e: Event)
    requires Sound(s)
  {
    Before(s, e).Some? && Schedule(Before(s, e).value.tasks).recharged
  }

  lemma SwitchIsSound(s: System)
    requires Sound(s)
    ensures Sound(Switch(s)) && |Switch(s).tasks| == |s.tasks|
  {
  }

  lemma NextIsSound(s: System, e: Event)
    requires Sound(s) && Possible(s, e)
    ensures Sound(Next(s, e)) && |Next(s, e).tasks| == |s.tasks|
  {
    var b := Before(s, e);
    if b.Some? {
      assert Sound(b.value);
      SwitchIsSound(b.value);
    }
  }

  // ---------------------------------------------------------------------
  // Bounded waiting
  // ---------------------------------------------------------------------

  function CounterOf(o: Option<Task>): nat {
    if o.None? then 0 else o.value.counter
  }

  function PriorityOf(o: Option<Task>): nat {
    if o.None? then 0 else o.value.priority
  }

  // The counters of all tasks but t.
  function Others(tasks: Table, t: nat, n: nat): nat
    requires n <= |tasks|
  {
    if n == 0 then 0 else Others(tasks, t, n - 1) + (if n - 1 == t then 0 else CounterOf(tasks[n - 1]))
  }

  function OtherPriorities(tasks: Table, t: nat, n: nat): nat
    requires n <= |tasks|
  {
    if n == 0 then 0 else OtherPriorities(tasks, t, n - 1) + (if n - 1 == t then 0 else PriorityOf(tasks[n - 1]))
  }

  lemma {:induction false} OthersSet(tasks: Table, t: nat, n: nat, k: nat, o: Option<Task>)
    requires k < |tasks| && n <= |tasks|
    ensures Others(tasks[k := o], t, n)
            == Others(tasks, t, n) + (if k < n && k != t then CounterOf(o) - CounterOf(tasks[k]) else 0)
    ensures OtherPriorities(tasks[k := o], t, n)
            == OtherPriorities(tasks, t, n) + (if k < n && k != t then PriorityOf(o) - PriorityOf(tasks[k]) else 0)
    decreases n
  {
    if n > 0 {
      OthersSet(tasks, t, n - 1, k, o);
    }
  }

  // A recharge leaves the others at most twice their priorities.
  lemma {:induction false} OthersRecharged(tasks: Table, t: nat, n: nat)
    requires n <= |tasks|
    requires forall k :: 0 <= k < |tasks| && tasks[k].Some? ==> tasks[k].value.counter <= 2 * tasks[k].value.priority
    ensures Others(Recharge(tasks), t, n) <= 2 * OtherPriorities(tasks, t, n)
    ensures OtherPriorities(Recharge(tasks), t, n) == OtherPriorities(tasks, t, n)
    decreases n
  {
    if n > 0 {
      OthersRecharged(tasks, t, n - 1);
    }
  }

  // Ticks the others can still take before t's turn comes.
  function Slack(s: System, t: nat): nat
    requires Sound(s)
  {
    Others(s.tasks, t, |s.tasks|) + (if s.tasks[s.current].value.counter == 0 then 1 else 0)
  }

  predicate Waiting(s: System, t: nat) {
    Runnable(s.tasks, t) && s.current != t
  }

  function TickOf(e: Event): nat {
    if e.Tick? then 1 else 0
  }

  // One event without a recharge: a tick is paid for out of the slack.
  lemma SlackPays(s: System, e: Event, t: nat)
    requires Sound(s) && Possible(s, e) && Waiting(s, t) && Waiting(Next(s, e), t)
    requires !Recharges(s, e)
    ensures Sound(Next(s, e))
    ensures Slack(Next(s, e), t) + TickOf(e) <= Slack(s, t)
    ensures Next(s, e).tasks[t].value.counter == s.tasks[t].value.counter
    ensures OtherPriorities(Next(s, e).tasks, t, |s.tasks|) <= OtherPriorities(s.tasks, t, |s.tasks|)
  {
    NextIsSound(s, e);
    var n := |s.tasks|;
    match e
    case Tick =>
      var c := s.tasks[s.current].value;
      if c.counter > 0 {
        OthersSet(s.tasks, t, n, s.current, Some(c.(counter := c.counter - 1)));
      }
    case Block =>
      OthersSet(s.tasks, t, n, s.current, Some(s.tasks[s.current].value.(running := false)));
    case Yield =>
    case Wake(k) => OthersSet(s.tasks, t, n, k, Some(s.tasks[k].value.(running := true)));
    case Reap(k) => OthersSet(s.tasks, t, n, k, None);
  }

  // A runnable task with something to spend keeps schedule() from recharging.
  lemma NoRechargeWhileWaiting(s: System, e: Event, t: nat)
    requires Sound(s) && Possible(s, e) && Waiting(s, t) && s.tasks[t].value.counter > 0
    ensures !Recharges(s, e)
  {
  }

  // Up to the call of schedule() nothing happens to priorities or to t.
  lemma BeforeKeeps(s: System, e: Event, t: nat)
    requires Sound(s) && Waiting(s, t) && Before(s, e).Some?
    ensures var b := Before(s, e).value;
            && Sound(b) && |b.tasks| == |s.tasks| && b.tasks[t] == s.tasks[t]
            && OtherPriorities(b.tasks, t, |s.tasks|) == OtherPriorities(s.tasks, t, |s.tasks|)
  {
    var c := s.tasks[s.current].value;
    if e.Tick? && c.counter > 0 {
      OthersSet(s.tasks, t, |s.tasks|, s.current, Some(c.(counter := c.counter - 1)));
    } else if e.Block? {
      OthersSet(s.tasks, t, |s.tasks|, s.current, Some(c.(running := false)));
    }
  }

  // A recharge gives t a positive counter and bounds what the others hold.
  lemma RechargeBounds(s: System, e: Event, t: nat)
    requires Sound(s) && Possible(s, e) && Waiting(s, t) && Recharges(s, e)
    ensures Sound(Next(s, e))
    ensures Runnable(Next(s, e).tasks, t) && Next(s, e).tasks[t].value.counter > 0
    ensures Slack(Next(s, e), t) <= 2 * OtherPriorities(s.tasks, t, |s.tasks|) + 1
  {
    BeforeKeeps(s, e, t);
    var b := Before(s, e).value;
    SwitchIsSound(b);
    OthersRecharged(b.tasks, t, |s.tasks|);
    assert Next(s, e) == Switch(b);
  }

  // t is runnable and not running in every state of the run.
  predicate KeepsWaiting(s: System, es: seq<Event>, t: nat)
    requires Sound(s)
    decreases |es|
  {
    && Waiting(s, t)
    && (es == [] ||
        (Possible(s, es[0]) && (NextIsSound(s, es[0]); KeepsWaiting(Next(s, es[0]), es[1..], t))))
  }

  function Ticks(es: seq<Event>): nat {
    if es == [] then 0 else TickOf(es[0]) + Ticks(es[1..])
  }

  lemma {:induction false} OthersAtLeast(tasks: Table, t: nat, n: nat, k: nat)
    requires k < n <= |tasks| && k != t
    ensures Others(tasks, t, n) >= CounterOf(tasks[k])
    decreases n
  {
    if k < n - 1 {
      OthersAtLeast(tasks, t, n - 1, k);
    }
  }

  /** Bounded waiting with a positive counter: whatever the others do by sleeping, waking
      and ending, a runnable task that is not running becomes current within the sum of
      all other counters, plus one, ticks. */
  lemma {:induction false} WaitsAtMostOthers(s: System, es: seq<Event>, t: nat)
    requires Sound(s) && KeepsWaiting(s, es, t) && s.tasks[t].value.counter > 0
    ensures Ticks(es) < Slack(s, t) <= Others(s.tasks, t, |s.tasks|) + 1
    decreases |es|
  {
    if es == [] {
      OthersAtLeast(s.tasks, t, |s.tasks|, s.current);
    } else {
      NextIsSound(s, es[0]);
      NoRechargeWhileWaiting(s, es[0], t);
      SlackPays(s, es[0], t);
      WaitsAtMostOthers(Next(s, es[0]), es[1..], t);
    }
  }

  /** Bounded waiting for every runnable task: one whose counter is used up waits for the
      others to drain, then for one recharge, then as above with every other counter at
      most twice its priority. */
  lemma {:induction false} WaitIsBounded(s: System, es: seq<Event>, t: nat)
    requires Sound(s) && KeepsWaiting(s, es, t)
    ensures Ticks(es) <= Slack(s, t) + 2 * OtherPriorities(s.tasks, t, |s.tasks|) + 1
    decreases |es|
  {
    if es != [] {
      NextIsSound(s, es[0]);
      if Recharges(s, es[0]) {
        RechargeBounds(s, es[0], t);
        WaitsAtMostOthers(Next(s, es[0]), es[1..], t);
      } else {
        SlackPays(s, es[0], t);
        WaitIsBounded(Next(s, es[0]), es[1..], t);
      }
    }
  }
}
