/** Pipes (fs/pipe.c): one page used as a ring of at most 4095 bytes between the end that
    writes and the end that reads.  `ends` is the inode's count: 2 while both are open. */
module Pipe {
  import opened Layout
  import S = Signals

  datatype Ring = Ring(buf: Page, head: nat, tail: nat)

  ghost predicate Fits(r: Ring) {
    r.head < PAGE_SIZE && r.tail < PAGE_SIZE
  }

  function Next(i: nat): nat {
    (i + 1) % PAGE_SIZE
  }

  // (head - tail) & (PAGE_SIZE - 1)
  function Size(r: Ring): nat {
    (r.head - r.tail) % PAGE_SIZE
  }

  predicate Empty(r: Ring) {
    r.head == r.tail
  }

  predicate Full(r: Ring) {
    Size(r) == PAGE_SIZE - 1
  }

  function Put(r: Ring, b: Byte): Ring
    requires r.head < PAGE_SIZE
  {
    r.(buf := r.buf[r.head := b], head := Next(r.head))
  }

  function Get(r: Ring): Ring {
    r.(tail := Next(r.tail))
  }

  // The bytes in the ring, oldest first.
  ghost function Queue(r: Ring): (q: seq<Byte>)
    requires Fits(r)
    ensures |q| == Size(r)
  {
    if r.tail <= r.head then r.buf[r.tail..r.head] else r.buf[r.tail..] + r.buf[..r.head]
  }

  lemma PutAppends(r: Ring, b: Byte)
    requires Fits(r) && !Full(r)
    ensures Fits(Put(r, b)) && Queue(Put(r, b)) == Queue(r) + [b]
  {
  }

  lemma GetTakesFirst(r: Ring)
    requires Fits(r) && !Empty(r)
    ensures Fits(Get(r)) && [r.buf[r.tail]] + Queue(Get(r)) == Queue(r)
  {
  }

  // ---------------------------------------------------------------------
  // Interleavings of byte steps
  // ---------------------------------------------------------------------

  // `accepted` are all bytes ever put in, `delivered` all ever taken out.
  datatype State = State(ring: Ring, ends: nat, accepted: seq<Byte>, delivered: seq<Byte>)

  datatype Step = PutByte(b: Byte) | GetByte | CloseEnd

  predicate Enabled(s: State, step: Step) {
    s.ring.head < PAGE_SIZE && s.ring.tail < PAGE_SIZE &&
    match step
    case PutByte(b) => !Full(s.ring)
    case GetByte => !Empty(s.ring)
    case CloseEnd => s.ends > 0
  }

  function Do(s: State, step: Step): State
    requires Enabled(s, step)
  {
    match step
    case PutByte(b) => s.(ring := Put(s.ring, b), accepted := s.accepted + [b])
    case GetByte => s.(ring := Get(s.ring), delivered := s.delivered + [s.ring.buf[s.ring.tail]])
    case CloseEnd => s.(ends := s.ends - 1)
  }

  // What came out, followed by what is in the ring, is what went in.
  ghost predicate Fifo(s: State) {
    Fits(s.ring) && s.accepted == s.delivered + Queue(s.ring)
  }

  lemma StepKeepsFifo(s: State, step: Step)
    requires Fifo(s) && Enabled(s, step)
    ensures Fifo(Do(s, step))
  {
    match step
    case PutByte(b) =>
      PutAppends(s.ring, b);
      assert s.accepted + [b] == s.delivered + (Queue(s.ring) + [b]);
    case GetByte =>
      GetTakesFirst(s.ring);
      var b := s.ring.buf[s.ring.tail];
      assert s.delivered + ([b] + Queue(Get(s.ring))) == (s.delivered + [b]) + Queue(Get(s.ring));
    case CloseEnd =>
  }

  ghost predicate Legal(s: State, steps: seq<Step>)
    decreases |steps|
  {
    steps == [] || (Enabled(s, steps[0]) && Legal(Do(s, steps[0]), steps[1..]))
  }

  ghost function Run(s: State, steps: seq<Step>): State
    requires Legal(s, steps)
    decreases |steps|
  {
    if steps == [] then s else Run(Do(s, steps[0]), steps[1..])
  }

  function Fresh(page: Page): State {
    State(Ring(page, 0, 0), 2, [], [])
  }

  lemma {:induction false} RunKeepsFifo(s: State, steps: seq<Step>)
    requires Fifo(s) && Legal(s, steps)
    ensures Fifo(Run(s, steps))
    decreases |steps|
  {
    if steps != [] {
      StepKeepsFifo(s, steps[0]);
      RunKeepsFifo(Do(s, steps[0]), steps[1..]);
    }
  }

  // In every interleaving the bytes read are a prefix of the bytes written, and the ring holds
  // the difference, at most 4095 bytes.
  lemma PipeIsFifo(page: Page, steps: seq<Step>)
    requires Legal(Fresh(page), steps)
    ensures var s := Run(Fresh(page), steps);
            && Fits(s.ring) && s.delivered <= s.accepted
            && Queue(s.ring) == s.accepted[|s.delivered|..] && |Queue(s.ring)| <= PAGE_SIZE - 1
  {
    RunKeepsFifo(Fresh(page), steps);
    var s := Run(Fresh(page), steps);
    assert s.accepted[|s.delivered|..] == Queue(s.ring);
  }

  // ---------------------------------------------------------------------
  // The calls
  // ---------------------------------------------------------------------

  // The bit write_pipe sets when nobody reads.
  const BROKEN_BIT: nat := S.SIGPIPE - 1

  // The task's signals after a write that found nobody to read.
  function Broken(pending: S.Mask): S.Mask {
    pending + {BROKEN_BIT}
  }

  // What one more pending signal brings a task in which nothing else acts.
  lemma OneMoreSignal(s: S.Task, n: nat, user: bool)
    requires S.Shaped(s) && S.Quiet(s, 1, S.NSIG, user) && 0 < n < S.NSIG && n != S.SIGSTOP && n != S.SIGCONT
    ensures var o := S.Scan(s.(pending := s.pending + {n}), 1, user).1;
            o == if n in s.blocked then S.Nothing
                 else if s.handlers[n].User? && user then S.Entered(n, s.handlers[n].addr)
                 else if S.Fatal(n) && !s.handlers[n].Ignore? then S.Killed(n)
                 else S.Nothing
  {
    hide S.Scan;
    var t := s.(pending := s.pending + {n});
    S.ScanPicksLowest(t, 1, user);
    assert forall k: nat :: k != n ==> S.Acts(t, k, user) == S.Acts(s, k, user);
    assert S.Acts(t, n, user) ==> !S.Quiet(t, 1, S.NSIG, user);
  }

  // A writer that finds nobody to read is to be killed by SIGPIPE unless it has made arrangements
  // for that signal.  Bit n of the signal word stands for signal n, so what it gets is SIGUSR2:
  // it is never killed, and a handler it has for SIGPIPE is never entered.
  lemma BrokenPipeSignal(s: S.Task, user: bool)
    requires S.Shaped(s) && S.Quiet(s, 1, S.NSIG, user)
    ensures var got := S.Scan(s.(pending := Broken(s.pending)), 1, user).1;
            got == if S.SIGUSR2 !in s.blocked && s.handlers[S.SIGUSR2].User? && user
                   then S.Entered(S.SIGUSR2, s.handlers[S.SIGUSR2].addr) else S.Nothing
    ensures var due := S.Scan(s.(pending := s.pending + {S.SIGPIPE}), 1, user).1;
            due == if S.SIGPIPE in s.blocked || s.handlers[S.SIGPIPE].Ignore? then S.Nothing
                   else if s.handlers[S.SIGPIPE].User? && user then S.Entered(S.SIGPIPE, s.handlers[S.SIGPIPE].addr)
                   else S.Killed(S.SIGPIPE)
  {
    OneMoreSignal(s, BROKEN_BIT, user);
    OneMoreSignal(s, S.SIGPIPE, user);
  }

  // What the other party may do while this one waits or is between two bytes.
  predicate WriterSteps(steps: seq<Step>) {
    forall i :: 0 <= i < |steps| ==> !steps[i].GetByte?
  }

  predicate ReaderSteps(steps: seq<Step>) {
    forall i :: 0 <= i < |steps| ==> !steps[i].PutByte?
  }

  datatype ReadResult = ReadWaits | ReadDone(bytes: seq<Byte>)
  datatype WriteResult = WriteRefused | WriteWaits(n: nat) | WriteBroken(n: nat) | WriteDone(n: nat)

  // One log of bytes grows into another.
  ghost predicate Extends(a: seq<Byte>, b: seq<Byte>) {
    a <= b
  }

  lemma ExtendsTwice(a: seq<Byte>, b: seq<Byte>, c: seq<Byte>)
    requires Extends(a, b) && Extends(b, c)
    ensures Extends(a, c)
  {
  }

  lemma OneMore(base: seq<Byte>, data: seq<Byte>, n: nat)
    requires n < |data|
    ensures (base + data[..n]) + [data[n]] == base + data[..n + 1]
  {
  }

  class PipeInode {
    const buf: array<Byte>
    var head: nat
    var tail: nat
    var ends: nat
    ghost var accepted: seq<Byte>
    ghost var delivered: seq<Byte>

    ghost function St(): State
      reads this, buf
      requires buf.Length == PAGE_SIZE
    {
      State(Ring(buf[..], head, tail), ends, accepted, delivered)
    }

    ghost predicate Valid()
      reads this, buf
    {
      buf.Length == PAGE_SIZE && Fifo(St())
    }

    constructor (page: Page)
      ensures Valid() && fresh(buf) && St() == Fresh(page)
    {
      buf := new Byte[PAGE_SIZE](i requires 0 <= i < PAGE_SIZE => page[i]);
      head, tail, ends, accepted, delivered := 0, 0, 2, [], [];
      new;
      assert buf[..] == page;
    }

    // The steps another task takes, those that are not possible left out.
    method Others(steps: seq<Step>)
      requires Valid()
      modifies this, buf
      ensures Valid()
      ensures WriterSteps(steps) ==> delivered == old(delivered) && Extends(old(accepted), accepted)
      ensures ReaderSteps(steps) ==> accepted == old(accepted) && Extends(old(delivered), delivered)
      ensures ends <= old(ends)
    {
      for i := 0 to |steps|
        invariant Valid() && ends <= old(ends)
        invariant WriterSteps(steps) ==> delivered == old(delivered) && Extends(old(accepted), accepted)
        invariant ReaderSteps(steps) ==> accepted == old(accepted) && Extends(old(delivered), delivered)
      {
        match steps[i] {
          case PutByte(b) =>
            var full := IsFull();
            if !full { PutOne(b); }
          case GetByte => if head != tail { var _ := GetOne(); }
          case CloseEnd => if ends > 0 { ends := ends - 1; }
        }
      }
    }

    method PutOne(b: Byte)
      requires Valid() && !Full(St().ring)
      modifies this, buf
      ensures Valid() && St() == old(Do(St(), PutByte(b)))
      ensures accepted == old(accepted) + [b] && delivered == old(delivered) && ends == old(ends)
    {
      StepKeepsFifo(St(), PutByte(b));
      ghost var s := St();
      buf[head] := b;
      head := (head + 1) % PAGE_SIZE;
      accepted := accepted + [b];
      assert St() == Do(s, PutByte(b));
    }

    method GetOne() returns (b: Byte)
      requires Valid() && !Empty(St().ring)
      modifies this
      ensures Valid() && St() == old(Do(St(), GetByte)) && b == old(St().ring.buf[tail])
    {
      StepKeepsFifo(St(), GetByte);
      ghost var s := Do(St(), GetByte);
      hide Fifo;
      b := buf[tail];
      delivered := delivered + [b];
      tail := (tail + 1) % PAGE_SIZE;
      assert St() == s;
    }

    // read_pipe.  `script` says what the writer does at each point where it can run; when it is
    // used up while the reader must wait, the reader is left waiting.
    method ReadPipe(count: nat, script: seq<seq<Step>>) returns (r: ReadResult)
      requires Valid() && forall i :: 0 <= i < |script| ==> WriterSteps(script[i])
      modifies this, buf
      ensures Valid() && Extends(old(accepted), accepted)
      ensures r.ReadWaits? ==> delivered == old(delivered) && head == tail && ends == 2
      ensures r.ReadDone? ==> delivered == old(delivered) + r.bytes && |r.bytes| <= count
      ensures r.ReadDone? && |r.bytes| < count ==> head == tail
      ensures r.ReadDone? && r.bytes == [] && count > 0 ==> head == tail && ends != 2
    {
      var k := 0;
      while head == tail
        invariant k <= |script| && Valid() && delivered == old(delivered) && Extends(old(accepted), accepted)
        decreases |script| - k
      {
        if ends != 2 {
          assert old(delivered) + [] == old(delivered);
          return ReadDone([]);
        }
        if k == |script| {
          return ReadWaits;
        }
        Others(script[k]);
        k := k + 1;
      }
      var bytes, got := [], 0;
      while got < count && head != tail
        invariant got == |bytes| <= count && k <= |script| && Valid() && Extends(old(accepted), accepted)
        invariant delivered == old(delivered) + bytes
        invariant got == 0 ==> head != tail
      {
        var b := GetOne();
        bytes, got := bytes + [b], got + 1;
        if k < |script| {
          Others(script[k]);
          k := k + 1;
        }
      }
      return ReadDone(bytes);
    }

    // write_pipe by a task with the given signals pending.
    method WritePipe(data: seq<Byte>, script: seq<seq<Step>>, pending: S.Mask)
      returns (r: WriteResult, after: S.Mask)
      requires Valid() && forall i :: 0 <= i < |script| ==> ReaderSteps(script[i])
      modifies this, buf
      ensures Valid() && Extends(old(delivered), delivered)
      ensures r.WriteRefused? <==> old(ends) != 2
      ensures r.WriteRefused? ==> accepted == old(accepted)
      ensures !r.WriteRefused? ==> r.n <= |data| && accepted == old(accepted) + data[..r.n]
      ensures r.WriteDone? ==> r.n == |data|
      ensures r.WriteBroken? ==> ends != 2 && Full(St().ring)
      ensures r.WriteWaits? ==> ends == 2 && Full(St().ring)
      ensures after == if r.WriteRefused? || r.WriteBroken? then Broken(pending) else pending
    {
      if ends != 2 {
        return WriteRefused, Broken(pending);
      }
      hide Fifo, Do, Full, ReaderSteps;
      var n, k := 0, 0;
      assert old(accepted) + data[..0] == old(accepted) && Extends(delivered, delivered);
      hide Extends;
      while n < |data|
        invariant n <= |data| && k <= |script| && Valid() && Extends(old(delivered), delivered)
        invariant accepted == old(accepted) + data[..n]
      {
        ghost var before := delivered;
        k := AwaitRoom(script, k);
        ExtendsTwice(old(delivered), before, delivered);
        var full := IsFull();
        if full {
          if ends != 2 {
            return WriteBroken(n), Broken(pending);
          }
          return WriteWaits(n), pending;
        }
        OneMore(old(accepted), data, n);
        PutOne(data[n]);
        n := n + 1;
        if k < |script| {
          before := delivered;
          Others(script[k]);
          ExtendsTwice(old(delivered), before, delivered);
          k := k + 1;
        }
      }
      return WriteDone(n), pending;
    }

    method IsFull() returns (full: bool)
      requires Valid()
      ensures full == Full(St().ring)
    {
      return (head - tail) % PAGE_SIZE == PAGE_SIZE - 1;
    }

    // The writer's wait for room: over when there is some or an end is closed.
    method AwaitRoom(script: seq<seq<Step>>, at: nat) returns (k: nat)
      requires Valid() && at <= |script| && forall i :: 0 <= i < |script| ==> ReaderSteps(script[i])
      modifies this, buf
      ensures Valid() && at <= k <= |script| && accepted == old(accepted) && Extends(old(delivered), delivered)
      ensures Full(St().ring) ==> ends != 2 || k == |script|
    {
      hide Fifo, Full;
      k := at;
      var full := IsFull();
      while full && ends == 2 && k < |script|
        invariant at <= k <= |script| && Valid() && accepted == old(accepted) && Extends(old(delivered), delivered)
        invariant full == Full(St().ring)
        decreases |script| - k
      {
        Others(script[k]);
        k := k + 1;
        full := IsFull();
      }
    }
  }
}
