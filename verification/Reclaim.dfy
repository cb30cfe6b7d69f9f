/** When the reclaimer is invisible over whole runs: zero pages and text pages that are
    dropped, pages that go to swap with other tasks running in the window, and the
    copy-on-write fallback. */
module Reclaim {
  import opened Layout
  import opened PageEntry
  import opened Executable
  import opened FrameRefs
  import opened Paging
  import opened CopyOnWrite
  import opened SwapWindow

  // ---------------------------------------------------------------------
  // Dropping pages
  // ---------------------------------------------------------------------

  // Every text page is what the executable says it is.
  ghost predicate TextClean(a: Memories) {
    forall k: nat, i: nat :: Has(a, k, i) && IsCleanText(a[k].value.exe, PageAddress(i)) ==>
      a[k].value.pages[i] == Backing(a[k].value.exe, i)
  }

  // What is asked of every operation for the reclaimer to be invisible, each of it known
  // before the operation: a store stays out of text (the pages are mapped writable, so
  // nothing stops one), a zero page is only dropped where a fault brings zeros back, and the
  // writes to swap that are under way are minded.
  predicate Honest(s: State, op: Op)
    requires Enabled(s, op)
  {
    && MindsFlights(s, op)
    && match op
       case Store(k, i, _, _) => !IsCleanText(s.spaces[k].value.exe, PageAddress(i))
       case DropZero(k, i) => Backing(s.spaces[k].value.exe, i) == ZeroPage()
       case _ => true
  }

  predicate HonestRun(s: State, ops: seq<Op>)
    requires Legal(s, ops)
    decreases |ops|
  {
    ops == [] || (Honest(s, ops[0]) && HonestRun(Apply(s, ops[0]), ops[1..]))
  }

  lemma TextStaysClean(s: State, a: Memories, op: Op)
    requires SameProcesses(s, a) && TextClean(a) && Enabled(s, op) && Honest(s, op)
    ensures TextClean(AbsStep(a, op))
  {
    var b := AbsStep(a, op);
    forall k: nat, i: nat | Has(b, k, i) && IsCleanText(b[k].value.exe, PageAddress(i))
      ensures b[k].value.pages[i] == Backing(b[k].value.exe, i)
    {
      if !(op.NewSpace? && op.k == k) {
        assert Has(a, k, i) && a[k].value.exe == b[k].value.exe;
        if op.ShareEntry? && op.c == k && op.i == i && Has(a, op.p, i) {
          assert a[op.p].value.exe == a[k].value.exe;
        }
      }
    }
  }

  lemma HonestIsFaithful(s: State, a: Memories, op: Op)
    requires Inv(s) && Refines(s, a) && TextClean(a) && FlightsCurrent(s) && Enabled(s, op) && Honest(s, op)
    ensures Faithful(s, op)
  {
  }

  // However many swap-outs are under way at once, none of them ends over a missed store.
  lemma {:induction false} HonestRunIsFaithful(s: State, a: Memories, ops: seq<Op>)
    requires Inv(s) && Refines(s, a) && TextClean(a) && FlightsCurrent(s) && Legal(s, ops) && HonestRun(s, ops)
    ensures FaithfulRun(s, ops) && FlightsCurrent(Run(s, ops)) && TextClean(AbsRun(a, ops))
    decreases |ops|
  {
    if ops != [] {
      HonestIsFaithful(s, a, ops[0]);
      TextStaysClean(s, a, ops[0]);
      StepKeepsCurrent(s, ops[0]);
      StepRefines(s, ops[0], a);
      hide Inv, Enabled, Apply, Refines, TextClean, FlightsCurrent, Faithful, Honest;
      HonestRunIsFaithful(Apply(s, ops[0]), AbsStep(a, ops[0]), ops[1..]);
    }
  }

  /** Reclaim is invisible.  Over every run from boot in which programs do not store to their
      text or to a sector of a page that is already on its way out, zero pages are dropped
      only where zeros come back, and no page is put back into the frame it is being written
      from unless what has been sent is the page, dropping and swapping, with any number of
      swap-outs under way at once, change nothing a process can read. */
  lemma ReclaimIsInvisible(s: State, ops: seq<Op>, k: nat, i: nat, off: nat)
    requires Boot(s) && Legal(s, ops) && HonestRun(s, ops)
    requires PresentAt(Run(s, ops), k, i) && off < PAGE_SIZE
    ensures Has(AbsRun(NoMemories(), ops), k, i)
    ensures Load(Run(s, ops), k, i, off) == AbsRun(NoMemories(), ops)[k].value.pages[i][off]
  {
    BootInv(s);
    HonestRunIsFaithful(s, NoMemories(), ops);
    LoadsSeePrivateMemory(s, ops, k, i, off);
  }

  // A state from which honest runs reclaim invisibly.
  ghost predicate Settled(s: State) {
    Inv(s) && FlightsCurrent(s) && TextClean(ViewOf(s))
  }

  lemma SettledRunIsFaithful(s: State, ops: seq<Op>)
    requires Settled(s) && Legal(s, ops) && HonestRun(s, ops)
    ensures FaithfulRun(s, ops)
  {
    HonestRunIsFaithful(s, ViewOf(s), ops);
  }

  // Every state an honest run from boot leads to is one.
  lemma SettledFromBoot(s: State, ops: seq<Op>)
    requires Boot(s) && Legal(s, ops) && HonestRun(s, ops)
    ensures Settled(Run(s, ops))
  {
    BootInv(s);
    HonestRunIsFaithful(s, NoMemories(), ops);
    RunRefines(s, ops, NoMemories());
    SameText(Run(s, ops), AbsRun(NoMemories(), ops), ViewOf(Run(s, ops)));
  }

  // Two abstract machines refined by one state agree on text.
  lemma SameText(s: State, a: Memories, b: Memories)
    requires Inv(s) && Refines(s, a) && Refines(s, b) && TextClean(a)
    ensures TextClean(b)
  {
    forall k: nat, i: nat | Has(b, k, i) && IsCleanText(b[k].value.exe, PageAddress(i))
      ensures b[k].value.pages[i] == Backing(b[k].value.exe, i)
    {
      assert Has(a, k, i);
      ValidIsInBounds(s, k, i);
    }
  }

  // ---------------------------------------------------------------------
  // What is not honest
  // ---------------------------------------------------------------------

  // Pass 0 asks only whether the page is zero: a page of data that its program has zeroed comes
  // back with the file's bytes.
  lemma ZeroedPageReturns(s: State, k: nat, i: nat)
    requires Inv(s) && Enabled(s, DropZero(k, i))
    ensures InBounds(Apply(s, DropZero(k, i)), k, i)
    ensures PageAt(Apply(s, DropZero(k, i)), k, i) == Backing(s.spaces[k].value.exe, i)
    ensures SameView(s, Apply(s, DropZero(k, i))) <==> Honest(s, DropZero(k, i))
  {
    DropInvisibleIff(s, k, i);
  }

  // Text is mapped writable: a store to it is gone when the page is dropped.
  lemma StoredTextReturns(s: State, k: nat, i: nat, off: nat, b: Byte)
    requires Inv(s) && CanStore(s, k, i, off) && IsCleanText(s.spaces[k].value.exe, PageAddress(i))
    ensures var t := StoreOf(s, k, i, off, b);
            && Enabled(t, DropText(k, i)) && InBounds(Apply(t, DropText(k, i)), k, i)
            && PageAt(Apply(t, DropText(k, i)), k, i)[off] == Backing(s.spaces[k].value.exe, i)[off]
  {
  }

  // ---------------------------------------------------------------------
  // The image
  // ---------------------------------------------------------------------

  // The task slots whose page i has been stored to, by themselves or before a fork.
  function Touched(t: set<nat>, op: Op, i: nat): set<nat> {
    match op
    case NewSpace(k, _, _, _) => t - {k}
    case DropSpace(k) => t - {k}
    case ShareEntry(p, c, j) => if j != i then t else if p in t then t + {c} else t - {c}
    case Store(k, j, _, _) => if j == i then t + {k} else t
    case _ => t
  }

  function TouchedBy(t: set<nat>, ops: seq<Op>, i: nat): set<nat>
    decreases |ops|
  {
    if ops == [] then t else TouchedBy(Touched(t, ops[0], i), ops[1..], i)
  }

  // The others have it as the executable says.
  ghost predicate UntouchedIsBacked(a: Memories, t: set<nat>, i: nat) {
    forall k: nat :: Has(a, k, i) && k !in t ==> a[k].value.pages[i] == Backing(a[k].value.exe, i)
  }

  lemma StaysBacked(s: State, a: Memories, op: Op, t: set<nat>, i: nat)
    requires SameProcesses(s, a) && Enabled(s, op) && UntouchedIsBacked(a, t, i)
    ensures UntouchedIsBacked(AbsStep(a, op), Touched(t, op, i), i)
  {
    var b := AbsStep(a, op);
    forall k: nat | Has(b, k, i) && k !in Touched(t, op, i)
      ensures b[k].value.pages[i] == Backing(b[k].value.exe, i)
    {
      if !(op.NewSpace? && op.k == k) {
        assert Has(a, k, i) && a[k].value.exe == b[k].value.exe;
        if op.ShareEntry? && op.c == k && op.i == i && Has(a, op.p, i) {
          assert a[op.p].value.exe == a[k].value.exe;
        }
      }
    }
  }

  lemma {:induction false} RunStaysBacked(s: State, a: Memories, ops: seq<Op>, t: set<nat>, i: nat)
    requires Inv(s) && Refines(s, a) && Legal(s, ops) && FaithfulRun(s, ops) && UntouchedIsBacked(a, t, i)
    ensures UntouchedIsBacked(AbsRun(a, ops), TouchedBy(t, ops, i), i)
    decreases |ops|
  {
    if ops != [] {
      StaysBacked(s, a, ops[0], t, i);
      StepRefines(s, ops[0], a);
      hide Inv, Enabled, Apply, Refines, UntouchedIsBacked, Faithful, Touched;
      RunStaysBacked(Apply(s, ops[0]), AbsStep(a, ops[0]), ops[1..], Touched(t, ops[0], i), i);
    }
  }

  /** The image is what the file says.  Over every honest run from boot, with its faults, drops,
      swaps and forks in any order, a load from an address of a segment, in a page nobody has
      stored to since its program was loaded, finds the byte the ELF specification puts there. */
  lemma ImageIsLoaded(s: State, ops: seq<Op>, k: nat, headers: seq<Segment>, file: seq<Byte>, n: nat, addr: nat)
    requires Boot(s) && Legal(s, ops) && HonestRun(s, ops)
    requires ValidHeaders(headers, file) && RegionsOf(headers, HeaderCount(headers)).Some?
    requires n < HeaderCount(headers) && Loadable(headers[n])
    requires headers[n].vaddr <= addr < headers[n].vaddr + headers[n].memsz
    requires USER_PROG_START <= addr < USER_PROG_END
    requires PresentAt(Run(s, ops), k, PageIndex(addr)) && k !in TouchedBy({}, ops, PageIndex(addr))
    requires Run(s, ops).spaces[k].value.exe == Exe(RegionsOf(headers, HeaderCount(headers)).value, file)
    ensures Load(Run(s, ops), k, PageIndex(addr), addr % PAGE_SIZE) == SegmentByte(headers[n], file, addr)
  {
    var i, t := PageIndex(addr), Run(s, ops);
    BootInv(s);
    HonestRunIsFaithful(s, NoMemories(), ops);
    RunRefines(s, ops, NoMemories());
    RunStaysBacked(s, NoMemories(), ops, {}, i);
    hide Inv, HonestRun, Legal, Run, FaithfulRun, TouchedBy, AbsRun;
    assert Has(AbsRun(NoMemories(), ops), k, i);
    assert PageAt(t, k, i) == Backing(t.spaces[k].value.exe, i);
    LazyEqualsEager(headers, file, n, addr);
    InPage(addr);
  }

  function PageIndex(addr: nat): nat {
    if addr < USER_BASE then 0 else (addr - USER_BASE) / PAGE_SIZE
  }

  lemma InPage(addr: nat)
    requires USER_PROG_START <= addr < USER_PROG_END
    ensures PageAddress(PageIndex(addr)) == PageBase(addr) && addr - PageBase(addr) == addr % PAGE_SIZE
    ensures PageBase(addr) < USER_PROG_END
  {
  }

  // ---------------------------------------------------------------------
  // An execve that fails
  // ---------------------------------------------------------------------

  // sys_execve refills the region table of the running image before it knows that it will succeed:
  // when it fails the old file is read through the new regions.
  function WithRegions(s: State, k: nat, regions: seq<Region>): State
    requires k < |s.spaces| && s.spaces[k].Some?
  {
    var sp := s.spaces[k].value;
    s.(spaces := s.spaces[k := Some(sp.(exe := Exe(regions, sp.exe.file)))])
  }

  /** Having failed after any number of headers, it leaves the old image as it was if and only if
      every page of it that is not in memory gets the same bytes through the new regions. */
  lemma FailedExecveKeepsImageIff(s: State, k: nat, headers: seq<Segment>, n: nat)
    requires Inv(s) && k < |s.spaces| && s.spaces[k].Some? && n <= |headers| && RegionsOf(headers, n).Some?
    ensures var exe, t := s.spaces[k].value.exe, WithRegions(s, k, RegionsOf(headers, n).value);
            (forall l: nat, i: nat :: InBounds(s, l, i) ==>
              InBounds(t, l, i) && PageAt(t, l, i) == PageAt(s, l, i)) <==>
            (forall i: nat :: InBounds(s, k, i) && Entry(s, k, i).Empty? && PageAddress(i) < USER_PROG_END ==>
               PageIn(Exe(RegionsOf(headers, n).value, exe.file), PageAddress(i)) == PageIn(exe, PageAddress(i)))
  {
  }

  // Before the first header a page that is not in memory reads as zeros.
  lemma FailedExecveZeroes(s: State, k: nat, i: nat)
    requires Inv(s) && InBounds(s, k, i) && Entry(s, k, i).Empty?
    ensures InBounds(WithRegions(s, k, []), k, i) && PageAt(WithRegions(s, k, []), k, i) == ZeroPage()
  {
  }

  // ---------------------------------------------------------------------
  // The copy-on-write fallback
  // ---------------------------------------------------------------------

  // try_to_free_page when nothing else is left: the entry goes, the count stays.
  function DropShare(s: State, k: nat, i: nat): State
    requires PresentAt(s, k, i) && Entry(s, k, i).cow
  {
    s.(spaces := SetEntry(s.spaces, k, i, Empty))
  }

  /** The fallback always breaks the accounting: the frame's count is one more than its
      references from then on.  It is invisible exactly when the shared page equals what
      a fault would bring back. */
  lemma FallbackLeaks(s: State, k: nat, i: nat)
    requires Inv(s) && PresentAt(s, k, i) && Entry(s, k, i).cow
    ensures var t := DropShare(s, k, i);
            var f := Entry(s, k, i).frame;
            && t.count[f] == Refs(t.spaces, Frame(f)) + Owners(t, f) + 1
            && !Inv(t)
    ensures SameView(s, DropShare(s, k, i)) <==>
            s.data[Entry(s, k, i).frame] == Backing(s.spaces[k].value.exe, i)
  {
    var t := DropShare(s, k, i);
    var f := Entry(s, k, i).frame;
    assert FrameBalanced(s, f);
    NamedIsCounted(s.spaces, k, i, Frame(f));
    SetEntryRefs(s.spaces, k, i, Empty, Frame(f));
    SetEntryTables(s.spaces, k, i, Empty, f);
    assert !FrameBalanced(t, f);
    assert PageAt(t, k, i) == Backing(s.spaces[k].value.exe, i);
    assert PageAt(s, k, i) == s.data[f];
    assert SamePagesBut(s, t, k, i);
  }

  // ---------------------------------------------------------------------
  // Fork
  // ---------------------------------------------------------------------

  // While the pages of p are being shared with c, neither stores and neither goes away.
  predicate ForkQuiet(op: Op, p: nat, c: nat) {
    match op
    case Store(l, _, _, _) => l != p && l != c
    case ShareEntry(q, d, _) => d != p && (d == c ==> q == p)
    case NewSpace(l, _, _, _) => l != p && l != c
    case DropSpace(l) => l != p && l != c
    case _ => true
  }

  /** Fork is a copy: once every entry has had its turn, whatever other tasks did in
      between, the child's memory is the parent's. */
  lemma {:induction false} ForkCopies(a: Memories, ops: seq<Op>, p: nat, c: nat, i: nat)
    requires p != c && Has(a, p, i) && Has(a, c, i)
    requires forall n :: 0 <= n < |ops| ==> ForkQuiet(ops[n], p, c)
    ensures Has(AbsRun(a, ops), p, i) && Has(AbsRun(a, ops), c, i)
    ensures AbsRun(a, ops)[p].value.pages[i] == a[p].value.pages[i]
    ensures ShareEntry(p, c, i) in ops || a[c].value.pages[i] == a[p].value.pages[i] ==>
              AbsRun(a, ops)[c].value.pages[i] == a[p].value.pages[i]
    decreases |ops|
  {
    if ops != [] {
      ForkCopies(AbsStep(a, ops[0]), ops[1..], p, c, i);
    }
  }
}
