/** The window of a swap-out: the driver sends the frame sector by sector, other tasks run
    before each of them, and then the entry is looked at again.  When the copy is right at the
    end, and exactly what is lost when it is not. */
module SwapWindow {
  import opened Layout
  import opened PageEntry
  import opened Executable
  import opened FrameRefs
  import opened Paging
  import opened CopyOnWrite

  // ---------------------------------------------------------------------
  // The view of a state as an abstract machine state
  // ---------------------------------------------------------------------

  ghost function PagesOf(s: State, k: nat): (r: seq<Page>)
    requires Inv(s) && k < |s.spaces| && s.spaces[k].Some?
    ensures |r| == PT_ENTRIES
    ensures forall i: nat :: InBounds(s, k, i) && i < PT_ENTRIES ==> r[i] == PageAt(s, k, i)
  {
    seq(PT_ENTRIES, i requires 0 <= i < PT_ENTRIES =>
      ValidIsInBounds(s, k, i);
      PageAt(s, k, i))
  }

  ghost function ViewOf(s: State): (a: Memories)
    requires Inv(s)
    ensures Refines(s, a)
  {
    seq(|s.spaces|, k requires 0 <= k < |s.spaces| =>
      if s.spaces[k].None? then None else Some(Proc(s.spaces[k].value.exe, PagesOf(s, k))))
  }

  // ---------------------------------------------------------------------
  // The window of a swap-out
  // ---------------------------------------------------------------------

  // The operation does not change what page (k, i) holds on anybody's behalf.
  predicate SparesPage(op: Op, k: nat, i: nat) {
    match op
    case Store(l, j, _, _) => l != k || j != i
    case ShareEntry(_, c, j) => c != k || j != i
    case NewSpace(l, _, _, _) => l != k
    case DropSpace(l) => l != k
    case _ => true
  }

  predicate AllSparePage(ops: seq<Op>, k: nat, i: nat) {
    forall n :: 0 <= n < |ops| ==> SparesPage(ops[n], k, i)
  }

  // The operation does not finish or cancel the write to slot z.
  predicate SparesSlot(op: Op, z: nat) {
    op != EndSwap(z) && op != CancelSwap(z)
  }

  predicate AllSpareSlot(ops: seq<Op>, z: nat) {
    forall n :: 0 <= n < |ops| ==> SparesSlot(ops[n], z)
  }

  // Only sending a sector of it changes a write under way and what it has written.
  lemma SlotKept(s: State, op: Op, z: nat)
    requires Enabled(s, op) && SparesSlot(op, z)
    requires z in s.flights && z < |s.swapData|
    ensures var t := Apply(s, op);
            && z in t.flights && |t.swapData| == |s.swapData|
            && (op != SendSector(z) ==> t.flights[z] == s.flights[z] && t.swapData[z] == s.swapData[z])
  {
    if SwapOp(op) {
      hide SetEntry, StillThere;
    } else {
      hide Apply;
      OnlySwapsFly(s, op);
    }
  }

  // Neither the writes under way nor the contents of swap have changed.
  predicate SameSwap(s: State, t: State) {
    t.flights == s.flights && t.swapData == s.swapData
  }

  predicate SwapOp(op: Op) {
    op.BeginSwap? || op.SendSector? || op.EndSwap? || op.CancelSwap?
  }

  lemma OnlySwapsFly(s: State, op: Op)
    requires Enabled(s, op) && !SwapOp(op)
    ensures SameSwap(s, Apply(s, op))
  {
    match op
    case DropSpace(k) => DropSpaceSwap(s, k);
    case MapFresh(k, i, f) => MapFreshSwap(s, k, i, f);
    case SwapIn(k, i, f) => SwapInSwap(s, k, i, f);
    case BreakCow(k, i, f) => BreakCowSwap(s, k, i, f);
    case ShareEntry(p, c, i) => ShareEntrySwap(s, p, c, i);
    case Store(k, i, off, b) => StoreSwap(s, k, i, off, b);
    case _ =>
  }

  lemma DropSpaceSwap(s: State, k: nat)
    requires CanDropSpace(s, k)
    ensures SameSwap(s, DropSpaceOf(s, k))
  {
  }

  lemma MapFreshSwap(s: State, k: nat, i: nat, f: nat)
    requires CanMapFresh(s, k, i, f)
    ensures SameSwap(s, MapFreshOf(s, k, i, f))
  {
  }

  lemma SwapInSwap(s: State, k: nat, i: nat, f: nat)
    requires CanSwapIn(s, k, i, f)
    ensures SameSwap(s, SwapInOf(s, k, i, f))
  {
  }

  lemma BreakCowSwap(s: State, k: nat, i: nat, f: nat)
    requires CanBreakCow(s, k, i, f)
    ensures SameSwap(s, BreakCowOf(s, k, i, f))
  {
  }

  lemma ShareEntrySwap(s: State, p: nat, c: nat, i: nat)
    requires CanShareEntry(s, p, c, i)
    ensures SameSwap(s, ShareEntryOf(s, p, c, i))
  {
  }

  lemma StoreSwap(s: State, k: nat, i: nat, off: nat, b: Byte)
    requires CanStore(s, k, i, off)
    ensures SameSwap(s, StoreOf(s, k, i, off, b))
  {
  }

  lemma {:induction false} AbsPageKept(a: Memories, ops: seq<Op>, k: nat, i: nat)
    requires Has(a, k, i) && AllSparePage(ops, k, i)
    ensures Has(AbsRun(a, ops), k, i) && AbsRun(a, ops)[k].value.pages[i] == a[k].value.pages[i]
    decreases |ops|
  {
    if ops != [] {
      AbsPageKept(AbsStep(a, ops[0]), ops[1..], k, i);
    }
  }

  // Faults, copies and faithful reclaim leave a page as it was.
  lemma PageKept(s: State, ops: seq<Op>, k: nat, i: nat)
    requires Inv(s) && InBounds(s, k, i) && Legal(s, ops) && FaithfulRun(s, ops) && AllSparePage(ops, k, i)
    ensures Inv(Run(s, ops))
    ensures InBounds(Run(s, ops), k, i) ==> PageAt(Run(s, ops), k, i) == PageAt(s, k, i)
  {
    var a := ViewOf(s);
    RunRefines(s, ops, a);
    AbsPageKept(a, ops, k, i);
  }

  // ---------------------------------------------------------------------
  // Copies that are current
  // ---------------------------------------------------------------------

  // The entry the swap-out is for maps its frame, unshared, in the same page directory.
  predicate Holding(s: State, fl: Flight) {
    && PrivateAt(s, fl.k, fl.i) && fl.pte.Present? && Entry(s, fl.k, fl.i).frame == fl.pte.frame
    && s.spaces[fl.k].value.dir == fl.dir
  }

  // The sectors sent are those of the page.
  predicate SentIs(slot: Page, page: Page, sent: nat) {
    forall o :: 0 <= o < PAGE_SIZE && o < sent * SECTOR ==> slot[o] == page[o]
  }

  // As long as the entry maps the frame, what has been sent is right.
  ghost predicate Current(s: State, z: nat) {
    && z in s.flights && z < |s.swapData|
    && var fl := s.flights[z];
       Holding(s, fl) ==> SentIs(s.swapData[z], PageAt(s, fl.k, fl.i), fl.sent)
  }

  ghost predicate FlightsCurrent(s: State) {
    forall z :: z in s.flights ==> Current(s, z)
  }

  // The operation puts page (k, i) into frame f.
  predicate PutsInto(op: Op, k: nat, i: nat, f: nat) {
    op == MapFresh(k, i, f) || op == SwapIn(k, i, f) || op == BreakCow(k, i, f)
  }

  // What is asked of an operation while the write to slot z is under way: a store through the
  // frame does not come after its sector has been sent, and the page is not put back into the
  // frame unless what has been sent is the page.
  predicate MindsFlight(s: State, op: Op, z: nat)
    requires z in s.flights
  {
    var fl := s.flights[z];
    && (op.Store? && op.k == fl.k && op.i == fl.i && Holding(s, fl) ==> op.off >= fl.sent * SECTOR)
    && (fl.pte.Present? && PutsInto(op, fl.k, fl.i, fl.pte.frame) && InBounds(s, fl.k, fl.i) &&
        s.spaces[fl.k].value.dir == fl.dir && z < |s.swapData| ==>
          SentIs(s.swapData[z], PageAt(s, fl.k, fl.i), fl.sent))
  }

  predicate MindsFlights(s: State, op: Op) {
    forall z :: z in s.flights ==> MindsFlight(s, op, z)
  }

  // Entry (k, i) of the space with directory d maps frame f.
  predicate MappedAt(s: State, k: nat, i: nat, f: nat, d: nat) {
    PresentAt(s, k, i) && Entry(s, k, i).frame == f && s.spaces[k].value.dir == d
  }

  predicate HeldAt(s: State, k: nat, i: nat, f: nat, d: nat) {
    MappedAt(s, k, i, f, d) && !Entry(s, k, i).cow
  }

  lemma DropSpaceWasHeld(s: State, l: nat, k: nat, i: nat, f: nat, d: nat)
    requires CanDropSpace(s, l) && HeldAt(DropSpaceOf(s, l), k, i, f, d)
    ensures HeldAt(s, k, i, f, d)
  {
  }

  lemma FillWasHeld(s: State, op: Op, k: nat, i: nat, f: nat, d: nat)
    requires op.MapFresh? || op.SwapIn? || op.BreakCow?
    requires Enabled(s, op) && HeldAt(Apply(s, op), k, i, f, d) && !PutsInto(op, k, i, f)
    ensures HeldAt(s, k, i, f, d)
  {
    hide Backing, FreeFrame;
  }

  lemma ShareWasHeld(s: State, p: nat, c: nat, j: nat, k: nat, i: nat, f: nat, d: nat)
    requires CanShareEntry(s, p, c, j) && HeldAt(ShareEntryOf(s, p, c, j), k, i, f, d)
    ensures HeldAt(s, k, i, f, d)
  {
  }

  lemma EndSwapWasHeld(s: State, z: nat, k: nat, i: nat, f: nat, d: nat)
    requires CanEndSwap(s, z) && HeldAt(EndSwapOf(s, z), k, i, f, d)
    ensures HeldAt(s, k, i, f, d)
  {
  }

  lemma FlagsWasHeld(s: State, op: Op, k: nat, i: nat, f: nat, d: nat)
    requires op.Touch? || op.Store? || op.ClearAccessed? || op.DropZero? || op.DropText?
    requires Enabled(s, op) && HeldAt(Apply(s, op), k, i, f, d)
    ensures HeldAt(s, k, i, f, d)
  {
    hide FreeFrame, IsCleanText, ZeroPage;
  }

  lemma NewSpaceWasHeld(s: State, op: Op, k: nat, i: nat, f: nat, d: nat)
    requires op.NewSpace? && Enabled(s, op) && HeldAt(Apply(s, op), k, i, f, d)
    ensures HeldAt(s, k, i, f, d)
  {
  }

  lemma PlainWasHeld(s: State, op: Op, k: nat, i: nat, f: nat, d: nat)
    requires op.Alloc? || op.Release? || op.BeginSwap? || op.SendSector? || op.CancelSwap?
    requires Enabled(s, op) && HeldAt(Apply(s, op), k, i, f, d)
    ensures HeldAt(s, k, i, f, d)
  {
    hide FreeFrame, ZeroPage, CopySector;
  }

  lemma UnmapsWasHeld(s: State, op: Op, k: nat, i: nat, f: nat, d: nat)
    requires op.DropSpace? || op.ShareEntry? || op.EndSwap?
    requires Enabled(s, op) && HeldAt(Apply(s, op), k, i, f, d)
    ensures HeldAt(s, k, i, f, d)
  {
    match op
    case DropSpace(l) => DropSpaceWasHeld(s, l, k, i, f, d);
    case ShareEntry(p, c, j) => ShareWasHeld(s, p, c, j, k, i, f, d);
    case EndSwap(z) => EndSwapWasHeld(s, z, k, i, f, d);
  }

  // A page mapped unshared was so before, or has just been put there.
  lemma WasHeld(s: State, op: Op, k: nat, i: nat, f: nat, d: nat)
    requires Enabled(s, op) && HeldAt(Apply(s, op), k, i, f, d) && !PutsInto(op, k, i, f)
    ensures HeldAt(s, k, i, f, d)
  {
    hide Apply, Enabled, HeldAt;
    if op.DropSpace? || op.ShareEntry? || op.EndSwap? {
      UnmapsWasHeld(s, op, k, i, f, d);
    } else if op.MapFresh? || op.SwapIn? || op.BreakCow? {
      FillWasHeld(s, op, k, i, f, d);
    } else if op.Touch? || op.Store? || op.ClearAccessed? || op.DropZero? || op.DropText? {
      FlagsWasHeld(s, op, k, i, f, d);
    } else if op.NewSpace? {
      NewSpaceWasHeld(s, op, k, i, f, d);
    } else {
      PlainWasHeld(s, op, k, i, f, d);
    }
  }

  // What a page holds changes through stores alone, as long as it stays where it is.
  lemma HeldPageKept(s: State, op: Op, k: nat, i: nat)
    requires Inv(s) && Enabled(s, op) && Faithful(s, op) && InBounds(s, k, i) && InBounds(Apply(s, op), k, i)
    requires SparesPage(op, k, i)
    ensures PageAt(Apply(s, op), k, i) == PageAt(s, k, i)
  {
    var a := ViewOf(s);
    StepRefines(s, op, a);
    hide Apply, Enabled, Faithful;
    HasPage(s, a, k, i);
    HasPage(Apply(s, op), AbsStep(a, op), k, i);
  }

  lemma HasPage(s: State, a: Memories, k: nat, i: nat)
    requires Inv(s) && Refines(s, a) && InBounds(s, k, i)
    ensures Has(a, k, i) && PageAt(s, k, i) == a[k].value.pages[i]
  {
  }

  // An operation on the whole space leaves no page held.
  lemma HeldIsSpared(s: State, op: Op, k: nat, i: nat, f: nat, d: nat)
    requires Enabled(s, op) && HeldAt(s, k, i, f, d) && HeldAt(Apply(s, op), k, i, f, d)
    ensures SparesPage(op, k, i) || StoresTo(op, k, i)
  {
  }

  predicate StoresTo(op: Op, k: nat, i: nat) {
    op.Store? && op.k == k && op.i == i
  }

  // A store to a sector that is still to be sent leaves those sent right.
  lemma StoreStaysCurrent(s: State, z: nat, off: nat, b: Byte)
    requires Inv(s) && Current(s, z) && CanStore(s, s.flights[z].k, s.flights[z].i, off)
    requires MindsFlight(s, Store(s.flights[z].k, s.flights[z].i, off, b), z)
    ensures Current(StoreOf(s, s.flights[z].k, s.flights[z].i, off, b), z)
  {
  }

  lemma SendStaysCurrent(s: State, z: nat)
    requires Inv(s) && Current(s, z) && CanSendSector(s, z)
    ensures Current(SendSectorOf(s, z), z)
  {
  }

  // A swap-out begun now is current: nothing has been sent.
  lemma BeginsCurrent(s: State, k: nat, i: nat, z: nat)
    requires Inv(s) && CanBeginSwap(s, k, i, z)
    ensures Current(BeginSwapOf(s, k, i, z), z)
  {
  }

  // Flights are opened by BeginSwap alone.
  lemma FlightWasOpen(s: State, op: Op, z: nat)
    requires Enabled(s, op) && z in Apply(s, op).flights
    ensures z in s.flights || (op.BeginSwap? && op.z == z)
    ensures z in s.flights ==> SparesSlot(op, z)
  {
    if !SwapOp(op) {
      OnlySwapsFly(s, op);
    }
  }

  // Any other operation.
  lemma OtherStaysCurrent(s: State, op: Op, z: nat)
    requires Inv(s) && Enabled(s, op) && Faithful(s, op) && z in s.flights && SparesSlot(op, z)
    requires Current(s, z) && MindsFlight(s, op, z) && op != SendSector(z)
    requires !StoresTo(op, s.flights[z].k, s.flights[z].i)
    ensures Current(Apply(s, op), z)
  {
    SlotKept(s, op, z);
    var fl, t := s.flights[z], Apply(s, op);
    hide Apply, Faithful;
    if Holding(t, fl) {
      var k, i, f, d := fl.k, fl.i, fl.pte.frame, fl.dir;
      if PutsInto(op, k, i, f) {
        PutPageKept(s, op, k, i, f);
      } else {
        WasHeld(s, op, k, i, f, d);
        HeldIsSpared(s, op, k, i, f, d);
        HeldPageKept(s, op, k, i);
      }
    }
  }

  lemma PutPageKept(s: State, op: Op, k: nat, i: nat, f: nat)
    requires Inv(s) && Enabled(s, op) && Faithful(s, op) && PutsInto(op, k, i, f) && InBounds(Apply(s, op), k, i)
    ensures InBounds(s, k, i) && PageAt(Apply(s, op), k, i) == PageAt(s, k, i)
    ensures Apply(s, op).spaces[k].value.dir == s.spaces[k].value.dir
  {
    PutKeepsDirectory(s, op, k, i, f);
    HeldPageKept(s, op, k, i);
  }

  lemma PutKeepsDirectory(s: State, op: Op, k: nat, i: nat, f: nat)
    requires Enabled(s, op) && PutsInto(op, k, i, f) && ValidAt(Apply(s, op).spaces, k, i)
    ensures InBounds(s, k, i) && Apply(s, op).spaces[k].value.dir == s.spaces[k].value.dir
  {
    hide Backing, FreeFrame;
  }

  lemma StaysCurrent(s: State, op: Op, z: nat)
    requires Inv(s) && Enabled(s, op) && Faithful(s, op) && z in Apply(s, op).flights
    requires z in s.flights ==> Current(s, z) && MindsFlight(s, op, z)
    ensures Current(Apply(s, op), z)
  {
    FlightWasOpen(s, op, z);
    if z !in s.flights {
      BeginsCurrent(s, op.k, op.i, z);
    } else if op == SendSector(z) {
      SendStaysCurrent(s, z);
    } else if StoresTo(op, s.flights[z].k, s.flights[z].i) {
      StoreStaysCurrent(s, z, op.off, op.b);
    } else {
      hide Apply, Enabled, Faithful;
      OtherStaysCurrent(s, op, z);
    }
  }

  /** However many writes are under way at once: after every operation that minds them, what each
      of them has sent is what its page holds, as long as the page is in its frame. */
  lemma StepKeepsCurrent(s: State, op: Op)
    requires Inv(s) && FlightsCurrent(s) && Enabled(s, op) && Faithful(s, op) && MindsFlights(s, op)
    ensures FlightsCurrent(Apply(s, op))
  {
    forall z | z in Apply(s, op).flights ensures Current(Apply(s, op), z) {
      StaysCurrent(s, op, z);
    }
  }

  // A current swap-out ends without a trace.
  lemma CurrentIsFaithful(s: State, z: nat)
    requires Inv(s) && CanEndSwap(s, z) && Current(s, z)
    ensures Faithful(s, EndSwap(z)) && SameView(s, EndSwapOf(s, z))
  {
    var fl := s.flights[z];
    if StillThere(s, fl) {
      assert Holding(s, fl);
      assert s.swapData[z] == s.data[fl.pte.frame];
    }
    EndSwapInvisibleIff(s, z);
  }

  // ---------------------------------------------------------------------
  // What a window with stores loses
  // ---------------------------------------------------------------------

  // The entry goes on to map the frame at every point of the run.
  predicate StaysMapped(s: State, ops: seq<Op>, k: nat, i: nat, f: nat, d: nat)
    requires Legal(s, ops)
    decreases |ops|
  {
    MappedAt(s, k, i, f, d) && (ops == [] || StaysMapped(Apply(s, ops[0]), ops[1..], k, i, f, d))
  }

  // A frame in hand or free is not the one mapped.
  lemma MappedIsNotHeld(s: State, k: nat, i: nat, f: nat, d: nat, g: nat)
    requires Inv(s) && MappedAt(s, k, i, f, d) && g < |s.count| && (g in s.kernel || s.count[g] == 0)
    ensures f != g
  {
    HeldIsUnmapped(s, g);
    assert Maps(s.spaces, k, i, f);
  }

  // How an entry that stays mapped can change: a store makes it dirty, a fork shares it.
  predicate EntryFollows(s: State, t: State, op: Op, k: nat, i: nat)
    requires ValidAt(s.spaces, k, i) && ValidAt(t.spaces, k, i)
    requires Entry(s, k, i).Present? && Entry(t, k, i).Present?
  {
    && Entry(t, k, i).dirty == (Entry(s, k, i).dirty || StoresTo(op, k, i))
    && (Entry(s, k, i).cow ==> Entry(t, k, i).cow)
  }

  lemma DropSpaceInWindow(s: State, l: nat, k: nat, i: nat, f: nat, d: nat)
    requires CanDropSpace(s, l) && MappedAt(s, k, i, f, d) && MappedAt(DropSpaceOf(s, l), k, i, f, d)
    ensures Entry(DropSpaceOf(s, l), k, i) == Entry(s, k, i)
  {
  }

  lemma EndSwapInWindow(s: State, z: nat, k: nat, i: nat, f: nat, d: nat)
    requires CanEndSwap(s, z) && MappedAt(s, k, i, f, d) && MappedAt(EndSwapOf(s, z), k, i, f, d)
    ensures Entry(EndSwapOf(s, z), k, i) == Entry(s, k, i)
  {
  }

  lemma ShareInWindow(s: State, p: nat, c: nat, j: nat, k: nat, i: nat, f: nat, d: nat)
    requires CanShareEntry(s, p, c, j) && MappedAt(s, k, i, f, d) && MappedAt(ShareEntryOf(s, p, c, j), k, i, f, d)
    ensures EntryFollows(s, ShareEntryOf(s, p, c, j), ShareEntry(p, c, j), k, i)
  {
  }

  lemma UnmapInWindow(s: State, l: nat, j: nat, k: nat, i: nat, f: nat, d: nat)
    requires PresentAt(s, l, j) && MappedAt(s, k, i, f, d) && MappedAt(Unmap(s, l, j), k, i, f, d)
    ensures Entry(Unmap(s, l, j), k, i) == Entry(s, k, i)
  {
  }

  lemma MapInWindow(s: State, op: Op, k: nat, i: nat, f: nat, d: nat)
    requires op.MapFresh? || op.SwapIn? || (op.BreakCow? && op.f != f)
    requires Enabled(s, op) && MappedAt(s, k, i, f, d) && MappedAt(Apply(s, op), k, i, f, d)
    ensures Entry(Apply(s, op), k, i) == Entry(s, k, i)
  {
  }

  lemma FlagsInWindow(s: State, op: Op, k: nat, i: nat, f: nat, d: nat)
    requires op.Touch? || op.ClearAccessed? || op.Store?
    requires Enabled(s, op) && MappedAt(s, k, i, f, d)
    ensures ValidAt(Apply(s, op).spaces, k, i) && Entry(Apply(s, op), k, i).Present?
    ensures EntryFollows(s, Apply(s, op), op, k, i)
  {
  }

  lemma OtherInWindow(s: State, op: Op, k: nat, i: nat, f: nat, d: nat)
    requires op.Alloc? || op.Release? || op.NewSpace? || op.BeginSwap? || op.SendSector? || op.CancelSwap?
    requires Enabled(s, op) && MappedAt(s, k, i, f, d)
    ensures ValidAt(Apply(s, op).spaces, k, i) && Entry(Apply(s, op), k, i) == Entry(s, k, i)
  {
  }

  lemma UnmapsInWindow(s: State, op: Op, k: nat, i: nat, f: nat, d: nat)
    requires op.DropSpace? || op.EndSwap? || op.ShareEntry? || op.DropZero? || op.DropText?
    requires Enabled(s, op) && MappedAt(s, k, i, f, d) && MappedAt(Apply(s, op), k, i, f, d)
    ensures EntryFollows(s, Apply(s, op), op, k, i)
  {
    match op
    case DropSpace(l) => DropSpaceInWindow(s, l, k, i, f, d);
    case EndSwap(z) => EndSwapInWindow(s, z, k, i, f, d);
    case ShareEntry(p, c, j) => ShareInWindow(s, p, c, j, k, i, f, d);
    case DropZero(l, j) => UnmapInWindow(s, l, j, k, i, f, d);
    case DropText(l, j) => UnmapInWindow(s, l, j, k, i, f, d);
  }

  // What one operation does to an entry it leaves mapped.
  lemma EntryInWindow(s: State, op: Op, k: nat, i: nat, f: nat, d: nat)
    requires Enabled(s, op) && MappedAt(s, k, i, f, d) && MappedAt(Apply(s, op), k, i, f, d)
    requires op.BreakCow? ==> op.f != f
    ensures EntryFollows(s, Apply(s, op), op, k, i)
  {
    hide Apply, Enabled;
    if op.MapFresh? || op.SwapIn? || op.BreakCow? {
      MapInWindow(s, op, k, i, f, d);
    } else if op.Touch? || op.ClearAccessed? || op.Store? {
      FlagsInWindow(s, op, k, i, f, d);
    } else if op.DropSpace? || op.EndSwap? || op.ShareEntry? || op.DropZero? || op.DropText? {
      UnmapsInWindow(s, op, k, i, f, d);
    } else {
      OtherInWindow(s, op, k, i, f, d);
    }
  }

  // The frame an operation writes to.
  function Written(s: State, op: Op): Option<nat>
    requires Enabled(s, op)
  {
    match op
    case Alloc(f) => Some(f)
    case MapFresh(_, _, f) => Some(f)
    case SwapIn(_, _, f) => Some(f)
    case BreakCow(_, _, f) => Some(f)
    case Store(k, i, _, _) => Some(Entry(s, k, i).frame)
    case _ => None
  }

  lemma WritersWrite(s: State, op: Op, f: nat)
    requires Enabled(s, op) && f < |s.data| && Written(s, op).Some?
    ensures |Apply(s, op).data| == |s.data|
    ensures Written(s, op) != Some(f) ==> Apply(s, op).data[f] == s.data[f]
    ensures op.Store? && Written(s, op) == Some(f) ==> Apply(s, op).data[f] == s.data[f][op.off := op.b]
  {
    hide Backing, FreeFrame, SetEntry;
  }

  lemma SwapsWriteNothing(s: State, op: Op)
    requires Enabled(s, op) && (SwapOp(op) || op.DropZero? || op.DropText?)
    ensures Apply(s, op).data == s.data
  {
  }

  lemma OthersWriteNothing(s: State, op: Op)
    requires Enabled(s, op) && Written(s, op).None?
    requires !(SwapOp(op) || op.DropZero? || op.DropText?)
    ensures Apply(s, op).data == s.data
  {
  }

  lemma OnlyWritten(s: State, op: Op, f: nat)
    requires Enabled(s, op) && f < |s.data|
    ensures |Apply(s, op).data| == |s.data|
    ensures Written(s, op) != Some(f) ==> Apply(s, op).data[f] == s.data[f]
    ensures op.Store? && Written(s, op) == Some(f) ==> Apply(s, op).data[f] == s.data[f][op.off := op.b]
  {
    hide Apply, Enabled;
    if Written(s, op).Some? {
      WritersWrite(s, op, f);
    } else if SwapOp(op) || op.DropZero? || op.DropText? {
      SwapsWriteNothing(s, op);
    } else {
      OthersWriteNothing(s, op);
    }
  }

  // ... and to its frame.
  lemma FrameInWindow(s: State, op: Op, k: nat, i: nat, f: nat, d: nat)
    requires Inv(s) && Enabled(s, op) && MappedAt(s, k, i, f, d)
    ensures op.BreakCow? ==> op.f != f
    ensures |Apply(s, op).data| == |s.data|
    ensures Apply(s, op).data[f] == if StoresTo(op, k, i) then s.data[f][op.off := op.b] else s.data[f]
  {
    OnlyWritten(s, op, f);
    hide Apply;
    match op
    case Alloc(g) => MappedIsNotHeld(s, k, i, f, d, g);
    case MapFresh(_, _, g) => MappedIsNotHeld(s, k, i, f, d, g);
    case SwapIn(_, _, g) => MappedIsNotHeld(s, k, i, f, d, g);
    case BreakCow(_, _, g) => MappedIsNotHeld(s, k, i, f, d, g);
    case Store(l, j, _, _) => if l != k || j != i { StoreElsewhere(s, k, i, f, d, l, j); }
    case _ =>
  }

  lemma StoreElsewhere(s: State, k: nat, i: nat, f: nat, d: nat, l: nat, j: nat)
    requires Inv(s) && MappedAt(s, k, i, f, d) && PresentAt(s, l, j) && Entry(s, l, j).rw && (l != k || j != i)
    ensures Entry(s, l, j).frame != f
  {
    assert Maps(s.spaces, k, i, f);
    if Maps(s.spaces, l, j, f) {
      NamedTwice(s.spaces, k, i, l, j, Frame(f));
    }
  }

  function PageStep(page: Page, op: Op, k: nat, i: nat): Page {
    if StoresTo(op, k, i) && op.off < PAGE_SIZE then page[op.off := op.b] else page
  }

  // A page after the stores to (k, i) among the operations.
  function PageAfter(page: Page, ops: seq<Op>, k: nat, i: nat): Page
    decreases |ops|
  {
    if ops == [] then page else PageAfter(PageStep(page, ops[0], k, i), ops[1..], k, i)
  }

  predicate AnyStore(ops: seq<Op>, k: nat, i: nat) {
    exists n :: 0 <= n < |ops| && StoresTo(ops[n], k, i)
  }

  lemma {:induction false} NoStoreNoChange(page: Page, ops: seq<Op>, k: nat, i: nat)
    requires !AnyStore(ops, k, i)
    ensures PageAfter(page, ops, k, i) == page
    decreases |ops|
  {
    if ops != [] {
      assert !StoresTo(ops[0], k, i);
      NoStoreNoChange(page, ops[1..], k, i);
    }
  }

  lemma {:induction false} PageAfterConcat(page: Page, a: seq<Op>, b: seq<Op>, k: nat, i: nat)
    ensures PageAfter(page, a + b, k, i) == PageAfter(PageAfter(page, a, k, i), b, k, i)
    decreases |a|
  {
    if a == [] {
      assert a + b == b;
    } else {
      assert (a + b)[1..] == a[1..] + b;
      PageAfterConcat(PageStep(page, a[0], k, i), a[1..], b, k, i);
    }
  }

  function SentStep(sent: nat, op: Op, z: nat): nat {
    if op == SendSector(z) then sent + 1 else sent
  }

  // How many sectors of slot z are sent.
  function Sends(ops: seq<Op>, z: nat): nat
    decreases |ops|
  {
    if ops == [] then 0 else SentStep(Sends(ops[1..], z), ops[0], z)
  }

  function SlotStep(slot: Page, sent: nat, page: Page, op: Op, z: nat): Page {
    if op == SendSector(z) && sent < SECTORS then CopySector(slot, page, sent) else slot
  }

  // The slot after the operations, which find its page in the frame: each sector as the page was
  // when it was sent.
  function SlotAfter(slot: Page, sent: nat, page: Page, ops: seq<Op>, k: nat, i: nat, z: nat): Page
    decreases |ops|
  {
    if ops == [] then slot
    else SlotAfter(SlotStep(slot, sent, page, ops[0], z), SentStep(sent, ops[0], z),
                   PageStep(page, ops[0], k, i), ops[1..], k, i, z)
  }

  // The flight is for (k, i) and reads frame f.
  predicate Reads(fl: Flight, k: nat, i: nat, f: nat, d: nat) {
    fl.k == k && fl.i == i && fl.dir == d && fl.pte.Present? && fl.pte.frame == f
  }

  // A window in which the entry stays mapped: stores make it dirty and reach its frame.
  lemma {:induction false} WindowRun(s: State, ops: seq<Op>, k: nat, i: nat, f: nat, d: nat)
    requires Inv(s) && Legal(s, ops) && StaysMapped(s, ops, k, i, f, d)
    ensures var t := Run(s, ops);
            && Inv(t) && MappedAt(t, k, i, f, d)
            && t.data[f] == PageAfter(s.data[f], ops, k, i)
            && Entry(t, k, i).dirty == (Entry(s, k, i).dirty || AnyStore(ops, k, i))
            && (Entry(s, k, i).cow ==> Entry(t, k, i).cow)
    decreases |ops|
  {
    if ops != [] {
      var op, u := ops[0], Apply(s, ops[0]);
      assert MappedAt(u, k, i, f, d);
      hide Enabled, Apply, PageStep;
      WindowStep(s, op, k, i, f, d);
      WindowRun(u, ops[1..], k, i, f, d);
      hide Inv, Legal, StaysMapped;
      AnyStoreFirst(ops, k, i);
      AfterFirst(s.data[f], ops, k, i);
    }
  }

  // ... and the sectors sent are taken from it.
  lemma {:induction false} SlotRun(s: State, ops: seq<Op>, k: nat, i: nat, z: nat, f: nat, d: nat)
    requires Inv(s) && Legal(s, ops) && StaysMapped(s, ops, k, i, f, d) && AllSpareSlot(ops, z)
    requires z in s.flights && z < |s.swapData| && Reads(s.flights[z], k, i, f, d)
    ensures var t := Run(s, ops);
            && f < |s.data| && z in t.flights && z < |t.swapData|
            && t.flights[z] == s.flights[z].(sent := s.flights[z].sent + Sends(ops, z))
            && t.swapData[z] == SlotAfter(s.swapData[z], s.flights[z].sent, s.data[f], ops, k, i, z)
    decreases |ops|
  {
    if ops != [] {
      var op, u := ops[0], Apply(s, ops[0]);
      assert MappedAt(u, k, i, f, d);
      hide Inv, Enabled, Apply, PageStep, SlotStep, MappedAt;
      WindowStep(s, op, k, i, f, d);
      SlotInWindow(s, op, z, k, i, f, d);
      SlotRun(u, ops[1..], k, i, z, f, d);
    }
  }

  lemma WindowStep(s: State, op: Op, k: nat, i: nat, f: nat, d: nat)
    requires Inv(s) && Enabled(s, op) && MappedAt(s, k, i, f, d) && MappedAt(Apply(s, op), k, i, f, d)
    ensures Inv(Apply(s, op)) && EntryFollows(s, Apply(s, op), op, k, i) && f < |s.data| == |Apply(s, op).data|
    ensures Apply(s, op).data[f] == PageStep(s.data[f], op, k, i)
  {
    StepKeepsInv(s, op);
    FrameInWindow(s, op, k, i, f, d);
    EntryInWindow(s, op, k, i, f, d);
    assert op.Store? ==> op.off < PAGE_SIZE;
  }

  // What one operation does to the write under way.
  lemma SlotInWindow(s: State, op: Op, z: nat, k: nat, i: nat, f: nat, d: nat)
    requires Enabled(s, op) && SparesSlot(op, z) && z in s.flights && z < |s.swapData|
    requires Reads(s.flights[z], k, i, f, d) && f < |s.data|
    ensures var t, sent := Apply(s, op), s.flights[z].sent;
            && z in t.flights && z < |t.swapData|
            && t.flights[z] == s.flights[z].(sent := SentStep(sent, op, z))
            && t.swapData[z] == SlotStep(s.swapData[z], sent, s.data[f], op, z)
  {
    SlotKept(s, op, z);
  }

  lemma AfterFirst(page: Page, ops: seq<Op>, k: nat, i: nat)
    requires ops != []
    ensures PageAfter(page, ops, k, i) == PageAfter(PageStep(page, ops[0], k, i), ops[1..], k, i)
  {
  }

  lemma AnyStoreFirst(ops: seq<Op>, k: nat, i: nat)
    requires ops != []
    ensures AnyStore(ops, k, i) <==> StoresTo(ops[0], k, i) || AnyStore(ops[1..], k, i)
  {
  }

  // The second look finds the entry as it was noted.
  predicate LooksSame(before: Pte, after: Pte)
    requires before.Present? && after.Present?
  {
    after.dirty == before.dirty && after.accessed == before.accessed && !after.cow
  }

  // The window of a swap-out of page (k, i) to slot z that keeps the page in its frame.
  ghost predicate Window(s: State, k: nat, i: nat, z: nat, ops: seq<Op>) {
    && CanBeginSwap(s, k, i, z)
    && var u := BeginSwapOf(s, k, i, z);
       && Legal(u, ops) && AllSpareSlot(ops, z) && Sends(ops, z) == SECTORS
       && StaysMapped(u, ops, k, i, Entry(s, k, i).frame, s.spaces[k].value.dir)
  }

  /** What becomes of the page, whatever is stored in the window and whatever other tasks do in
      it: what the owner stored, or, if the entry looks the same, each sector as it was when it was
      sent. */
  lemma WindowOutcome(s: State, k: nat, i: nat, z: nat, ops: seq<Op>)
    requires Inv(s) && Window(s, k, i, z, ops)
    ensures var t := Run(BeginSwapOf(s, k, i, z), ops);
            && PresentAt(t, k, i) && CanEndSwap(t, z) && InBounds(EndSwapOf(t, z), k, i)
            && PageAt(t, k, i) == PageAfter(PageAt(s, k, i), ops, k, i)
            && Entry(t, k, i).dirty == (Entry(s, k, i).dirty || AnyStore(ops, k, i))
            && PageAt(EndSwapOf(t, z), k, i) ==
               if LooksSame(Entry(s, k, i), Entry(t, k, i))
               then SlotAfter(s.swapData[z], 0, PageAt(s, k, i), ops, k, i, z) else PageAt(t, k, i)
  {
    var e := Entry(s, k, i);
    var u := BeginSwapOf(s, k, i, z);
    var t := Run(u, ops);
    BeginSwapKeepsInv(s, k, i, z);
    WindowRun(u, ops, k, i, e.frame, s.spaces[k].value.dir);
    SlotRun(u, ops, k, i, z, e.frame, s.spaces[k].value.dir);
    EndOutcome(t, z, k, i);
    SecondLook(s, k, i, t, z);
  }

  // The page after the second look: the slot's if the entry is as noted, else the frame's.
  lemma EndOutcome(t: State, z: nat, k: nat, i: nat)
    requires Inv(t) && z in t.flights && t.flights[z].k == k && t.flights[z].i == i && PresentAt(t, k, i)
    requires t.flights[z].sent == SECTORS
    ensures CanEndSwap(t, z) && InBounds(EndSwapOf(t, z), k, i)
    ensures PageAt(EndSwapOf(t, z), k, i) ==
            if StillThere(t, t.flights[z]) then t.swapData[z] else PageAt(t, k, i)
  {
  }

  lemma SecondLook(s: State, k: nat, i: nat, t: State, z: nat)
    requires Inv(s) && Inv(t) && PrivateAt(s, k, i) && PresentAt(t, k, i) && z in t.flights
    requires t.flights[z] == Flight(k, i, s.spaces[k].value.dir, Entry(s, k, i), SECTORS)
    requires Entry(t, k, i).frame == Entry(s, k, i).frame && t.spaces[k].value.dir == s.spaces[k].value.dir
    ensures StillThere(t, t.flights[z]) <==> LooksSame(Entry(s, k, i), Entry(t, k, i))
  {
  }

  // The operations before the one that sends sector m, counted from the first sent here.
  function UpTo(ops: seq<Op>, z: nat, m: nat): seq<Op>
    decreases |ops|
  {
    if ops == [] || (ops[0] == SendSector(z) && m == 0) then []
    else [ops[0]] + UpTo(ops[1..], z, if ops[0] == SendSector(z) then m - 1 else m)
  }

  /** Each byte of the slot is the byte of the page at the moment its sector was sent. */
  lemma {:induction false} SlotByte(slot: Page, sent: nat, page: Page, ops: seq<Op>, k: nat, i: nat, z: nat, off: nat)
    requires off < PAGE_SIZE && sent + Sends(ops, z) <= SECTORS
    ensures SlotAfter(slot, sent, page, ops, k, i, z)[off] ==
            if sent <= off / SECTOR < sent + Sends(ops, z)
            then PageAfter(page, UpTo(ops, z, off / SECTOR - sent), k, i)[off] else slot[off]
    decreases |ops|
  {
    if ops != [] {
      var op, m := ops[0], off / SECTOR;
      SlotByte(SlotStep(slot, sent, page, op, z), SentStep(sent, op, z), PageStep(page, op, k, i),
               ops[1..], k, i, z, off);
      if SentStep(sent, op, z) <= m {
        UpToFirst(page, ops, k, i, z, m - sent);
      }
    }
  }

  lemma UpToFirst(page: Page, ops: seq<Op>, k: nat, i: nat, z: nat, m: nat)
    requires ops != [] && (ops[0] == SendSector(z) ==> m > 0)
    ensures PageAfter(page, UpTo(ops, z, m), k, i) ==
            PageAfter(PageStep(page, ops[0], k, i),
                      UpTo(ops[1..], z, if ops[0] == SendSector(z) then m - 1 else m), k, i)
  {
  }

  lemma {:induction false} UpToCalm(page: Page, ops: seq<Op>, k: nat, i: nat, z: nat, m: nat)
    requires !AnyStore(ops, k, i)
    ensures PageAfter(page, UpTo(ops, z, m), k, i) == page
    decreases |ops|
  {
    if ops != [] && !(ops[0] == SendSector(z) && m == 0) {
      AnyStoreFirst(ops, k, i);
      UpToFirst(page, ops, k, i, z, m);
      UpToCalm(page, ops[1..], k, i, z, if ops[0] == SendSector(z) then m - 1 else m);
    }
  }

  // The byte when sector m is sent, with one store to it in the window.
  lemma {:induction false} UpToStore(page: Page, first: seq<Op>, last: seq<Op>,
                                     k: nat, i: nat, z: nat, m: nat, off: nat, b: Byte)
    requires off < PAGE_SIZE && !AnyStore(first, k, i) && !AnyStore(last, k, i)
    ensures PageAfter(page, UpTo(first + [Store(k, i, off, b)] + last, z, m), k, i)[off] ==
            if m < Sends(first, z) then page[off] else b
    decreases |first|
  {
    var ops := first + [Store(k, i, off, b)] + last;
    if first == [] {
      assert ops[0] == Store(k, i, off, b) && ops[1..] == last;
      UpToFirst(page, ops, k, i, z, m);
      UpToCalm(page[off := b], last, k, i, z, m);
    } else {
      assert ops[0] == first[0] && ops[1..] == first[1..] + [Store(k, i, off, b)] + last;
      AnyStoreFirst(first, k, i);
      if !(ops[0] == SendSector(z) && m == 0) {
        UpToFirst(page, ops, k, i, z, m);
        UpToStore(page, first[1..], last, k, i, z, if ops[0] == SendSector(z) then m - 1 else m, off, b);
      }
    }
  }

  // The byte of the slot when one store to it is made in the window.
  lemma SlotByteOfStore(slot: Page, page: Page, first: seq<Op>, last: seq<Op>,
                        k: nat, i: nat, z: nat, off: nat, b: Byte)
    requires off < PAGE_SIZE && !AnyStore(first, k, i) && !AnyStore(last, k, i)
    requires Sends(first + [Store(k, i, off, b)] + last, z) == SECTORS
    ensures SlotAfter(slot, 0, page, first + [Store(k, i, off, b)] + last, k, i, z)[off] ==
            if off / SECTOR < Sends(first, z) then page[off] else b
  {
    SlotByte(slot, 0, page, first + [Store(k, i, off, b)] + last, k, i, z, off);
    UpToStore(page, first, last, k, i, z, off / SECTOR, off, b);
  }

  lemma OneStore(page: Page, k: nat, i: nat, off: nat, b: Byte)
    requires off < PAGE_SIZE
    ensures PageAfter(page, [Store(k, i, off, b)], k, i) == page[off := b]
  {
  }

  /** One store in any such window is lost if and only if its sector had been sent before, the page
      was dirty when the swap-out began, its Accessed bit ends as it was noted, it has not been
      shared meanwhile, and the byte is a different one. */
  lemma StoreInWindow(s: State, k: nat, i: nat, z: nat, first: seq<Op>, off: nat, b: Byte, last: seq<Op>)
    requires Inv(s) && off < PAGE_SIZE && !AnyStore(first, k, i) && !AnyStore(last, k, i)
    requires Window(s, k, i, z, first + [Store(k, i, off, b)] + last)
    ensures var t := Run(BeginSwapOf(s, k, i, z), first + [Store(k, i, off, b)] + last);
            && PresentAt(t, k, i) && CanEndSwap(t, z) && InBounds(EndSwapOf(t, z), k, i)
            && (PageAt(EndSwapOf(t, z), k, i)[off] != b <==>
                && off / SECTOR < Sends(first, z) && PageAt(s, k, i)[off] != b
                && Entry(s, k, i).dirty && LooksSame(Entry(s, k, i), Entry(t, k, i)))
  {
    var page, store := PageAt(s, k, i), Store(k, i, off, b);
    var ops := first + [store] + last;
    WindowOutcome(s, k, i, z, ops);
    SlotByteOfStore(s.swapData[z], page, first, last, k, i, z, off, b);
    hide Inv, Legal, Run, StaysMapped, EndSwapOf, BeginSwapOf, Window, SlotAfter;
    assert StoresTo(ops[|first|], k, i);
    OneStore(page, k, i, off, b);
    PageAfterConcat(page, first + [store], last, k, i);
    PageAfterConcat(page, first, [store], k, i);
    NoStoreNoChange(page, first, k, i);
    NoStoreNoChange(page[off := b], last, k, i);
  }

  // The frame of a page that is not shared has a count of one.
  lemma PrivateCount(s: State, k: nat, i: nat)
    requires Inv(s) && PrivateAt(s, k, i)
    ensures s.count[Entry(s, k, i).frame] == 1
    ensures Unmap(s, k, i).count[Entry(s, k, i).frame] == 0
  {
    var f := Entry(s, k, i).frame;
    assert EntryOk(s, Entry(s, k, i));
    assert FrameBalanced(s, f);
    NamedIsCounted(s.spaces, k, i, Frame(f));
  }
}
