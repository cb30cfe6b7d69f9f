/** What each process sees.  The abstract machine gives every process a private copy
    of its pages: a fork copies them, a store changes one byte of one process, and
    faults, copy-on-write and reclaim do nothing at all.  The paging machine refines
    it. */
module CopyOnWrite {
  import opened Layout
  import opened PageEntry
  import opened Executable
  import opened FrameRefs
  import opened Paging

  // The contents of page i of address space k, wherever they are.
  function PageAt(s: State, k: nat, i: nat): Page
    requires InBounds(s, k, i)
  {
    match Entry(s, k, i)
    case Empty => Backing(s.spaces[k].value.exe, i)
    case Present(f, _, _, _, _) => s.data[f]
    case Swapped(z) => s.swapData[z]
  }

  // The byte a user load finds; the CPU faults unless the page is present.
  function Load(s: State, k: nat, i: nat, off: nat): Byte
    requires PresentAt(s, k, i) && off < PAGE_SIZE
  {
    s.data[Entry(s, k, i).frame][off]
  }

  // ---------------------------------------------------------------------
  // The abstract machine
  // ---------------------------------------------------------------------

  datatype Proc = Proc(exe: Exe, pages: seq<Page>)

  type Memories = seq<Option<Proc>>

  function InitialPages(exe: Exe): (r: seq<Page>)
    ensures |r| == PT_ENTRIES && forall i :: 0 <= i < PT_ENTRIES ==> r[i] == Backing(exe, i)
  {
    seq(PT_ENTRIES, i requires i >= 0 => Backing(exe, i))
  }

  predicate Has(a: Memories, k: nat, i: nat) {
    k < |a| && a[k].Some? && i < |a[k].value.pages|
  }

  function SetPage(a: Memories, k: nat, i: nat, p: Page): (b: Memories)
    requires Has(a, k, i)
    ensures |b| == |a|
    ensures forall l: nat, j: nat :: Has(b, l, j) <==> Has(a, l, j)
    ensures forall l: nat, j: nat :: Has(a, l, j) && Has(b, l, j) ==>
              b[l].value.pages[j] == if l == k && j == i then p else a[l].value.pages[j]
  {
    a[k := Some(a[k].value.(pages := a[k].value.pages[i := p]))]
  }

  function AbsStep(a: Memories, op: Op): Memories {
    match op
    case NewSpace(k, _, _, exe) => if k < |a| then a[k := Some(Proc(exe, InitialPages(exe)))] else a
    case DropSpace(k) => if k < |a| then a[k := None] else a
    case ShareEntry(p, c, i) =>
      if Has(a, p, i) && Has(a, c, i) then SetPage(a, c, i, a[p].value.pages[i]) else a
    case Store(k, i, off, b) =>
      if Has(a, k, i) && off < PAGE_SIZE then SetPage(a, k, i, a[k].value.pages[i][off := b]) else a
    case _ => a
  }

  function AbsRun(a: Memories, ops: seq<Op>): Memories
    decreases |ops|
  {
    if ops == [] then a else AbsRun(AbsStep(a, ops[0]), ops[1..])
  }

  // ---------------------------------------------------------------------
  // Refinement
  // ---------------------------------------------------------------------

  ghost predicate SameProcesses(s: State, a: Memories) {
    && |a| == |s.spaces|
    && forall k :: 0 <= k < |a| ==>
         && a[k].Some? == s.spaces[k].Some?
         && (a[k].Some? ==> a[k].value.exe == s.spaces[k].value.exe && |a[k].value.pages| == PT_ENTRIES)
  }

  ghost predicate Refines(s: State, a: Memories) {
    && SameProcesses(s, a)
    && forall k: nat, i: nat :: InBounds(s, k, i) && Has(a, k, i) ==> PageAt(s, k, i) == a[k].value.pages[i]
  }

  // Nothing any process can see has changed.
  ghost predicate SameView(s: State, t: State) {
    && |s.spaces| == |t.spaces|
    && (forall k :: 0 <= k < |s.spaces| ==> s.spaces[k].Some? == t.spaces[k].Some?)
    && (forall k :: 0 <= k < |s.spaces| && s.spaces[k].Some? ==>
          s.spaces[k].value.exe == t.spaces[k].value.exe)
    && (forall k: nat, i: nat :: InBounds(s, k, i) && InBounds(t, k, i) ==> PageAt(s, k, i) == PageAt(t, k, i))
  }

  lemma ValidIsInBounds(s: State, k: nat, i: nat)
    requires Inv(s) && ValidAt(s.spaces, k, i)
    ensures InBounds(s, k, i)
  {
  }

  lemma SameViewRefines(s: State, t: State, a: Memories)
    requires Inv(s) && Refines(s, a) && SameView(s, t) && Inv(t)
    ensures Refines(t, a)
  {
  }

  // The reclaimer's three ways out of memory are right exactly when the page can be
  // brought back: a dropped page must equal its backing, and a page recorded as swapped
  // must still hold what was written to its slot.
  predicate Faithful(s: State, op: Op)
    requires Enabled(s, op)
  {
    match op
    case DropZero(k, i) => Backing(s.spaces[k].value.exe, i) == ZeroPage()
    case DropText(k, i) => Backing(s.spaces[k].value.exe, i) == s.data[Entry(s, k, i).frame]
    case EndSwap(z) =>
      var fl := s.flights[z];
      StillThere(s, fl) && fl.pte.Present? ==> s.data[fl.pte.frame] == s.swapData[z]
    case _ => true
  }

  // The new view of space k, page i, and nothing else, is compared page by page.
  ghost predicate SamePagesBut(s: State, t: State, k: nat, i: nat) {
    forall l: nat, j: nat :: InBounds(s, l, j) && InBounds(t, l, j) && (l != k || j != i) ==>
      PageAt(s, l, j) == PageAt(t, l, j)
  }

  // A frame the kernel writes before mapping it is seen by nobody.
  lemma FillUnseen(s: State, f: nat, p: Page, k: nat, i: nat)
    requires Inv(s) && InHand(s, f) && InBounds(s, k, i)
    ensures InBounds(SetData(s, f, p), k, i) && PageAt(SetData(s, f, p), k, i) == PageAt(s, k, i)
  {
    HeldIsUnmapped(s, f);
    assert !Maps(s.spaces, k, i, f);
  }

  // The entries other than (k, i) show what they showed.
  lemma UnmapElsewhere(s: State, k: nat, i: nat)
    requires InBounds(s, k, i)
    ensures SamePagesBut(s, Unmap(s, k, i), k, i)
  {
  }

  lemma MapFreshView(s: State, k: nat, i: nat, f: nat)
    requires Inv(s) && CanMapFresh(s, k, i, f)
    ensures SameView(s, MapFreshOf(s, k, i, f))
  {
    var t := MapFreshOf(s, k, i, f);
    forall l: nat, j: nat | InBounds(s, l, j) && InBounds(t, l, j) ensures PageAt(s, l, j) == PageAt(t, l, j) {
      FillUnseen(s, f, Backing(s.spaces[k].value.exe, i), l, j);
    }
  }

  lemma SwapInView(s: State, k: nat, i: nat, f: nat)
    requires Inv(s) && CanSwapIn(s, k, i, f)
    ensures SameView(s, SwapInOf(s, k, i, f))
  {
    var t := SwapInOf(s, k, i, f);
    forall l: nat, j: nat | InBounds(s, l, j) && InBounds(t, l, j) ensures PageAt(s, l, j) == PageAt(t, l, j) {
      FillUnseen(s, f, s.swapData[Entry(s, k, i).slot], l, j);
    }
  }

  lemma BreakCowView(s: State, k: nat, i: nat, f: nat)
    requires Inv(s) && CanBreakCow(s, k, i, f)
    ensures SameView(s, BreakCowOf(s, k, i, f))
  {
    var t := BreakCowOf(s, k, i, f);
    forall l: nat, j: nat | InBounds(s, l, j) && InBounds(t, l, j) ensures PageAt(s, l, j) == PageAt(t, l, j) {
      FillUnseen(s, f, s.data[Entry(s, k, i).frame], l, j);
    }
  }

  lemma AllocView(s: State, f: nat)
    requires Inv(s) && Enabled(s, Alloc(f))
    ensures SameView(s, Apply(s, Alloc(f)))
  {
    var t := Apply(s, Alloc(f));
    HeldIsUnmapped(s, f);
    forall l: nat, j: nat | InBounds(s, l, j) && InBounds(t, l, j) ensures PageAt(s, l, j) == PageAt(t, l, j) {
      assert !Maps(s.spaces, l, j, f);
    }
  }

  // A slot under way belongs to nobody's page.
  lemma SendSectorView(s: State, z: nat)
    requires Inv(s) && CanSendSector(s, z)
    ensures SameView(s, SendSectorOf(s, z))
  {
    var t := SendSectorOf(s, z);
    assert SlotBalanced(s, z);
    forall l: nat, j: nat | InBounds(s, l, j) && InBounds(t, l, j) ensures PageAt(s, l, j) == PageAt(t, l, j) {
      if Entry(s, l, j) == Swapped(z) {
        NamedIsCounted(s.spaces, l, j, Slot(z));
      }
    }
  }

  lemma FlagsView(s: State, k: nat, i: nat, p: Pte)
    requires PresentAt(s, k, i) && p.Present? && p.frame == Entry(s, k, i).frame
    ensures SameView(s, SetFlags(s, k, i, p))
  {
  }

  /** Dropping a page is invisible if and only if the page equals what a fault would
      bring back: zeros for heap and stack, the file's bytes for the image. */
  lemma DropInvisibleIff(s: State, k: nat, i: nat)
    requires Inv(s) && PresentAt(s, k, i)
    ensures SameView(s, Unmap(s, k, i)) <==>
            s.data[Entry(s, k, i).frame] == Backing(s.spaces[k].value.exe, i)
  {
  }

  /** Finishing a swap-out is invisible if and only if the re-validation fails or the
      page still holds what was written to the slot. */
  lemma EndSwapInvisibleIff(s: State, z: nat)
    requires Inv(s) && CanEndSwap(s, z)
    ensures SameView(s, EndSwapOf(s, z)) <==> Faithful(s, EndSwap(z))
  {
    var t := EndSwapOf(s, z);
    var fl := s.flights[z];
    assert fl.pte.Present?;
    if StillThere(s, fl) {
      UnmapElsewhere(s, fl.k, fl.i);
      assert InBounds(t, fl.k, fl.i);
      assert PageAt(t, fl.k, fl.i) == s.swapData[z];
      assert PageAt(s, fl.k, fl.i) == s.data[fl.pte.frame];
    }
  }

  // Everything but processes appearing, forking, storing and disappearing is a stutter.
  predicate Stutters(op: Op) {
    !op.NewSpace? && !op.DropSpace? && !op.ShareEntry? && !op.Store?
  }

  lemma StutterView(s: State, op: Op)
    requires Inv(s) && Enabled(s, op) && Faithful(s, op) && Stutters(op)
    ensures SameView(s, Apply(s, op))
  {
    match op
    case Alloc(f) => AllocView(s, f);
    case Release(f) =>
      assert forall k: nat, i: nat :: InBounds(s, k, i) ==> PageAt(s, k, i) == PageAt(Apply(s, op), k, i);
    case MapFresh(k, i, f) => MapFreshView(s, k, i, f);
    case SwapIn(k, i, f) => SwapInView(s, k, i, f);
    case BreakCow(k, i, f) => BreakCowView(s, k, i, f);
    case Touch(k, i) => FlagsView(s, k, i, Entry(s, k, i).(accessed := true));
    case ClearAccessed(k, i) => FlagsView(s, k, i, Entry(s, k, i).(accessed := false));
    case BeginSwap(k, i, z) =>
    case SendSector(z) => SendSectorView(s, z);
    case DropZero(k, i) => DropInvisibleIff(s, k, i);
    case DropText(k, i) => DropInvisibleIff(s, k, i);
    case EndSwap(z) => EndSwapInvisibleIff(s, z);
    case CancelSwap(z) =>
  }

  lemma StoreRefines(s: State, k: nat, i: nat, off: nat, b: Byte, a: Memories)
    requires Inv(s) && CanStore(s, k, i, off) && Refines(s, a)
    ensures Refines(StoreOf(s, k, i, off, b), AbsStep(a, Store(k, i, off, b)))
  {
    var t := StoreOf(s, k, i, off, b);
    var c := AbsStep(a, Store(k, i, off, b));
    var f := Entry(s, k, i).frame;
    assert Has(a, k, i);
    assert PageAt(s, k, i) == a[k].value.pages[i];
    forall l: nat, j: nat | InBounds(t, l, j) && Has(c, l, j) ensures PageAt(t, l, j) == c[l].value.pages[j] {
      ValidIsInBounds(s, l, j);
      if (l != k || j != i) && Maps(s.spaces, l, j, f) {
        NamedTwice(s.spaces, k, i, l, j, Frame(f));
      }
    }
  }

  lemma ShareRefines(s: State, p: nat, c: nat, i: nat, a: Memories)
    requires Inv(s) && CanShareEntry(s, p, c, i) && Refines(s, a)
    ensures Refines(ShareEntryOf(s, p, c, i), AbsStep(a, ShareEntry(p, c, i)))
  {
    var t := ShareEntryOf(s, p, c, i);
    var b := AbsStep(a, ShareEntry(p, c, i));
    assert Has(a, p, i) && Has(a, c, i);
    forall l: nat, j: nat | InBounds(t, l, j) && Has(b, l, j) ensures PageAt(t, l, j) == b[l].value.pages[j] {
      ValidIsInBounds(s, l, j);
      assert PageAt(s, l, j) == a[l].value.pages[j];
      assert PageAt(s, p, i) == a[p].value.pages[i];
    }
  }

  lemma DropSpaceRefines(s: State, k: nat, a: Memories)
    requires Inv(s) && CanDropSpace(s, k) && Refines(s, a)
    ensures Refines(DropSpaceOf(s, k), AbsStep(a, DropSpace(k)))
  {
    var t := DropSpaceOf(s, k);
    var b := AbsStep(a, DropSpace(k));
    forall l: nat, j: nat | InBounds(t, l, j) && Has(b, l, j) ensures PageAt(t, l, j) == b[l].value.pages[j] {
      assert t.spaces[l] == s.spaces[l];
      assert InBounds(s, l, j) && Has(a, l, j);
    }
  }

  lemma NewSpaceRefines(s: State, k: nat, d: nat, t: nat, exe: Exe, a: Memories)
    requires Inv(s) && Enabled(s, NewSpace(k, d, t, exe)) && Refines(s, a)
    ensures Refines(Apply(s, NewSpace(k, d, t, exe)), AbsStep(a, NewSpace(k, d, t, exe)))
  {
    var u := Apply(s, NewSpace(k, d, t, exe));
    var b := AbsStep(a, NewSpace(k, d, t, exe));
    forall l: nat, j: nat | InBounds(u, l, j) && Has(b, l, j) ensures PageAt(u, l, j) == b[l].value.pages[j] {
      if l != k {
        assert InBounds(s, l, j) && Has(a, l, j);
      }
    }
  }

  lemma StutterRefines(s: State, op: Op, a: Memories)
    requires Inv(s) && Enabled(s, op) && Faithful(s, op) && Refines(s, a) && Stutters(op)
    ensures Inv(Apply(s, op)) && Refines(Apply(s, op), a)
  {
    StepKeepsInv(s, op);
    StutterView(s, op);
    SameViewRefines(s, Apply(s, op), a);
  }

  lemma StepRefines(s: State, op: Op, a: Memories)
    requires Inv(s) && Enabled(s, op) && Faithful(s, op) && Refines(s, a)
    ensures Inv(Apply(s, op)) && Refines(Apply(s, op), AbsStep(a, op))
  {
    if Stutters(op) {
      StutterRefines(s, op, a);
    } else {
      StepKeepsInv(s, op);
      match op
      case NewSpace(k, d, t, exe) => NewSpaceRefines(s, k, d, t, exe, a);
      case DropSpace(k) => DropSpaceRefines(s, k, a);
      case ShareEntry(p, c, i) => ShareRefines(s, p, c, i, a);
      case Store(k, i, off, b) => StoreRefines(s, k, i, off, b, a);
    }
  }

  predicate FaithfulRun(s: State, ops: seq<Op>)
    requires Legal(s, ops)
    decreases |ops|
  {
    ops == [] || (Faithful(s, ops[0]) && FaithfulRun(Apply(s, ops[0]), ops[1..]))
  }

  lemma {:induction false} RunRefines(s: State, ops: seq<Op>, a: Memories)
    requires Inv(s) && Legal(s, ops) && FaithfulRun(s, ops) && Refines(s, a)
    ensures Inv(Run(s, ops)) && Refines(Run(s, ops), AbsRun(a, ops))
    decreases |ops|
  {
    if ops != [] {
      StepRefines(s, ops[0], a);
      RunRefines(Apply(s, ops[0]), ops[1..], AbsStep(a, ops[0]));
    }
  }

  function NoMemories(): (a: Memories)
    ensures |a| == NR_TASKS && forall k :: 0 <= k < |a| ==> a[k].None?
  {
    seq(NR_TASKS, _ => None)
  }

  /** Copy-on-write refines separate memories.  Over every run from boot, whatever the
      interleaving of forks, stores, faults, copies, reclaim and exits, a load returns
      the byte that a private copy of the process's memory would hold. */
  lemma LoadsSeePrivateMemory(s: State, ops: seq<Op>, k: nat, i: nat, off: nat)
    requires Boot(s) && Legal(s, ops) && FaithfulRun(s, ops)
    requires PresentAt(Run(s, ops), k, i) && off < PAGE_SIZE
    ensures Has(AbsRun(NoMemories(), ops), k, i)
    ensures Load(Run(s, ops), k, i, off) == AbsRun(NoMemories(), ops)[k].value.pages[i][off]
  {
    BootInv(s);
    RunRefines(s, ops, NoMemories());
    assert PageAt(Run(s, ops), k, i)[off] == Load(Run(s, ops), k, i, off);
  }
}
