/** Physical frames, page tables and swap slots as one state machine (mm/memory.c).
    Each operation is the code between two points where a task can sleep, so a
    sequence of operations is an interleaving of allocations, faults, forks, exits
    and swap-outs of any number of tasks. */
module Paging {
  import opened Layout
  import opened PageEntry
  import opened Executable
  import opened FrameRefs

  const USED: nat := 100
  const NR_SWAP_SLOTS: nat := 512

  // A page goes to disk in eight sectors.
  const SECTOR: nat := 512
  const SECTORS: nat := 8

  // A swap-out whose disk write is under way: which entry it is for, the entry and page
  // directory it must find again afterwards, and how many sectors have been sent.
  datatype Flight = Flight(k: nat, i: nat, dir: nat, pte: Pte, sent: nat)

  // Sector n of `from` over that of `to`.
  function CopySector(to: Page, from: Page, n: nat): (r: Page)
    requires n < SECTORS
    ensures forall o :: 0 <= o < PAGE_SIZE ==> r[o] == if n * SECTOR <= o < (n + 1) * SECTOR then from[o] else to[o]
  {
    to[..n * SECTOR] + from[n * SECTOR..(n + 1) * SECTOR] + to[(n + 1) * SECTOR..]
  }

  datatype State = State(
    count: seq<nat>,           // mem_map
    data: seq<Page>,           // what each frame holds
    swapMap: seq<bool>,        // swap_map
    swapData: seq<Page>,       // what each slot of the swap device holds
    spaces: Spaces,            // the address space of each task slot
    kernel: multiset<nat>,     // frames the kernel holds: task pages, pipe pages, frames in hand
    flights: map<nat, Flight>, // swap-outs under way, by slot
    pinned: set<nat>           // frames mem_init and buffer_init marked USED
  )

  // ---------------------------------------------------------------------
  // The pieces operations are made of
  // ---------------------------------------------------------------------

  // free_page on the count of one frame.
  function FreeFrame(count: seq<nat>, f: nat): (r: seq<nat>)
    requires f < |count|
    ensures |r| == |count|
  {
    if 0 < count[f] < USED then count[f := count[f] - 1] else count
  }

  // The entry is in range and so is what it names.
  predicate InBounds(s: State, k: nat, i: nat) {
    && ValidAt(s.spaces, k, i)
    && match EntryAt(s.spaces, k, i)
       case Empty => true
       case Present(f, _, _, _, _) => f < |s.count| && f < |s.data|
       case Swapped(z) => z < |s.swapMap| && z < |s.swapData|
  }

  function Entry(s: State, k: nat, i: nat): Pte
    requires ValidAt(s.spaces, k, i)
  {
    EntryAt(s.spaces, k, i)
  }

  // Clear an entry and give back the frame or slot it names.
  function Unmap(s: State, k: nat, i: nat): State
    requires InBounds(s, k, i)
  {
    match Entry(s, k, i)
    case Empty => s
    case Present(f, _, _, _, _) =>
      s.(spaces := SetEntry(s.spaces, k, i, Empty), count := FreeFrame(s.count, f))
    case Swapped(z) =>
      s.(spaces := SetEntry(s.spaces, k, i, Empty), swapMap := s.swapMap[z := false])
  }

  // Put a frame the kernel holds into an empty entry.
  function MapFrame(s: State, k: nat, i: nat, f: nat): State
    requires ValidAt(s.spaces, k, i)
  {
    s.(spaces := SetEntry(s.spaces, k, i, Present(f, true, false, false, false)),
       kernel := s.kernel - multiset{f})
  }

  // Record a finished swap-out in an empty entry.
  function PutSlot(s: State, k: nat, i: nat, z: nat): State
    requires ValidAt(s.spaces, k, i)
  {
    s.(spaces := SetEntry(s.spaces, k, i, Swapped(z)), flights := s.flights - {z})
  }

  // Replace the flag bits of a present entry.
  function SetFlags(s: State, k: nat, i: nat, p: Pte): State
    requires ValidAt(s.spaces, k, i)
  {
    s.(spaces := SetEntry(s.spaces, k, i, p))
  }

  // Take a further reference to the frame of (p, i) for entry (c, i).
  function Alias(s: State, p: nat, c: nat, i: nat): State
    requires InBounds(s, p, i) && Entry(s, p, i).Present?
    requires ValidAt(s.spaces, c, i)
  {
    var e := Entry(s, p, i);
    var n := s.count[e.frame];
    s.(spaces := SetEntry(s.spaces, c, i, e),
       count := if n < USED then s.count[e.frame := n + 1] else s.count)
  }

  // Everything but the entries of space k, the counts and the swap map is as it was.
  ghost predicate OnlyUnmapped(s: State, t: State, k: nat) {
    && |t.count| == |s.count| && t.data == s.data
    && |t.swapMap| == |s.swapMap| && t.swapData == s.swapData
    && t.kernel == s.kernel && t.flights == s.flights && t.pinned == s.pinned
    && |t.spaces| == |s.spaces|
    && (forall l :: 0 <= l < |s.spaces| && l != k ==> t.spaces[l] == s.spaces[l])
    && k < |s.spaces| && s.spaces[k].Some? && t.spaces[k].Some?
    && t.spaces[k].value.dir == s.spaces[k].value.dir
    && t.spaces[k].value.table == s.spaces[k].value.table
    && t.spaces[k].value.exe == s.spaces[k].value.exe
    && |t.spaces[k].value.entries| == |s.spaces[k].value.entries|
  }

  // free_page_tables: the entries below n given back one by one.
  function UnmapBelow(s: State, k: nat, n: nat): (t: State)
    requires k < |s.spaces| && s.spaces[k].Some? && n <= |s.spaces[k].value.entries|
    requires forall i :: 0 <= i < n ==> InBounds(s, k, i)
    ensures OnlyUnmapped(s, t, k)
    ensures forall i :: 0 <= i < |s.spaces[k].value.entries| ==>
              t.spaces[k].value.entries[i] == if i < n then Empty else s.spaces[k].value.entries[i]
  {
    if n == 0 then s
    else
      assert InBounds(s, k, n - 1);
      Unmap(UnmapBelow(s, k, n - 1), k, n - 1)
  }

  // ---------------------------------------------------------------------
  // Operations
  // ---------------------------------------------------------------------

  datatype Op =
    | Alloc(f: nat)                                  // get_free_page
    | Release(f: nat)                                // free_page by a kernel holder
    | NewSpace(k: nat, d: nat, t: nat, exe: Exe)     // alloc_user_pgdir
    | DropSpace(k: nat)                              // free_user_space
    | MapFresh(k: nat, i: nat, f: nat)               // do_no_page, first touch or image page
    | SwapIn(k: nat, i: nat, f: nat)                 // do_no_page and copy_page_tables, page on swap
    | BreakCow(k: nat, i: nat, f: nat)               // un_wp_page
    | ShareEntry(p: nat, c: nat, i: nat)             // one turn of copy_page_tables
    | Touch(k: nat, i: nat)                          // the CPU on a load
    | Store(k: nat, i: nat, off: nat, b: Byte)       // the CPU on a user store
    | ClearAccessed(k: nat, i: nat)                  // second chance
    | DropZero(k: nat, i: nat)                       // reclaim, pass 0
    | DropText(k: nat, i: nat)                       // reclaim, pass 1
    | BeginSwap(k: nat, i: nat, z: nat)              // reclaim, pass 2, up to the disk write
    | SendSector(z: nat)                             // the driver sends the next sector of the frame
    | EndSwap(z: nat)                                // reclaim, pass 2, after the disk write
    | CancelSwap(z: nat)                             // the disk write failed

  function PageAddress(i: nat): nat {
    USER_BASE + i * PAGE_SIZE
  }

  // user_addr_ok for one byte of page i: not the guard hole below the stack.
  predicate UserPageOk(i: nat) {
    var a := PageAddress(i);
    || USER_PROG_START <= a < USER_PROG_END
    || USER_HEAP_START <= a < USER_HEAP_END
    || USER_STACK_FLOOR <= a < USER_STACK_TOP
    || USER_STACK_TOP <= a < USER_WINDOW_TOP
  }

  // What the page of a missing entry holds once it is faulted in.
  function Backing(exe: Exe, i: nat): Page {
    if PageAddress(i) < USER_PROG_END then PageIn(exe, PageAddress(i)) else ZeroPage()
  }

  predicate PresentAt(s: State, k: nat, i: nat) {
    InBounds(s, k, i) && Entry(s, k, i).Present?
  }

  predicate PrivateAt(s: State, k: nat, i: nat) {
    PresentAt(s, k, i) && !Entry(s, k, i).cow
  }

  predicate InHand(s: State, f: nat) {
    f in s.kernel && f < |s.count| && f < |s.data|
  }

  predicate CanNewSpace(s: State, k: nat, d: nat, t: nat) {
    && k < |s.spaces| && s.spaces[k].None? && InHand(s, d) && InHand(s, t)
    && multiset{d, t} <= s.kernel
  }

  predicate CanDropSpace(s: State, k: nat) {
    && k < |s.spaces| && s.spaces[k].Some?
    && (forall i :: 0 <= i < |s.spaces[k].value.entries| ==> InBounds(s, k, i))
    && s.spaces[k].value.dir < |s.count| && s.spaces[k].value.table < |s.count|
  }

  predicate CanMapFresh(s: State, k: nat, i: nat, f: nat) {
    InBounds(s, k, i) && Entry(s, k, i).Empty? && UserPageOk(i) && InHand(s, f) && s.data[f] == ZeroPage()
  }

  predicate CanSwapIn(s: State, k: nat, i: nat, f: nat) {
    InBounds(s, k, i) && Entry(s, k, i).Swapped? && InHand(s, f)
  }

  predicate CanBreakCow(s: State, k: nat, i: nat, f: nat) {
    PresentAt(s, k, i) && Entry(s, k, i).cow && InHand(s, f)
  }

  predicate CanShareEntry(s: State, p: nat, c: nat, i: nat) {
    && InBounds(s, p, i) && !Entry(s, p, i).Swapped?
    && InBounds(s, c, i) && Entry(s, c, i).Empty?
    && s.spaces[p].value.exe == s.spaces[c].value.exe
    && p != c
  }

  predicate CanStore(s: State, k: nat, i: nat, off: nat) {
    PresentAt(s, k, i) && Entry(s, k, i).rw && off < PAGE_SIZE
  }

  predicate CanBeginSwap(s: State, k: nat, i: nat, z: nat) {
    PrivateAt(s, k, i) && z < |s.swapMap| && z < |s.swapData| && !s.swapMap[z] && z !in s.flights
  }

  predicate CanSendSector(s: State, z: nat) {
    && z in s.flights && z < |s.swapData| && s.flights[z].sent < SECTORS
    && s.flights[z].pte.Present? && s.flights[z].pte.frame < |s.data|
  }

  predicate CanEndSwap(s: State, z: nat) {
    && z in s.flights && z < |s.swapMap| && z < |s.swapData| && s.flights[z].sent == SECTORS
    && (StillThere(s, s.flights[z]) ==> InBounds(s, s.flights[z].k, s.flights[z].i))
  }

  predicate Enabled(s: State, op: Op) {
    match op
    case Alloc(f) => f < |s.count| && f < |s.data| && s.count[f] == 0
    case Release(f) => InHand(s, f)
    case NewSpace(k, d, t, exe) => CanNewSpace(s, k, d, t)
    case DropSpace(k) => CanDropSpace(s, k)
    case MapFresh(k, i, f) => CanMapFresh(s, k, i, f)
    case SwapIn(k, i, f) => CanSwapIn(s, k, i, f)
    case BreakCow(k, i, f) => CanBreakCow(s, k, i, f)
    case ShareEntry(p, c, i) => CanShareEntry(s, p, c, i)
    case Touch(k, i) => PresentAt(s, k, i)
    case Store(k, i, off, _) => CanStore(s, k, i, off)
    case ClearAccessed(k, i) => PresentAt(s, k, i)
    case DropZero(k, i) => PrivateAt(s, k, i) && s.data[Entry(s, k, i).frame] == ZeroPage()
    case DropText(k, i) => PrivateAt(s, k, i) && IsCleanText(s.spaces[k].value.exe, PageAddress(i))
    case BeginSwap(k, i, z) => CanBeginSwap(s, k, i, z)
    case SendSector(z) => CanSendSector(s, z)
    case EndSwap(z) => CanEndSwap(s, z)
    case CancelSwap(z) => z in s.flights && z < |s.swapMap|
  }

  // The re-validation after the disk write: same directory, same entry.
  predicate StillThere(s: State, fl: Flight) {
    && ValidAt(s.spaces, fl.k, fl.i)
    && s.spaces[fl.k].value.dir == fl.dir
    && Entry(s, fl.k, fl.i) == fl.pte
  }

  function EmptyTable(): (t: seq<Pte>)
    ensures |t| == PT_ENTRIES && forall i :: 0 <= i < |t| ==> t[i] == Empty
  {
    seq(PT_ENTRIES, _ => Empty)
  }

  function SetData(s: State, f: nat, p: Page): State
    requires f < |s.data|
  {
    s.(data := s.data[f := p])
  }

  // The machine has the frames it had, and the same ones are pinned.
  predicate Kept(s: State, t: State) {
    t.pinned == s.pinned && |t.count| == |s.count|
  }

  // No address space but k has changed.
  predicate OnlySpace(s: State, t: State, k: nat) {
    |t.spaces| == |s.spaces| && forall l :: 0 <= l < |s.spaces| && l != k ==> t.spaces[l] == s.spaces[l]
  }

  function DropSpaceOf(s: State, k: nat): (t: State)
    requires CanDropSpace(s, k)
    ensures Kept(s, t) && OnlySpace(s, t, k)
  {
    var sp := s.spaces[k].value;
    var u := UnmapBelow(s, k, |sp.entries|);
    u.(count := FreeFrame(FreeFrame(u.count, sp.table), sp.dir), spaces := u.spaces[k := None])
  }

  function MapFreshOf(s: State, k: nat, i: nat, f: nat): (t: State)
    requires CanMapFresh(s, k, i, f)
    ensures Kept(s, t) && OnlySpace(s, t, k)
  {
    MapFrame(SetData(s, f, Backing(s.spaces[k].value.exe, i)), k, i, f)
  }

  function SwapInOf(s: State, k: nat, i: nat, f: nat): (t: State)
    requires CanSwapIn(s, k, i, f)
    ensures Kept(s, t) && OnlySpace(s, t, k)
  {
    MapFrame(Unmap(SetData(s, f, s.swapData[Entry(s, k, i).slot]), k, i), k, i, f)
  }

  function BreakCowOf(s: State, k: nat, i: nat, f: nat): (t: State)
    requires CanBreakCow(s, k, i, f)
    ensures Kept(s, t) && OnlySpace(s, t, k)
  {
    MapFrame(Unmap(SetData(s, f, s.data[Entry(s, k, i).frame]), k, i), k, i, f)
  }

  function ShareEntryOf(s: State, p: nat, c: nat, i: nat): (t: State)
    requires CanShareEntry(s, p, c, i)
    ensures Kept(s, t)
  {
    if Entry(s, p, i).Empty? then s
    else Alias(SetFlags(s, p, i, Entry(s, p, i).(rw := false, cow := true)), p, c, i)
  }

  function StoreOf(s: State, k: nat, i: nat, off: nat, b: Byte): (t: State)
    requires CanStore(s, k, i, off)
    ensures Kept(s, t) && OnlySpace(s, t, k)
  {
    var f := Entry(s, k, i).frame;
    SetFlags(SetData(s, f, s.data[f][off := b]), k, i, Entry(s, k, i).(accessed := true, dirty := true))
  }

  function BeginSwapOf(s: State, k: nat, i: nat, z: nat): (t: State)
    requires CanBeginSwap(s, k, i, z)
    ensures Kept(s, t) && t.spaces == s.spaces
  {
    s.(swapMap := s.swapMap[z := true],
       flights := s.flights[z := Flight(k, i, s.spaces[k].value.dir, Entry(s, k, i), 0)])
  }

  // The sector is read from the frame noted at the start, whoever has it now.
  function SendSectorOf(s: State, z: nat): (t: State)
    requires CanSendSector(s, z)
    ensures Kept(s, t) && t.spaces == s.spaces
  {
    var fl := s.flights[z];
    s.(swapData := s.swapData[z := CopySector(s.swapData[z], s.data[fl.pte.frame], fl.sent)],
       flights := s.flights[z := fl.(sent := fl.sent + 1)])
  }

  // swap_free_slot for a write under way.
  function GiveUpSlot(s: State, z: nat): (t: State)
    requires z < |s.swapMap|
    ensures Kept(s, t) && t.spaces == s.spaces
  {
    s.(swapMap := s.swapMap[z := false], flights := s.flights - {z})
  }

  function EndSwapOf(s: State, z: nat): (t: State)
    requires CanEndSwap(s, z)
    ensures Kept(s, t)
  {
    var fl := s.flights[z];
    if StillThere(s, fl) then PutSlot(Unmap(s, fl.k, fl.i), fl.k, fl.i, z) else GiveUpSlot(s, z)
  }

  function Apply(s: State, op: Op): (t: State)
    requires Enabled(s, op)
    ensures Kept(s, t)
  {
    match op
    case Alloc(f) =>
      s.(count := s.count[f := 1], data := s.data[f := ZeroPage()], kernel := s.kernel + multiset{f})
    case Release(f) => s.(count := FreeFrame(s.count, f), kernel := s.kernel - multiset{f})
    case NewSpace(k, d, t, exe) =>
      s.(spaces := s.spaces[k := Some(Space(d, t, EmptyTable(), exe))], kernel := s.kernel - multiset{d, t})
    case DropSpace(k) => DropSpaceOf(s, k)
    case MapFresh(k, i, f) => MapFreshOf(s, k, i, f)
    case SwapIn(k, i, f) => SwapInOf(s, k, i, f)
    case BreakCow(k, i, f) => BreakCowOf(s, k, i, f)
    case ShareEntry(p, c, i) => ShareEntryOf(s, p, c, i)
    case Touch(k, i) => SetFlags(s, k, i, Entry(s, k, i).(accessed := true))
    case Store(k, i, off, b) => StoreOf(s, k, i, off, b)
    case ClearAccessed(k, i) => SetFlags(s, k, i, Entry(s, k, i).(accessed := false))
    case DropZero(k, i) => Unmap(s, k, i)
    case DropText(k, i) => Unmap(s, k, i)
    case BeginSwap(k, i, z) => BeginSwapOf(s, k, i, z)
    case SendSector(z) => SendSectorOf(s, z)
    case EndSwap(z) => EndSwapOf(s, z)
    case CancelSwap(z) => GiveUpSlot(s, z)
  }

  // ---------------------------------------------------------------------
  // The invariant
  // ---------------------------------------------------------------------

  predicate EntryOk(s: State, p: Pte) {
    match p
    case Empty => true
    case Present(f, rw, cow, _, _) => f < |s.count| && rw != cow
    case Swapped(z) => z < NR_SWAP_SLOTS
  }

  ghost predicate Shape(s: State) {
    && |s.data| == |s.count|
    && |s.swapMap| == NR_SWAP_SLOTS && |s.swapData| == NR_SWAP_SLOTS
    && |s.spaces| == NR_TASKS
    && (forall k :: 0 <= k < |s.spaces| && s.spaces[k].Some? ==>
          && |s.spaces[k].value.entries| == PT_ENTRIES
          && s.spaces[k].value.dir < |s.count| && s.spaces[k].value.table < |s.count|)
    && (forall k, i :: ValidAt(s.spaces, k, i) ==> EntryOk(s, EntryAt(s.spaces, k, i)))
    && (forall f :: f in s.kernel ==> f < |s.count|)
    && (forall z :: z in s.flights ==>
          && z < NR_SWAP_SLOTS && s.flights[z].pte.Present? && !s.flights[z].pte.cow
          && s.flights[z].pte.frame < |s.count| && s.flights[z].sent <= SECTORS)
  }

  // Holders of frame f other than page-table entries.
  ghost function Owners(s: State, f: nat): nat {
    TableRefs(s.spaces, f) + s.kernel[f]
  }

  // mem_map[f] is exactly the number of references; a pinned frame has none and stays
  // at USED, and no other frame gets there.
  ghost predicate FrameBalanced(s: State, f: nat)
    requires f < |s.count|
  {
    && Owners(s, f) <= 1
    && (Refs(s.spaces, Frame(f)) > 0 ==> Owners(s, f) == 0)
    && (if f in s.pinned then s.count[f] == USED && Refs(s.spaces, Frame(f)) + Owners(s, f) == 0
        else s.count[f] == Refs(s.spaces, Frame(f)) + Owners(s, f) < USED)
  }

  // A slot in use has exactly one owner: an entry or a write under way.
  ghost predicate SlotBalanced(s: State, z: nat)
    requires z < |s.swapMap|
  {
    One(s.swapMap[z]) == Refs(s.spaces, Slot(z)) + One(z in s.flights)
  }

  ghost predicate Inv(s: State) {
    && Shape(s)
    && (forall f :: 0 <= f < |s.count| ==> FrameBalanced(s, f))
    && (forall z :: 0 <= z < |s.swapMap| ==> SlotBalanced(s, z))
    && Disciplined(s.spaces)
  }

  // ---------------------------------------------------------------------
  // Each piece keeps the invariant
  // ---------------------------------------------------------------------

  // A frame some other holder owns, or a free or pinned one, is named by no entry.
  lemma HeldIsUnmapped(s: State, f: nat)
    requires Inv(s) && f < |s.count| && (Owners(s, f) > 0 || s.count[f] == 0 || f in s.pinned)
    ensures Refs(s.spaces, Frame(f)) == 0
    ensures forall k, i :: !Maps(s.spaces, k, i, f)
  {
    assert FrameBalanced(s, f);
    forall k, i ensures !Maps(s.spaces, k, i, f) {
      if Maps(s.spaces, k, i, f) {
        NamedIsCounted(s.spaces, k, i, Frame(f));
      }
    }
  }

  lemma UnmapKeepsInv(s: State, k: nat, i: nat)
    requires Inv(s) && InBounds(s, k, i)
    ensures Inv(Unmap(s, k, i))
  {
    var t := Unmap(s, k, i);
    var e := Entry(s, k, i);
    if e.Empty? { return; }
    ClearKeepsDiscipline(s.spaces, k, i, Empty);
    forall f | 0 <= f < |t.count| ensures FrameBalanced(t, f) {
      assert FrameBalanced(s, f);
      SetEntryRefs(s.spaces, k, i, Empty, Frame(f));
      SetEntryTables(s.spaces, k, i, Empty, f);
      if Names(e, Frame(f)) {
        NamedIsCounted(s.spaces, k, i, Frame(f));
      }
    }
    forall z | 0 <= z < |t.swapMap| ensures SlotBalanced(t, z) {
      assert SlotBalanced(s, z);
      SetEntryRefs(s.spaces, k, i, Empty, Slot(z));
    }
  }

  lemma MapFrameKeepsInv(s: State, k: nat, i: nat, f: nat)
    requires Inv(s) && InBounds(s, k, i) && Entry(s, k, i).Empty? && InHand(s, f)
    ensures Inv(MapFrame(s, k, i, f))
  {
    var t := MapFrame(s, k, i, f);
    var p := Present(f, true, false, false, false);
    HeldIsUnmapped(s, f);
    FreshKeepsDiscipline(s.spaces, k, i, p);
    forall g | 0 <= g < |t.count| ensures FrameBalanced(t, g) {
      assert FrameBalanced(s, g);
      SetEntryRefs(s.spaces, k, i, p, Frame(g));
      SetEntryTables(s.spaces, k, i, p, g);
    }
    forall z | 0 <= z < |t.swapMap| ensures SlotBalanced(t, z) {
      assert SlotBalanced(s, z);
      SetEntryRefs(s.spaces, k, i, p, Slot(z));
    }
  }

  lemma PutSlotKeepsInv(s: State, k: nat, i: nat, z: nat)
    requires Inv(s) && InBounds(s, k, i) && Entry(s, k, i).Empty? && z in s.flights
    ensures Inv(PutSlot(s, k, i, z))
  {
    var t := PutSlot(s, k, i, z);
    ClearKeepsDiscipline(s.spaces, k, i, Swapped(z));
    forall g | 0 <= g < |t.count| ensures FrameBalanced(t, g) {
      assert FrameBalanced(s, g);
      SetEntryRefs(s.spaces, k, i, Swapped(z), Frame(g));
      SetEntryTables(s.spaces, k, i, Swapped(z), g);
    }
    forall y | 0 <= y < |t.swapMap| ensures SlotBalanced(t, y) {
      assert SlotBalanced(s, y);
      SetEntryRefs(s.spaces, k, i, Swapped(z), Slot(y));
    }
  }

  // Same frame, and writable only if it was: flag changes move no reference.
  lemma SetFlagsKeepsInv(s: State, k: nat, i: nat, p: Pte)
    requires Inv(s) && PresentAt(s, k, i)
    requires p.Present? && p.frame == Entry(s, k, i).frame && p.rw != p.cow && (p.rw ==> Entry(s, k, i).rw)
    ensures Inv(SetFlags(s, k, i, p))
  {
    var t := SetFlags(s, k, i, p);
    FlagsKeepDiscipline(s.spaces, k, i, p);
    forall g | 0 <= g < |t.count| ensures FrameBalanced(t, g) {
      assert FrameBalanced(s, g);
      SetEntryRefs(s.spaces, k, i, p, Frame(g));
      SetEntryTables(s.spaces, k, i, p, g);
    }
    forall z | 0 <= z < |t.swapMap| ensures SlotBalanced(t, z) {
      assert SlotBalanced(s, z);
      SetEntryRefs(s.spaces, k, i, p, Slot(z));
    }
  }

  /** With at most NR_TASKS address spaces no frame is mapped more than NR_TASKS times,
      so the count of a shared frame never reaches USED. */
  lemma ShareBound(spaces: Spaces, f: nat)
    requires Aligned(spaces)
    ensures Refs(spaces, Frame(f)) <= |spaces|
  {
    forall k | 0 <= k < |spaces| ensures SpaceRefs(spaces[k], Frame(f)) <= 1 {
      if spaces[k].Some? {
        var t := spaces[k].value.entries;
        if j :| 0 <= j < |t| && Names(t[j], Frame(f)) {
          assert Maps(spaces, k, j, f);
          forall m | 0 <= m < |t| && Names(t[m], Frame(f)) ensures m == j {
            assert Maps(spaces, k, m, f);
          }
          EntryRefsAtMostOne(t, j, Frame(f));
        } else {
          EntryRefsZero(t, Frame(f));
        }
      }
    }
    RefsAtMost(spaces, Frame(f));
  }

  lemma AliasKeepsInv(s: State, p: nat, c: nat, i: nat)
    requires Inv(s) && PresentAt(s, p, i) && Entry(s, p, i).cow
    requires InBounds(s, c, i) && Entry(s, c, i).Empty?
    ensures Inv(Alias(s, p, c, i))
  {
    var t := Alias(s, p, c, i);
    var e := Entry(s, p, i);
    var f := e.frame;
    assert EntryOk(s, e);
    NamedIsCounted(s.spaces, p, i, Frame(f));
    ShareBound(s.spaces, f);
    AliasKeepsDiscipline(s.spaces, p, c, i);
    assert FrameBalanced(s, f);
    forall g | 0 <= g < |t.count| ensures FrameBalanced(t, g) {
      assert FrameBalanced(s, g);
      SetEntryRefs(s.spaces, c, i, e, Frame(g));
      SetEntryTables(s.spaces, c, i, e, g);
    }
    forall z | 0 <= z < |t.swapMap| ensures SlotBalanced(t, z) {
      assert SlotBalanced(s, z);
      SetEntryRefs(s.spaces, c, i, e, Slot(z));
    }
  }

  lemma {:induction false} UnmapBelowKeepsInv(s: State, k: nat, n: nat)
    requires Inv(s)
    requires k < |s.spaces| && s.spaces[k].Some? && n <= |s.spaces[k].value.entries|
    requires forall i :: 0 <= i < n ==> InBounds(s, k, i)
    ensures Inv(UnmapBelow(s, k, n))
    decreases n
  {
    hide Inv;
    if n > 0 {
      assert InBounds(s, k, n - 1);
      UnmapBelowKeepsInv(s, k, n - 1);
      UnmapKeepsInv(UnmapBelow(s, k, n - 1), k, n - 1);
    }
  }

  // ---------------------------------------------------------------------
  // Each operation keeps the invariant
  // ---------------------------------------------------------------------

  // What frames and slots hold plays no part in the accounting.
  lemma SameBooks(s: State, t: State)
    requires Inv(s)
    requires t == s.(data := t.data)
    requires |t.data| == |s.data|
    ensures Inv(t)
  {
    forall f | 0 <= f < |t.count| ensures FrameBalanced(t, f) {
      assert FrameBalanced(s, f);
    }
    forall z | 0 <= z < |t.swapMap| ensures SlotBalanced(t, z) {
      assert SlotBalanced(s, z);
    }
  }

  lemma AllocKeepsInv(s: State, f: nat)
    requires Inv(s) && Enabled(s, Alloc(f))
    ensures Inv(Apply(s, Alloc(f)))
  {
    var t := Apply(s, Alloc(f));
    forall g | 0 <= g < |t.count| ensures FrameBalanced(t, g) {
      assert FrameBalanced(s, g);
    }
    forall z | 0 <= z < |t.swapMap| ensures SlotBalanced(t, z) {
      assert SlotBalanced(s, z);
    }
  }

  lemma ReleaseKeepsInv(s: State, f: nat)
    requires Inv(s) && Enabled(s, Release(f))
    ensures Inv(Apply(s, Release(f)))
  {
    var t := Apply(s, Release(f));
    forall g | 0 <= g < |t.count| ensures FrameBalanced(t, g) {
      assert FrameBalanced(s, g);
    }
    forall z | 0 <= z < |t.swapMap| ensures SlotBalanced(t, z) {
      assert SlotBalanced(s, z);
    }
  }

  lemma NewSpaceKeepsInv(s: State, k: nat, d: nat, t: nat, exe: Exe)
    requires Inv(s) && Enabled(s, NewSpace(k, d, t, exe))
    ensures Inv(Apply(s, NewSpace(k, d, t, exe)))
  {
    var u := Apply(s, NewSpace(k, d, t, exe));
    var sp := Some(Space(d, t, EmptyTable(), exe));
    assert d != t by {
      assert FrameBalanced(s, d);
      assert multiset{d, t}[d] <= s.kernel[d];
    }
    EmptySpaceKeepsDiscipline(s.spaces, k, sp);
    forall g | 0 <= g < |u.count| ensures FrameBalanced(u, g) {
      assert FrameBalanced(s, g);
      EmptySpaceRefs(s.spaces, k, sp, Frame(g));
      TableRefsReplace(s.spaces, k, sp, g);
    }
    forall z | 0 <= z < |u.swapMap| ensures SlotBalanced(u, z) {
      assert SlotBalanced(s, z);
      EmptySpaceRefs(s.spaces, k, sp, Slot(z));
    }
    forall l, j | ValidAt(u.spaces, l, j) ensures EntryOk(u, EntryAt(u.spaces, l, j)) {
      if l != k {
        assert EntryOk(s, EntryAt(s.spaces, l, j));
      }
    }
  }

  // An address space with no entries left can go; its two frames are its own.
  lemma DropTablesKeepsInv(s: State, k: nat)
    requires Inv(s) && k < |s.spaces| && s.spaces[k].Some?
    requires forall i :: 0 <= i < PT_ENTRIES ==> s.spaces[k].value.entries[i] == Empty
    ensures var sp := s.spaces[k].value;
            Inv(s.(count := FreeFrame(FreeFrame(s.count, sp.table), sp.dir), spaces := s.spaces[k := None]))
  {
    var sp := s.spaces[k].value;
    var u := s.(count := FreeFrame(FreeFrame(s.count, sp.table), sp.dir), spaces := s.spaces[k := None]);
    EmptySpaceKeepsDiscipline(s.spaces, k, None);
    forall g | 0 <= g < |u.count| ensures FrameBalanced(u, g) {
      assert FrameBalanced(s, g);
      EmptySpaceRefs(s.spaces, k, None, Frame(g));
      TableRefsReplace(s.spaces, k, None, g);
    }
    forall z | 0 <= z < |u.swapMap| ensures SlotBalanced(u, z) {
      assert SlotBalanced(s, z);
      EmptySpaceRefs(s.spaces, k, None, Slot(z));
    }
    forall l, j | ValidAt(u.spaces, l, j) ensures EntryOk(u, EntryAt(u.spaces, l, j)) {
      assert EntryOk(s, EntryAt(s.spaces, l, j));
    }
  }

  lemma DropSpaceKeepsInv(s: State, k: nat)
    requires Inv(s) && CanDropSpace(s, k)
    ensures Inv(DropSpaceOf(s, k))
  {
    UnmapBelowKeepsInv(s, k, PT_ENTRIES);
    DropTablesKeepsInv(UnmapBelow(s, k, PT_ENTRIES), k);
  }

  lemma MapFreshKeepsInv(s: State, k: nat, i: nat, f: nat)
    requires Inv(s) && CanMapFresh(s, k, i, f)
    ensures Inv(MapFreshOf(s, k, i, f))
  {
    var t := SetData(s, f, Backing(s.spaces[k].value.exe, i));
    SameBooks(s, t);
    MapFrameKeepsInv(t, k, i, f);
  }

  lemma SwapInKeepsInv(s: State, k: nat, i: nat, f: nat)
    requires Inv(s) && CanSwapIn(s, k, i, f)
    ensures Inv(SwapInOf(s, k, i, f))
  {
    var t := SetData(s, f, s.swapData[Entry(s, k, i).slot]);
    SameBooks(s, t);
    UnmapKeepsInv(t, k, i);
    MapFrameKeepsInv(Unmap(t, k, i), k, i, f);
  }

  lemma BreakCowKeepsInv(s: State, k: nat, i: nat, f: nat)
    requires Inv(s) && CanBreakCow(s, k, i, f)
    ensures Inv(BreakCowOf(s, k, i, f))
  {
    var t := SetData(s, f, s.data[Entry(s, k, i).frame]);
    SameBooks(s, t);
    UnmapKeepsInv(t, k, i);
    MapFrameKeepsInv(Unmap(t, k, i), k, i, f);
  }

  lemma ShareEntryKeepsInv(s: State, p: nat, c: nat, i: nat)
    requires Inv(s) && CanShareEntry(s, p, c, i)
    ensures Inv(ShareEntryOf(s, p, c, i))
  {
    if Entry(s, p, i).Present? {
      var e := Entry(s, p, i).(rw := false, cow := true);
      SetFlagsKeepsInv(s, p, i, e);
      AliasKeepsInv(SetFlags(s, p, i, e), p, c, i);
    }
  }

  lemma StoreKeepsInv(s: State, k: nat, i: nat, off: nat, b: Byte)
    requires Inv(s) && CanStore(s, k, i, off)
    ensures Inv(StoreOf(s, k, i, off, b))
  {
    var f := Entry(s, k, i).frame;
    var t := SetData(s, f, s.data[f][off := b]);
    assert EntryOk(s, Entry(s, k, i));
    SameBooks(s, t);
    SetFlagsKeepsInv(t, k, i, Entry(s, k, i).(accessed := true, dirty := true));
  }

  lemma AccessedKeepsInv(s: State, k: nat, i: nat, a: bool)
    requires Inv(s) && PresentAt(s, k, i)
    ensures Inv(SetFlags(s, k, i, Entry(s, k, i).(accessed := a)))
  {
    assert EntryOk(s, Entry(s, k, i));
    SetFlagsKeepsInv(s, k, i, Entry(s, k, i).(accessed := a));
  }

  lemma BeginSwapKeepsInv(s: State, k: nat, i: nat, z: nat)
    requires Inv(s) && CanBeginSwap(s, k, i, z)
    ensures Inv(BeginSwapOf(s, k, i, z))
  {
    var t := BeginSwapOf(s, k, i, z);
    forall f | 0 <= f < |t.count| ensures FrameBalanced(t, f) {
      assert FrameBalanced(s, f);
    }
    forall y | 0 <= y < |t.swapMap| ensures SlotBalanced(t, y) {
      assert SlotBalanced(s, y);
    }
  }

  lemma SendSectorKeepsInv(s: State, z: nat)
    requires Inv(s) && CanSendSector(s, z)
    ensures Inv(SendSectorOf(s, z))
  {
    var t := SendSectorOf(s, z);
    forall f | 0 <= f < |t.count| ensures FrameBalanced(t, f) {
      assert FrameBalanced(s, f);
    }
    forall y | 0 <= y < |t.swapMap| ensures SlotBalanced(t, y) {
      assert SlotBalanced(s, y);
    }
  }

  lemma GiveUpSlotKeepsInv(s: State, z: nat)
    requires Inv(s) && z in s.flights && z < |s.swapMap|
    ensures Inv(GiveUpSlot(s, z))
  {
    var t := GiveUpSlot(s, z);
    forall f | 0 <= f < |t.count| ensures FrameBalanced(t, f) {
      assert FrameBalanced(s, f);
    }
    forall y | 0 <= y < |t.swapMap| ensures SlotBalanced(t, y) {
      assert SlotBalanced(s, y);
    }
  }

  lemma EndSwapKeepsInv(s: State, z: nat)
    requires Inv(s) && CanEndSwap(s, z)
    ensures Inv(EndSwapOf(s, z))
  {
    var fl := s.flights[z];
    if StillThere(s, fl) {
      UnmapKeepsInv(s, fl.k, fl.i);
      PutSlotKeepsInv(Unmap(s, fl.k, fl.i), fl.k, fl.i, z);
    } else {
      GiveUpSlotKeepsInv(s, z);
    }
  }

  /** Frame accounting, one step: whatever a task does next, every count stays equal to
      the references to its frame and every slot in use keeps exactly one owner. */
  lemma StepKeepsInv(s: State, op: Op)
    requires Inv(s) && Enabled(s, op)
    ensures Inv(Apply(s, op))
  {
    match op
    case Alloc(f) => AllocKeepsInv(s, f);
    case Release(f) => ReleaseKeepsInv(s, f);
    case NewSpace(k, d, t, exe) => NewSpaceKeepsInv(s, k, d, t, exe);
    case DropSpace(k) => DropSpaceKeepsInv(s, k);
    case MapFresh(k, i, f) => MapFreshKeepsInv(s, k, i, f);
    case SwapIn(k, i, f) => SwapInKeepsInv(s, k, i, f);
    case BreakCow(k, i, f) => BreakCowKeepsInv(s, k, i, f);
    case ShareEntry(p, c, i) => ShareEntryKeepsInv(s, p, c, i);
    case Touch(k, i) => AccessedKeepsInv(s, k, i, true);
    case Store(k, i, off, b) => StoreKeepsInv(s, k, i, off, b);
    case ClearAccessed(k, i) => AccessedKeepsInv(s, k, i, false);
    case DropZero(k, i) => UnmapKeepsInv(s, k, i);
    case DropText(k, i) => UnmapKeepsInv(s, k, i);
    case BeginSwap(k, i, z) => BeginSwapKeepsInv(s, k, i, z);
    case SendSector(z) => SendSectorKeepsInv(s, z);
    case EndSwap(z) => EndSwapKeepsInv(s, z);
    case CancelSwap(z) => GiveUpSlotKeepsInv(s, z);
  }

  // ---------------------------------------------------------------------
  // Runs
  // ---------------------------------------------------------------------

  // Every operation of the sequence is enabled when its turn comes.
  predicate Legal(s: State, ops: seq<Op>)
    decreases |ops|
  {
    ops == [] || (Enabled(s, ops[0]) && Legal(Apply(s, ops[0]), ops[1..]))
  }

  function Run(s: State, ops: seq<Op>): State
    requires Legal(s, ops)
    decreases |ops|
  {
    if ops == [] then s else Run(Apply(s, ops[0]), ops[1..])
  }

  // ops lead from s to t.
  ghost predicate Leads(s: State, ops: seq<Op>, t: State) {
    Legal(s, ops) && Run(s, ops) == t
  }

  lemma LeadsCons(s: State, ops: seq<Op>, u: State)
    requires ops != [] && Enabled(s, ops[0])
    ensures Leads(s, ops, u) <==> Leads(Apply(s, ops[0]), ops[1..], u)
  {
  }

  lemma {:induction false} LeadsConcat(s: State, ops: seq<Op>, t: State, more: seq<Op>, u: State)
    requires Leads(s, ops, t) && Leads(t, more, u)
    ensures Leads(s, ops + more, u)
    decreases |ops|
  {
    if ops == [] {
      assert ops + more == more;
    } else {
      assert Enabled(s, ops[0]);
      var s' := Apply(s, ops[0]);
      assert (ops + more)[0] == ops[0] && (ops + more)[1..] == ops[1..] + more;
      LeadsCons(s, ops, t);
      LeadsConcat(s', ops[1..], t, more, u);
      LeadsCons(s, ops + more, u);
    }
  }

  lemma LeadsStep(s: State, ops: seq<Op>, t: State, op: Op)
    requires Leads(s, ops, t) && Enabled(t, op)
    ensures Leads(s, ops + [op], Apply(t, op))
  {
    assert [op][1..] == [];
    LeadsCons(t, [op], Apply(t, op));
    LeadsConcat(s, ops, t, [op], Apply(t, op));
  }

  // mem_init: frames are free or pinned, no address space exists, swap is unused.
  ghost predicate Boot(s: State) {
    && |s.data| == |s.count|
    && (forall f :: 0 <= f < |s.count| ==> s.count[f] == if f in s.pinned then USED else 0)
    && |s.swapMap| == NR_SWAP_SLOTS && |s.swapData| == NR_SWAP_SLOTS
    && (forall z :: 0 <= z < |s.swapMap| ==> !s.swapMap[z])
    && |s.spaces| == NR_TASKS && (forall k :: 0 <= k < |s.spaces| ==> s.spaces[k].None?)
    && s.kernel == multiset{} && s.flights == map[]
  }

  lemma BootInv(s: State)
    requires Boot(s)
    ensures Inv(s)
  {
    forall f | 0 <= f < |s.count| ensures FrameBalanced(s, f) {
      NoSpaces(s.spaces, Frame(f), f);
    }
    forall z | 0 <= z < |s.swapMap| ensures SlotBalanced(s, z) {
      NoSpaces(s.spaces, Slot(z), 0);
    }
  }

  lemma {:induction false} RunKeepsInv(s: State, ops: seq<Op>)
    requires Inv(s) && Legal(s, ops)
    ensures Inv(Run(s, ops))
    ensures |Run(s, ops).count| == |s.count| && Run(s, ops).pinned == s.pinned
    decreases |ops|
  {
    if ops != [] {
      StepKeepsInv(s, ops[0]);
      RunKeepsInv(Apply(s, ops[0]), ops[1..]);
    }
  }

  /** Frame accounting over every run from boot, in every interleaving: an unreserved
      frame's mem_map count is the number of page-table references plus other holders,
      it never exceeds the number of address spaces and so never reaches USED, and a
      slot is in use exactly when one entry or one write under way owns it. */
  lemma AccountingIsExact(s: State, ops: seq<Op>, f: nat, z: nat)
    requires Boot(s) && Legal(s, ops)
    requires f < |s.count| && f !in s.pinned && z < NR_SWAP_SLOTS
    ensures var t := Run(s, ops);
            && |t.count| == |s.count| && |t.swapMap| == NR_SWAP_SLOTS
            && t.count[f] == Refs(t.spaces, Frame(f)) + TableRefs(t.spaces, f) + t.kernel[f]
            && t.count[f] <= NR_TASKS < USED
            && One(t.swapMap[z]) == Refs(t.spaces, Slot(z)) + One(z in t.flights)
  {
    BootInv(s);
    RunKeepsInv(s, ops);
    var t := Run(s, ops);
    assert FrameBalanced(t, f);
    assert SlotBalanced(t, z);
    ShareBound(t.spaces, f);
  }
}
