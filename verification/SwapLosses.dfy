/** Windows of a swap-out in which something goes wrong: a store that the copy misses, a page that
    leaves and comes back into its frame, and a frame that another task borrows while the driver
    is reading it. */
module SwapLosses {
  import opened Layout
  import opened PageEntry
  import opened Executable
  import opened FrameRefs
  import opened Paging
  import opened CopyOnWrite
  import opened SwapWindow

  // The driver sends n sectors without anybody else running.
  function Sending(z: nat, n: nat): seq<Op> {
    seq(n, _ => SendSector(z))
  }

  // Only the sectors sent and their number have changed.
  ghost predicate OnlySent(s: State, t: State, z: nat, n: nat) {
    && z in s.flights && z < |s.swapData| && s.flights[z].pte.Present? && s.flights[z].pte.frame < |s.data|
    && |t.swapData| == |s.swapData|
    && (forall y: nat :: y < |s.swapData| && y != z ==> t.swapData[y] == s.swapData[y])
    && var fl := s.flights[z];
       && t == s.(swapData := t.swapData, flights := s.flights[z := fl.(sent := fl.sent + n)])
       && forall o :: 0 <= o < PAGE_SIZE ==>
            t.swapData[z][o] == if fl.sent <= o / SECTOR < fl.sent + n then
              s.data[fl.pte.frame][o] else s.swapData[z][o]
  }

  lemma {:induction false} SendsLead(s: State, z: nat, n: nat) returns (t: State)
    requires z in s.flights && z < |s.swapData| && s.flights[z].pte.Present? && s.flights[z].pte.frame < |s.data|
    requires s.flights[z].sent + n <= SECTORS
    ensures Leads(s, Sending(z, n), t) && OnlySent(s, t, z, n)
    decreases n
  {
    if n == 0 {
      t := s;
    } else {
      var u := SendsLead(s, z, n - 1);
      SendsOneMore(s, u, z, n - 1);
      hide Enabled, Apply;
      t := Apply(u, SendSector(z));
      LeadsStep(s, Sending(z, n - 1), u, SendSector(z));
      assert Sending(z, n - 1) + [SendSector(z)] == Sending(z, n);
    }
  }

  lemma SendsOneMore(s: State, u: State, z: nat, n: nat)
    requires OnlySent(s, u, z, n) && s.flights[z].sent + n < SECTORS
    ensures Enabled(u, SendSector(z)) && OnlySent(s, Apply(u, SendSector(z)), z, n + 1)
  {
  }

  // ---------------------------------------------------------------------
  // A store behind the copy
  // ---------------------------------------------------------------------

  function StoreBehind(k: nat, i: nat, z: nat, off: nat, b: Byte, n: nat): seq<Op>
    requires n <= SECTORS
  {
    Sending(z, n) + [Store(k, i, off, b)] + Sending(z, SECTORS - n) + [ClearAccessed(k, i)]
  }

  lemma BeginsOut(s: State, k: nat, i: nat, z: nat)
    requires Inv(s) && CanBeginSwap(s, k, i, z)
    ensures var u := BeginSwapOf(s, k, i, z);
            && Entry(s, k, i).frame < |s.data| && |u.data| == |s.data| && |u.count| == |s.count| == |s.data|
            && z in u.flights && z < |u.swapData| && z < |u.swapMap|
            && u.flights[z] == Flight(k, i, s.spaces[k].value.dir, Entry(s, k, i), 0)
            && PrivateAt(u, k, i) && Entry(u, k, i).rw && u.count[Entry(s, k, i).frame] == 1
  {
    assert EntryOk(s, Entry(s, k, i));
    PrivateCount(s, k, i);
  }

  // The entry is as noted and the copy is complete: the slot's bytes come back.
  lemma SlotComesBack(t: State, k: nat, i: nat, z: nat, fl: Flight)
    requires z in t.flights && t.flights[z] == fl && fl.k == k && fl.i == i && fl.sent == SECTORS
    requires InBounds(t, k, i) && Entry(t, k, i) == fl.pte && fl.pte.Present? && t.spaces[k].value.dir == fl.dir
    requires z < |t.swapMap| && z < |t.swapData|
    ensures CanEndSwap(t, z) && InBounds(EndSwapOf(t, z), k, i) && PageAt(EndSwapOf(t, z), k, i) == t.swapData[z]
  {
  }

  // The page was dirty but not accessed; its owner stores to a sector that has been sent, and
  // another task's first round takes the Accessed bit away again.
  lemma ClearedAgain(s: State, k: nat, i: nat, z: nat, off: nat, b: Byte, n: nat)
    requires Inv(s) && CanBeginSwap(s, k, i, z) && off < PAGE_SIZE && off / SECTOR < n <= SECTORS
    requires Entry(s, k, i).dirty && !Entry(s, k, i).accessed && PageAt(s, k, i)[off] != b
    ensures var u, ops := BeginSwapOf(s, k, i, z), StoreBehind(k, i, z, off, b, n);
            && Legal(u, ops) && CanEndSwap(Run(u, ops), z) && InBounds(EndSwapOf(Run(u, ops), z), k, i)
            && PageAt(EndSwapOf(Run(u, ops), z), k, i)[off] != b
  {
    BeginsOut(s, k, i, z);
    var u := BeginSwapOf(s, k, i, z);
    hide BeginSwapOf, Inv;
    var u1 := SendsLead(u, z, n);
    var store, clear := Store(k, i, off, b), ClearAccessed(k, i);
    var u2 := Apply(u1, store);
    LeadsStep(u, Sending(z, n), u1, store);
    var u3 := SendsLead(u2, z, SECTORS - n);
    LeadsConcat(u, Sending(z, n) + [store], u2, Sending(z, SECTORS - n), u3);
    var u4 := Apply(u3, clear);
    LeadsStep(u, Sending(z, n) + [store] + Sending(z, SECTORS - n), u3, clear);
    assert u4.swapData[z][off] == PageAt(s, k, i)[off];
    SlotComesBack(u4, k, i, z, u4.flights[z]);
  }

  // ---------------------------------------------------------------------
  // A page that comes back into its frame
  // ---------------------------------------------------------------------

  function OutAndBack(k: nat, i: nat, z: nat, y: nat, f: nat, off: nat, b: Byte): seq<Op> {
    Sending(z, SECTORS) + [Store(k, i, off, b)] + [BeginSwap(k, i, y)] + Sending(y, SECTORS) +
    [EndSwap(y)] + [Alloc(f)] + [SwapIn(k, i, f)]
  }

  // A page whose only mapping is (k, i) goes out through slot y and comes back into frame f.
  lemma GoesAndReturns(s: State, k: nat, i: nat, y: nat, f: nat) returns (t: State)
    requires CanBeginSwap(s, k, i, y) && Entry(s, k, i).frame == f && |s.count| == |s.data| && s.count[f] == 1
    ensures Leads(s, [BeginSwap(k, i, y)] + Sending(y, SECTORS) + [EndSwap(y)] + [Alloc(f)] + [SwapIn(k, i, f)], t)
    ensures InBounds(t, k, i) && Entry(t, k, i) == Present(f, true, false, false, false) && t.data[f] == s.data[f]
    ensures t.spaces[k].value.dir == s.spaces[k].value.dir && |t.swapMap| == |s.swapMap| && |t.swapData| == |s.swapData|
    ensures forall z: nat :: z < |s.swapData| && z != y ==> t.swapData[z] == s.swapData[z]
    ensures forall z: nat :: z in s.flights ==> z in t.flights && t.flights[z] == s.flights[z]
  {
    var u1 := Apply(s, BeginSwap(k, i, y));
    LeadsStep(s, [], s, BeginSwap(k, i, y));
    assert [] + [BeginSwap(k, i, y)] == [BeginSwap(k, i, y)];
    var u2 := SendsLead(u1, y, SECTORS);
    LeadsConcat(s, [BeginSwap(k, i, y)], u1, Sending(y, SECTORS), u2);
    GoesOut(s, k, i, y, f, u1, u2);
    var u3 := Apply(u2, EndSwap(y));
    LeadsStep(s, [BeginSwap(k, i, y)] + Sending(y, SECTORS), u2, EndSwap(y));
    hide Apply, Enabled;
    ComesBack(u3, k, i, y, f);
    var u4 := Apply(u3, Alloc(f));
    LeadsStep(s, [BeginSwap(k, i, y)] + Sending(y, SECTORS) + [EndSwap(y)], u3, Alloc(f));
    t := Apply(u4, SwapIn(k, i, f));
    LeadsStep(s, [BeginSwap(k, i, y)] + Sending(y, SECTORS) + [EndSwap(y)] + [Alloc(f)], u4, SwapIn(k, i, f));
  }

  lemma GoesOut(s: State, k: nat, i: nat, y: nat, f: nat, u1: State, u2: State)
    requires CanBeginSwap(s, k, i, y) && Entry(s, k, i).frame == f && |s.count| == |s.data| && s.count[f] == 1
    requires u1 == BeginSwapOf(s, k, i, y) && OnlySent(u1, u2, y, SECTORS)
    ensures Enabled(u2, EndSwap(y))
    ensures var t := Apply(u2, EndSwap(y));
            && InBounds(t, k, i) && Entry(t, k, i) == Swapped(y) && t.spaces[k].value.dir == s.spaces[k].value.dir
            && |t.count| == |s.count| && t.count[f] == 0 && t.data == s.data && |t.swapMap| == |s.swapMap|
            && |t.swapData| == |s.swapData| && t.swapData[y] == s.data[f] && t.flights == s.flights
            && forall z: nat :: z < |s.swapData| && z != y ==> t.swapData[z] == s.swapData[z]
  {
    assert StillThere(u2, u2.flights[y]);
    assert u2.swapData[y] == s.data[f];
    assert u2.flights - {y} == s.flights;
  }

  // The page comes back into a free frame.
  lemma ComesBack(s: State, k: nat, i: nat, y: nat, f: nat)
    requires InBounds(s, k, i) && Entry(s, k, i) == Swapped(y) && f < |s.count| && f < |s.data| && s.count[f] == 0
    ensures Enabled(s, Alloc(f)) && Enabled(Apply(s, Alloc(f)), SwapIn(k, i, f))
    ensures var t := Apply(Apply(s, Alloc(f)), SwapIn(k, i, f));
            && InBounds(t, k, i) && Entry(t, k, i) == Present(f, true, false, false, false)
            && t.spaces[k].value.dir == s.spaces[k].value.dir
            && t.data[f] == s.swapData[y] && t.swapData == s.swapData && t.flights == s.flights
            && |t.swapMap| == |s.swapMap|
  {
  }

  /** Without the frame kept, even clean bits do not help: a page neither accessed nor dirty is
      copied, stored to, goes out through another slot, and comes back into the same frame with
      its bits clear.  The first swap-out then finds its entry as noted and puts the old copy
      back. */
  lemma RemappedIsMissed(s: State, k: nat, i: nat, z: nat, y: nat, off: nat, b: Byte)
    requires Inv(s) && CanBeginSwap(s, k, i, z) && CanBeginSwap(s, k, i, y) && y != z && off < PAGE_SIZE
    requires !Entry(s, k, i).dirty && !Entry(s, k, i).accessed
    ensures var u, ops := BeginSwapOf(s, k, i, z), OutAndBack(k, i, z, y, Entry(s, k, i).frame, off, b);
            && Legal(u, ops) && InBounds(Run(u, ops), k, i) && PageAt(Run(u, ops), k, i)[off] == b
            && CanEndSwap(Run(u, ops), z) && InBounds(EndSwapOf(Run(u, ops), z), k, i)
            && PageAt(EndSwapOf(Run(u, ops), z), k, i) == PageAt(s, k, i)
  {
    BeginsOut(s, k, i, z);
    var f, u := Entry(s, k, i).frame, BeginSwapOf(s, k, i, z);
    assert CanBeginSwap(u, k, i, y);
    hide BeginSwapOf, Inv;
    var u1 := SendsLead(u, z, SECTORS);
    var u2 := Apply(u1, Store(k, i, off, b));
    LeadsStep(u, Sending(z, SECTORS), u1, Store(k, i, off, b));
    assert u2.swapData[z] == s.data[f] && u2.data[f][off] == b;
    assert CanBeginSwap(u2, k, i, y);
    hide Enabled, Apply, OnlySent;
    var t := GoesAndReturns(u2, k, i, y, f);
    var first, last := Sending(z, SECTORS) + [Store(k, i, off, b)],
                       [BeginSwap(k, i, y)] + Sending(y, SECTORS) + [EndSwap(y)] + [Alloc(f)] + [SwapIn(k, i, f)];
    LeadsConcat(u, first, u2, last, t);
    assert first + last == OutAndBack(k, i, z, y, f, off, b);
    SlotComesBack(t, k, i, z, t.flights[z]);
  }

  // ---------------------------------------------------------------------
  // A frame that is lent
  // ---------------------------------------------------------------------

  // A page of zeros is dropped and its frame is taken for another page.
  function Lending(k: nat, i: nat, l: nat, j: nat, f: nat): seq<Op> {
    [DropZero(k, i)] + [Alloc(f)] + [MapFresh(l, j, f)]
  }

  // The frame is fresh zeros, mapped at (k, i) alone, in a page that is backed by zeros.
  predicate ZeroMapped(s: State, k: nat, i: nat, f: nat) {
    && PrivateAt(s, k, i) && Entry(s, k, i).frame == f && |s.count| == |s.data| && s.count[f] == 1
    && s.data[f] == ZeroPage()
  }

  predicate ZeroMissing(s: State, k: nat, i: nat) {
    InBounds(s, k, i) && Entry(s, k, i).Empty? && ZeroBacked(s, k, i)
  }

  predicate ZeroBacked(s: State, k: nat, i: nat) {
    ValidAt(s.spaces, k, i) && UserPageOk(i) && Backing(s.spaces[k].value.exe, i) == ZeroPage()
  }

  // The writes under way, swap and the page directories are as they were.
  ghost predicate SameOutside(s: State, t: State) {
    && t.flights == s.flights && t.swapData == s.swapData && t.swapMap == s.swapMap && |t.spaces| == |s.spaces|
    && |t.data| == |s.data|
    && forall k :: 0 <= k < |s.spaces| ==>
         && t.spaces[k].Some? == s.spaces[k].Some?
         && (s.spaces[k].Some? ==>
               && t.spaces[k].value.dir == s.spaces[k].value.dir && t.spaces[k].value.exe == s.spaces[k].value.exe
               && |t.spaces[k].value.entries| == |s.spaces[k].value.entries|)
  }

  // The three steps that lend a frame: dropped, taken, mapped.
  lemma Dropped(s: State, k: nat, i: nat, l: nat, j: nat, f: nat)
    requires ZeroMapped(s, k, i, f) && ZeroMissing(s, l, j) && (k != l || i != j)
    ensures Enabled(s, DropZero(k, i))
    ensures var t := Apply(s, DropZero(k, i));
            && SameOutside(s, t) && ZeroMissing(t, l, j) && InBounds(t, k, i) && Entry(t, k, i).Empty?
            && |t.count| == |t.data| && f < |t.count| && t.count[f] == 0
  {
  }

  lemma Lent(s: State, k: nat, i: nat, l: nat, j: nat, f: nat)
    requires ZeroMissing(s, l, j) && InBounds(s, k, i) && Entry(s, k, i).Empty? && (k != l || i != j)
    requires InHand(s, f) && |s.count| == |s.data| && s.count[f] == 1 && s.data[f] == ZeroPage()
    ensures Enabled(s, MapFresh(l, j, f))
    ensures var t := Apply(s, MapFresh(l, j, f));
            && SameOutside(s, t) && ZeroMapped(t, l, j, f) && Entry(t, l, j) == Present(f, true, false, false, false)
            && InBounds(t, k, i) && Entry(t, k, i).Empty?
  {
  }

  lemma Lends(s: State, k: nat, i: nat, l: nat, j: nat, f: nat) returns (t: State)
    requires ZeroMapped(s, k, i, f) && ZeroMissing(s, l, j) && (k != l || i != j)
    ensures Leads(s, Lending(k, i, l, j, f), t) && SameOutside(s, t)
    ensures ZeroMapped(t, l, j, f) && Entry(t, l, j) == Present(f, true, false, false, false)
    ensures InBounds(t, k, i) && Entry(t, k, i).Empty?
  {
    Dropped(s, k, i, l, j, f);
    var u1 := Apply(s, DropZero(k, i));
    LeadsStep(s, [], s, DropZero(k, i));
    assert [] + [DropZero(k, i)] == [DropZero(k, i)];
    hide Unmap, MapFreshOf, ZeroPage, ZeroBacked;
    var u2 := Apply(u1, Alloc(f));
    LeadsStep(s, [DropZero(k, i)], u1, Alloc(f));
    Lent(u2, k, i, l, j, f);
    t := Apply(u2, MapFresh(l, j, f));
    LeadsStep(s, [DropZero(k, i)] + [Alloc(f)], u2, MapFresh(l, j, f));
  }

  // The borrower writes a byte, the driver sends the frame, the borrower takes the byte back.
  // A store through the frame changes that byte and the bits of the entry.
  lemma Stores(s: State, l: nat, j: nat, f: nat, off: nat, b: Byte)
    requires PrivateAt(s, l, j) && Entry(s, l, j).frame == f && Entry(s, l, j).rw && off < PAGE_SIZE
    ensures Enabled(s, Store(l, j, off, b))
    ensures var t := Apply(s, Store(l, j, off, b));
            && SameOutside(s, t) && t.count == s.count && t.data == s.data[f := s.data[f][off := b]]
            && PrivateAt(t, l, j) && Entry(t, l, j).frame == f && Entry(t, l, j).rw
            && forall k: nat, i: nat :: InBounds(s, k, i) && Entry(s, k, i).Empty? ==>
                 InBounds(t, k, i) && Entry(t, k, i).Empty?
  {
  }

  lemma SentWhileLent(s: State, l: nat, j: nat, f: nat, z: nat, off: nat, b: Byte) returns (t: State)
    requires ZeroMapped(s, l, j, f) && Entry(s, l, j).rw && off < PAGE_SIZE
    requires z in s.flights && z < |s.swapData| && s.flights[z].pte.Present? && s.flights[z].pte.frame == f
    requires s.flights[z].sent == 0
    ensures Leads(s, [Store(l, j, off, b)] + Sending(z, SECTORS) + [Store(l, j, off, 0)], t)
    ensures ZeroMapped(t, l, j, f) && z < |t.swapData| && t.swapData[z][off] == b
    ensures t.flights == s.flights[z := s.flights[z].(sent := SECTORS)]
    ensures SameOutside(s.(flights := t.flights, swapData := t.swapData), t)
    ensures forall k: nat, i: nat :: InBounds(s, k, i) && Entry(s, k, i).Empty? ==>
              InBounds(t, k, i) && Entry(t, k, i).Empty?
  {
    hide Apply, Enabled;
    Stores(s, l, j, f, off, b);
    var u1 := Apply(s, Store(l, j, off, b));
    LeadsStep(s, [], s, Store(l, j, off, b));
    assert [] + [Store(l, j, off, b)] == [Store(l, j, off, b)];
    var u2 := SendsLead(u1, z, SECTORS);
    LeadsConcat(s, [Store(l, j, off, b)], u1, Sending(z, SECTORS), u2);
    Stores(u2, l, j, f, off, 0);
    t := Apply(u2, Store(l, j, off, 0));
    LeadsStep(s, [Store(l, j, off, b)] + Sending(z, SECTORS), u2, Store(l, j, off, 0));
    assert t.data[f] == ZeroPage();
  }

  function Borrowing(k: nat, i: nat, l: nat, j: nat, f: nat, z: nat, off: nat, b: Byte): seq<Op> {
    Lending(k, i, l, j, f) + ([Store(l, j, off, b)] + Sending(z, SECTORS) + [Store(l, j, off, 0)]) +
    Lending(l, j, k, i, f)
  }

  /** A page of zeros is being written out when another task's reclaim drops it and takes the frame.
      The driver sends what the borrower has in it, the frame goes back to the page as fresh zeros,
      and the second look finds the entry as it was noted: the page of (k, i), to which nobody has
      stored, now holds the borrower's byte. */
  lemma BorrowedFrame(s: State, k: nat, i: nat, z: nat, l: nat, j: nat, off: nat, b: Byte)
    requires Inv(s) && CanBeginSwap(s, k, i, z) && off < PAGE_SIZE && (k != l || i != j)
    requires Entry(s, k, i) == Present(Entry(s, k, i).frame, true, false, false, false)
    requires PageAt(s, k, i) == ZeroPage() && ZeroBacked(s, k, i) && ZeroMissing(s, l, j)
    ensures var u, ops := BeginSwapOf(s, k, i, z), Borrowing(k, i, l, j, Entry(s, k, i).frame, z, off, b);
            && Legal(u, ops) && InBounds(Run(u, ops), k, i) && PageAt(Run(u, ops), k, i) == ZeroPage()
            && CanEndSwap(Run(u, ops), z) && InBounds(EndSwapOf(Run(u, ops), z), k, i)
            && PageAt(EndSwapOf(Run(u, ops), z), k, i)[off] == b
  {
    BeginsOut(s, k, i, z);
    var f, u := Entry(s, k, i).frame, BeginSwapOf(s, k, i, z);
    assert ZeroMapped(u, k, i, f) && ZeroMissing(u, l, j) && ZeroBacked(u, k, i);
    hide BeginSwapOf, Inv, Backing;
    var u1 := Lends(u, k, i, l, j, f);
    var u2 := SentWhileLent(u1, l, j, f, z, off, b);
    assert ZeroMissing(u2, k, i);
    var t := Lends(u2, l, j, k, i, f);
    var a, c, d := Lending(k, i, l, j, f), [Store(l, j, off, b)] + Sending(z, SECTORS) + [Store(l, j, off, 0)],
                   Lending(l, j, k, i, f);
    LeadsConcat(u, a, u1, c, u2);
    LeadsConcat(u, a + c, u2, d, t);
    hide Lending, Sending, Leads;
    SlotComesBack(t, k, i, z, t.flights[z]);
  }
}
