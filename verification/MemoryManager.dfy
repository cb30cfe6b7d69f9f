/** mm/memory.c as an object that updates mem_map, swap_map and the page tables in
    place.  Every method is tied to the paging machine: it names the operations it
    performed and the operations other tasks performed while it slept. */
module MemoryManager {
  import opened Layout
  import opened PageEntry
  import opened Executable
  import opened FrameRefs
  import opened Paging
  import opened CopyOnWrite
  import opened Reclaim
  import opened SwapWindow

  // An operation that does not act for one of the address spaces in `mine`.  Reclaim may
  // pick any page of any task, so it is foreign to everybody.
  predicate Foreign(op: Op, mine: set<nat>) {
    match op
    case Store(k, _, _, _) => k !in mine
    case Touch(k, _) => k !in mine
    case MapFresh(k, _, _) => k !in mine
    case SwapIn(k, _, _) => k !in mine
    case BreakCow(k, _, _) => k !in mine
    case ShareEntry(p, c, _) => p !in mine && c !in mine
    case NewSpace(k, _, _, _) => k !in mine
    case DropSpace(k) => k !in mine
    case _ => true
  }

  predicate AllForeign(ops: seq<Op>, mine: set<nat>) {
    forall n :: 0 <= n < |ops| ==> Foreign(ops[n], mine)
  }

  // ops lead from s to t, and none of them acts for `mine`.
  ghost predicate Did(s: State, ops: seq<Op>, t: State, mine: set<nat>) {
    Leads(s, ops, t) && AllForeign(ops, mine)
  }

  lemma DidConcat(s: State, ops: seq<Op>, t: State, more: seq<Op>, u: State, mine: set<nat>)
    requires Did(s, ops, t, mine) && Did(t, more, u, mine)
    ensures Did(s, ops + more, u, mine)
  {
    LeadsConcat(s, ops, t, more, u);
  }

  lemma DidNothing(s: State, mine: set<nat>)
    ensures Did(s, [], s, mine)
  {
  }

  lemma DidOne(s: State, op: Op, mine: set<nat>)
    requires Enabled(s, op) && Foreign(op, mine)
    ensures Did(s, [op], Apply(s, op), mine)
  {
    LeadsStep(s, [], s, op);
    assert [] + [op] == [op];
  }

  // What became of one entry the reclaimer looked at.
  datatype Scan = Next | Freed | GaveUp

  class Memory {
    var memMap: array<nat>
    var data: seq<Page>
    var swapMap: array<bool>
    var swapData: seq<Page>
    var spaces: Spaces
    var evictCursor: nat
    ghost var kernel: multiset<nat>
    ghost var flights: map<nat, Flight>
    ghost var pinned: set<nat>

    ghost function St(): State
      reads this, memMap, swapMap
    {
      State(memMap[..], data, swapMap[..], swapData, spaces, kernel, flights, pinned)
    }

    ghost predicate Valid()
      reads this, memMap, swapMap
    {
      Inv(St())
    }

    // mem_init and swap_init: every frame but the reserved ones is free, and every slot.
    constructor (ram: seq<Page>, reserved: set<nat>, swap: seq<Page>)
      requires |swap| == NR_SWAP_SLOTS
      ensures Boot(St()) && Settled(St()) && data == ram && pinned == reserved && swapData == swap
      ensures fresh(memMap) && fresh(swapMap)
    {
      memMap := new nat[|ram|](f => if f in reserved then USED else 0);
      swapMap := new bool[NR_SWAP_SLOTS](_ => false);
      data, swapData, spaces, evictCursor := ram, swap, seq(NR_TASKS, _ => None), 0;
      kernel, flights, pinned := multiset{}, map[], reserved;
      new;
      SettledFromBoot(St(), []);
    }

    // get_free_page's scan for a frame nobody uses.
    method FindFree() returns (r: Option<nat>)
      ensures r.Some? ==> r.value < memMap.Length && memMap[r.value] == 0
      ensures r.Some? ==> forall j :: 0 <= j < r.value ==> memMap[j] != 0
      ensures r.None? ==> forall j :: 0 <= j < memMap.Length ==> memMap[j] != 0
    {
      var i := 0;
      while i < memMap.Length
        invariant 0 <= i <= memMap.Length
        invariant forall j :: 0 <= j < i ==> memMap[j] != 0
      {
        if memMap[i] == 0 {
          return Some(i);
        }
        i := i + 1;
      }
      r := None;
    }

    // Mark a free frame used and clear it.
    method Take(f: nat)
      requires Valid() && f < memMap.Length && memMap[f] == 0
      modifies this, memMap
      ensures Valid() && memMap == old(memMap) && swapMap == old(swapMap)
      ensures Enabled(old(St()), Alloc(f)) && St() == Apply(old(St()), Alloc(f))
    {
      StepKeepsInv(St(), Alloc(f));
      memMap[f] := 1;
      data := data[f := ZeroPage()];
      kernel := kernel + multiset{f};
      assert memMap[..] == old(memMap[..])[f := 1];
    }

    // free_page on a frame of the map.
    method FreePage(f: nat)
      requires f < memMap.Length
      modifies memMap
      ensures memMap[..] == FreeFrame(old(memMap[..]), f)
    {
      if memMap[f] == 0 || memMap[f] >= USED {
        return;
      }
      memMap[f] := memMap[f] - 1;
      assert memMap[..] == FreeFrame(old(memMap[..]), f);
    }

    // swap_alloc_slot's scan.
    method FindSlot() returns (r: Option<nat>)
      ensures r.Some? ==> r.value < swapMap.Length && !swapMap[r.value] && forall j :: 0 <= j < r.value ==> swapMap[j]
      ensures r.None? ==> forall j :: 0 <= j < swapMap.Length ==> swapMap[j]
    {
      var i := 0;
      while i < swapMap.Length
        invariant 0 <= i <= swapMap.Length
        invariant forall j :: 0 <= j < i ==> swapMap[j]
      {
        if !swapMap[i] {
          return Some(i);
        }
        i := i + 1;
      }
      r := None;
    }

    // Clear entry (k, i) and give back what it named.
    method DropEntry(k: nat, i: nat)
      requires Valid() && InBounds(St(), k, i)
      modifies this, memMap, swapMap
      ensures Valid() && memMap == old(memMap) && swapMap == old(swapMap)
      ensures St() == Unmap(old(St()), k, i)
    {
      UnmapKeepsInv(St(), k, i);
      var e := EntryAt(spaces, k, i);
      match e {
        case Empty =>
        case Present(f, _, _, _, _) =>
          spaces := SetEntry(spaces, k, i, Empty);
          FreePage(f);
        case Swapped(z) =>
          spaces := SetEntry(spaces, k, i, Empty);
          swapMap[z] := false;
          assert swapMap[..] == old(swapMap[..])[z := false];
      }
    }

    // schedule(): other tasks run.  They do not act for the caller, and they leave alone
    // the frames the caller has in hand and the slot it is writing.
    method Sleep(ghost mine: set<nat>, ghost hand: multiset<nat>, ghost z: nat) returns (ghost ops: seq<Op>)
      requires Valid() && hand <= kernel && z in flights
      modifies this, memMap, swapMap
      ensures Valid() && memMap == old(memMap) && swapMap == old(swapMap)
      ensures Did(old(St()), ops, St(), mine)
      ensures hand <= kernel && z in flights && flights[z] == old(flights[z])
    {
      ops := [];
      DidNothing(St(), mine);
    }

    // Some frame is free.
    ghost predicate HasFree()
      reads this, memMap
    {
      exists f :: 0 <= f < memMap.Length && memMap[f] == 0
    }

    // swap_alloc_slot, and what the reclaimer notes before the write.
    method StartSwap(k: nat, i: nat, z: nat)
      requires Valid() && PrivateAt(St(), k, i) && z < swapMap.Length && !swapMap[z]
      modifies this, swapMap
      ensures Valid() && memMap == old(memMap) && swapMap == old(swapMap) && kernel == old(kernel)
      ensures Enabled(old(St()), BeginSwap(k, i, z)) && St() == Apply(old(St()), BeginSwap(k, i, z))
      ensures z in flights && flights[z] == Flight(k, i, old(spaces[k].value.dir), old(EntryAt(spaces, k, i)), 0)
    {
      assert SlotBalanced(St(), z);
      BeginSwapKeepsInv(St(), k, i, z);
      swapMap[z] := true;
      flights := flights[z := Flight(k, i, spaces[k].value.dir, EntryAt(spaces, k, i), 0)];
      assert swapMap[..] == old(swapMap[..])[z := true];
    }

    // outsl: sector n of the frame goes to the slot.
    method SendSectorTo(z: nat, f: nat, n: nat)
      requires Valid() && z in flights && n < SECTORS && flights[z].sent == n
      requires flights[z].pte.Present? && flights[z].pte.frame == f
      modifies `swapData, `flights
      ensures Valid() && Enabled(old(St()), SendSector(z)) && St() == Apply(old(St()), SendSector(z))
      ensures z in flights && flights[z] == old(flights[z]).(sent := n + 1)
    {
      SendSectorKeepsInv(St(), z);
      swapData := swapData[z := CopySector(swapData[z], data[f], n)];
      flights := flights[z := flights[z].(sent := n + 1)];
    }

    // hd_write_sectors: before each sector, and once more at the end, the driver may sleep, and
    // the drive may fail.
    method WriteSectors(z: nat, f: nat, ghost mine: set<nat>, ghost hand: multiset<nat>)
      returns (ok: bool, ghost ops: seq<Op>)
      requires Valid() && hand <= kernel && z in flights && flights[z].sent == 0
      requires flights[z].pte.Present? && flights[z].pte.frame == f
      modifies this, memMap, swapMap
      ensures Valid() && memMap == old(memMap) && swapMap == old(swapMap) && hand <= kernel
      ensures Did(old(St()), ops, St(), mine)
      ensures z in flights && flights[z] == old(flights[z]).(sent := flights[z].sent)
      ensures ok ==> flights[z].sent == SECTORS
    {
      ops := [];
      DidNothing(St(), mine);
      var n := 0;
      while n < SECTORS
        invariant n <= SECTORS && Valid() && memMap == old(memMap) && swapMap == old(swapMap) && hand <= kernel
        invariant z in flights && flights[z] == old(flights[z]).(sent := n) && Did(old(St()), ops, St(), mine)
      {
        ok, ops := AwaitDrive(z, old(St()), ops, mine, hand);
        if !ok {
          return;
        }
        ghost var s := St();
        SendSectorTo(z, f, n);
        DidOne(s, SendSector(z), mine);
        DidConcat(old(St()), ops, s, [SendSector(z)], St(), mine);
        ops := ops + [SendSector(z)];
        n := n + 1;
      }
      ok, ops := AwaitDrive(z, old(St()), ops, mine, hand);
    }

    // hd_wait_bits: others run until the drive is ready or has failed.
    method AwaitDrive(z: nat, ghost s: State, ghost before: seq<Op>, ghost mine: set<nat>, ghost hand: multiset<nat>)
      returns (ok: bool, ghost ops: seq<Op>)
      requires Valid() && hand <= kernel && z in flights && Did(s, before, St(), mine)
      modifies this, memMap, swapMap
      ensures Valid() && memMap == old(memMap) && swapMap == old(swapMap) && hand <= kernel
      ensures z in flights && flights[z] == old(flights[z]) && Did(s, ops, St(), mine)
    {
      ok := *;
      ghost var t := St();
      ghost var others := Sleep(mine, hand, z);
      DidConcat(s, before, t, others, St(), mine);
      ops := before + others;
    }

    // swap_free_slot after a failed write.
    method CancelWrite(z: nat)
      requires Valid() && z in flights
      modifies `flights, swapMap
      ensures Valid() && memMap == old(memMap) && swapMap == old(swapMap) && kernel == old(kernel)
      ensures Enabled(old(St()), CancelSwap(z)) && St() == Apply(old(St()), CancelSwap(z))
    {
      GiveUpSlotKeepsInv(St(), z);
      swapMap[z] := false;
      flights := flights - {z};
      assert swapMap[..] == old(swapMap[..])[z := false];
    }

    // The second half: take the page away if directory and entry are what they were.
    method FinishSwap(k: nat, i: nat, z: nat, dirBefore: nat, pteBefore: Pte) returns (r: Scan)
      requires Valid() && z in flights && flights[z] == Flight(k, i, dirBefore, pteBefore, SECTORS)
      modifies this, memMap, swapMap
      ensures Valid() && memMap == old(memMap) && swapMap == old(swapMap) && kernel == old(kernel)
      ensures Enabled(old(St()), EndSwap(z)) && St() == Apply(old(St()), EndSwap(z))
      ensures r == if old(StillThere(St(), flights[z])) then Freed else GaveUp
      ensures r == Freed ==> HasFree()
    {
      ghost var s := St();
      EndSwapEnabled(s, z);
      EndSwapKeepsInv(s, z);
      if !ValidAt(spaces, k, i) || spaces[k].value.dir != dirBefore || EntryAt(spaces, k, i) != pteBefore {
        swapMap[z] := false;
        flights := flights - {z};
        assert swapMap[..] == old(swapMap[..])[z := false];
        return GaveUp;
      }
      PrivateCount(s, k, i);
      DropEntry(k, i);
      assert memMap[pteBefore.frame] == 0;
      spaces := SetEntry(spaces, k, i, Swapped(z));
      flights := flights - {z};
      r := Freed;
    }

    // Pass 2 of the reclaimer on one private page: write it out while others run, look again.
    method SwapOut(k: nat, i: nat, ghost mine: set<nat>, ghost hand: multiset<nat>)
      returns (r: Scan, ghost ops: seq<Op>)
      requires Valid() && hand <= kernel && PrivateAt(St(), k, i)
      modifies this, memMap, swapMap
      ensures Valid() && memMap == old(memMap) && swapMap == old(swapMap) && hand <= kernel
      ensures Did(old(St()), ops, St(), mine)
      ensures r == Next ==> |spaces| == |old(spaces)| && spaces[k].Some?
      ensures r == Freed ==> HasFree()
    {
      var slot := FindSlot();
      if slot.None? {
        DidNothing(St(), mine);
        return Next, [];
      }
      var z := slot.value;
      var dirBefore := spaces[k].value.dir;
      var pteBefore := EntryAt(spaces, k, i);
      ghost var s0 := St();
      StartSwap(k, i, z);
      ghost var s1 := St();
      var ok;
      ghost var others;
      ok, others := WriteSectors(z, pteBefore.frame, mine, hand);
      ghost var s2 := St();
      if ok {
        r := FinishSwap(k, i, z, dirBefore, pteBefore);
        ops := Around(s0, BeginSwap(k, i, z), s1, others, s2, EndSwap(z), mine);
      } else {
        CancelWrite(z);
        ops := Around(s0, BeginSwap(k, i, z), s1, others, s2, CancelSwap(z), mine);
        r := if spaces[k].Some? && spaces[k].value.dir == dirBefore then Next else GaveUp;
      }
    }

    // page_is_zero: the words of the frame, one after the other.
    method PageIsZero(f: nat) returns (r: bool)
      requires f < |data|
      ensures r <==> data[f] == ZeroPage()
    {
      var i := 0;
      while i < PAGE_SIZE
        invariant 0 <= i <= PAGE_SIZE
        invariant forall j :: 0 <= j < i ==> data[f][j] == 0
      {
        if data[f][i] != 0 {
          return false;
        }
        i := i + 1;
      }
      r := true;
    }

    // The reclaimer looks at one present entry.  `shared` says it may serve as fallback.
    method TryEntry(round: nat, pass: nat, k: nat, i: nat, ghost mine: set<nat>, ghost hand: multiset<nat>)
      returns (r: Scan, shared: bool, ghost ops: seq<Op>)
      requires Valid() && hand <= kernel && PresentAt(St(), k, i)
      modifies this, memMap, swapMap
      ensures Valid() && memMap == old(memMap) && swapMap == old(swapMap) && hand <= kernel
      ensures Did(old(St()), ops, St(), mine)
      ensures r == Next ==> |spaces| == |old(spaces)| && spaces[k].Some?
      ensures r == Freed ==> HasFree()
    {
      ghost var s := St();
      var e := EntryAt(spaces, k, i);
      shared := false;
      if round == 0 && e.accessed {
        AccessedKeepsInv(s, k, i, false);
        spaces := SetEntry(spaces, k, i, e.(accessed := false));
        DidOne(s, ClearAccessed(k, i), mine);
        return Next, false, [ClearAccessed(k, i)];
      }
      if e.cow {
        DidNothing(s, mine);
        return Next, true, [];
      }
      if pass == 0 {
        var zero := PageIsZero(e.frame);
        if zero {
          PrivateCount(s, k, i);
          DropEntry(k, i);
          DidOne(s, DropZero(k, i), mine);
          assert memMap[e.frame] == 0;
          return Freed, false, [DropZero(k, i)];
        }
      }
      if pass == 1 && IsCleanText(spaces[k].value.exe, PageAddress(i)) {
        PrivateCount(s, k, i);
        DropEntry(k, i);
        DidOne(s, DropText(k, i), mine);
        assert memMap[e.frame] == 0;
        return Freed, false, [DropText(k, i)];
      }
      if pass == 2 {
        r, ops := SwapOut(k, i, mine, hand);
        return r, false, ops;
      }
      DidNothing(s, mine);
      return Next, false, [];
    }

    // The scan of one page table in one pass.
    method ScanTable(round: nat, pass: nat, k: nat, ghost mine: set<nat>, ghost hand: multiset<nat>)
      returns (r: Scan, shared: Option<nat>, ghost ops: seq<Op>)
      requires Valid() && hand <= kernel && k < |spaces| && spaces[k].Some?
      modifies this, memMap, swapMap
      ensures Valid() && memMap == old(memMap) && swapMap == old(swapMap) && hand <= kernel
      ensures Did(old(St()), ops, St(), mine)
      ensures r == Freed ==> HasFree()
    {
      r, shared, ops := Next, None, [];
      DidNothing(St(), mine);
      var i := 0;
      while i < PT_ENTRIES
        invariant 0 <= i <= PT_ENTRIES
        invariant Valid() && memMap == old(memMap) && swapMap == old(swapMap) && hand <= kernel
        invariant k < |spaces| && spaces[k].Some?
        invariant Did(old(St()), ops, St(), mine)
      {
        if EntryAt(spaces, k, i).Present? {
          ghost var s := St();
          ValidIsInBounds(s, k, i);
          var s0, found;
          ghost var more;
          s0, found, more := TryEntry(round, pass, k, i, mine, hand);
          DidConcat(old(St()), ops, s, more, St(), mine);
          ops := ops + more;
          if s0 != Next {
            return s0, shared, ops;
          }
          if found && shared.None? {
            shared := Some(i);
          }
        }
        i := i + 1;
      }
    }

    // try_to_free_page up to its fallback: two rounds of three passes over all tasks,
    // starting after the last victim.  When nothing was freed, `fallback` is the shared
    // entry that would be unmapped.
    method TryToFreePage(ghost mine: set<nat>, ghost hand: multiset<nat>)
      returns (freed: bool, fallback: Option<(nat, nat)>, ghost ops: seq<Op>)
      requires Valid() && hand <= kernel
      modifies this, memMap, swapMap
      ensures Valid() && memMap == old(memMap) && swapMap == old(swapMap) && hand <= kernel
      ensures Did(old(St()), ops, St(), mine)
      ensures freed ==> HasFree()
    {
      freed, fallback, ops := false, None, [];
      DidNothing(St(), mine);
      var turn := 0;
      while turn < 2 * 3 * NR_TASKS
        invariant 0 <= turn <= 2 * 3 * NR_TASKS
        invariant Valid() && memMap == old(memMap) && swapMap == old(swapMap) && hand <= kernel
        invariant Did(old(St()), ops, St(), mine)
      {
        var round, pass, n := turn / (3 * NR_TASKS), turn / NR_TASKS % 3, turn % NR_TASKS;
        var k := (evictCursor + n) % NR_TASKS;
        if spaces[k].Some? {
          ghost var s := St();
          var r, shared;
          ghost var more;
          r, shared, more := ScanTable(round, pass, k, mine, hand);
          DidConcat(old(St()), ops, s, more, St(), mine);
          ops := ops + more;
          if r == Freed {
            evictCursor := (evictCursor + n + 1) % NR_TASKS;
            return true, None, ops;
          }
          if r == GaveUp {
            return false, None, ops;
          }
          if fallback.None? && shared.Some? {
            fallback := Some((k, shared.value));
          }
        }
        turn := turn + 1;
      }
    }

    method Claim(f: nat, ghost mine: set<nat>)
      requires Valid() && f < memMap.Length && memMap[f] == 0
      modifies this, memMap
      ensures Valid() && memMap == old(memMap) && swapMap == old(swapMap)
      ensures Did(old(St()), [Alloc(f)], St(), mine)
      ensures kernel == old(kernel) + multiset{f} && f < |data| && data[f] == ZeroPage()
    {
      DidOne(St(), Alloc(f), mine);
      Take(f);
    }

    // get_free_page, with a COW unmap counted as failure.  A successful reclaim always
    // leaves a free frame, so it is never retried.
    method GetFreePage(ghost mine: set<nat>, ghost hand: multiset<nat>)
      returns (f: Option<nat>, ghost ops: seq<Op>)
      requires Valid() && hand <= kernel
      modifies this, memMap, swapMap
      ensures Valid() && memMap == old(memMap) && swapMap == old(swapMap) && hand <= kernel
      ensures Did(old(St()), ops, St(), mine)
      ensures f.Some? ==> hand + multiset{f.value} <= kernel
      ensures f.Some? ==> InHand(St(), f.value) && data[f.value] == ZeroPage()
      ensures old(HasFree()) ==> f.Some?
    {
      f := FindFree();
      ops := [];
      DidNothing(St(), mine);
      if f.None? {
        var freed, fallback;
        freed, fallback, ops := TryToFreePage(mine, hand);
        if !freed {
          return None, ops;
        }
        f := FindFree();
      }
      ghost var s := St();
      Claim(f.value, mine);
      DidConcat(old(St()), ops, s, [Alloc(f.value)], St(), mine);
      ops := ops + [Alloc(f.value)];
    }

    // free_page by the kernel for a frame it has in hand.
    method PutBack(f: nat)
      requires Valid() && InHand(St(), f)
      modifies this, memMap
      ensures Valid() && memMap == old(memMap) && swapMap == old(swapMap)
      ensures St() == Apply(old(St()), Release(f))
    {
      ReleaseKeepsInv(St(), f);
      FreePage(f);
      kernel := kernel - multiset{f};
    }

    // Make frames d and t, both in hand, the tables of a new address space for slot k.
    method InstallTables(k: nat, d: nat, t: nat, exe: Exe)
      requires Valid() && Enabled(St(), NewSpace(k, d, t, exe))
      modifies this
      ensures Valid() && memMap == old(memMap) && swapMap == old(swapMap)
      ensures St() == Apply(old(St()), NewSpace(k, d, t, exe))
      ensures kernel == old(kernel) - multiset{d, t}
      ensures k < |spaces| && spaces[k] == Some(Space(d, t, EmptyTable(), exe))
    {
      NewSpaceKeepsInv(St(), k, d, t, exe);
      spaces := spaces[k := Some(Space(d, t, EmptyTable(), exe))];
      kernel := kernel - multiset{d, t};
    }

    // Two frames in hand, or none.
    method GetTwoPages(ghost mine: set<nat>, ghost hand: multiset<nat>)
      returns (r: Option<(nat, nat)>, ghost ops: seq<Op>)
      requires Valid() && hand <= kernel
      modifies this, memMap, swapMap
      ensures Valid() && memMap == old(memMap) && swapMap == old(swapMap) && hand <= kernel
      ensures Did(old(St()), ops, St(), mine)
      ensures r.Some? ==> hand + multiset{r.value.0, r.value.1} <= kernel
      ensures r.Some? ==> InHand(St(), r.value.0) && InHand(St(), r.value.1)
    {
      hide Inv, Legal, Run;
      var d, t;
      ghost var s0 := St();
      d, ops := GetFreePage(mine, hand);
      if d.None? {
        return None, ops;
      }
      ghost var s1 := St();
      ghost var more;
      t, more := GetFreePage(mine, hand + multiset{d.value});
      ghost var s2 := St();
      DidConcat(s0, ops, s1, more, s2, mine);
      ops := ops + more;
      if t.None? {
        GiveUp(s0, ops, mine, hand, d.value);
        return None, ops + [Release(d.value)];
      }
      assert multiset{d.value, t.value} == multiset{d.value} + multiset{t.value};
      HeldInBounds(s2, d.value);
      r := Some((d.value, t.value));
    }

    // A page in hand goes back after all.
    method GiveUp(ghost s0: State, ghost ops: seq<Op>, ghost mine: set<nat>, ghost hand: multiset<nat>, f: nat)
      requires Valid() && hand + multiset{f} <= kernel && Did(s0, ops, St(), mine)
      modifies this, memMap
      ensures Valid() && memMap == old(memMap) && swapMap == old(swapMap) && hand <= kernel
      ensures Did(s0, ops + [Release(f)], St(), mine)
    {
      hide Inv, Legal, Run;
      ghost var s2 := St();
      HeldInBounds(s2, f);
      PutBack(f);
      DidOne(s2, Release(f), mine);
      DidConcat(s0, ops, s2, [Release(f)], St(), mine);
    }

    // alloc_user_pgdir for task slot k.
    method AllocUserPgdir(k: nat, exe: Exe, ghost hand: multiset<nat>) returns (ok: bool, ghost ops: seq<Op>)
      requires Valid() && hand <= kernel && k < |spaces| && spaces[k].None?
      modifies this, memMap, swapMap
      ensures Valid() && memMap == old(memMap) && swapMap == old(swapMap) && hand <= kernel
      ensures Leads(old(St()), ops, St())
      ensures ok ==> k < |spaces| && spaces[k].Some?
      ensures ok ==> spaces[k].value.entries == EmptyTable() && spaces[k].value.exe == exe
    {
      var two;
      ghost var s0 := St();
      two, ops := GetTwoPages({k}, hand);
      ghost var s1 := St();
      if two.None? {
        return false, ops;
      }
      var (d, t) := two.value;
      StaysAbsent(s0, ops, {k}, k);
      assert Enabled(s1, NewSpace(k, d, t, exe));
      InstallTables(k, d, t, exe);
      LeadsStep(s0, ops, s1, NewSpace(k, d, t, exe));
      ops := ops + [NewSpace(k, d, t, exe)];
      ok := true;
    }

    // Put frame f, in hand, into the empty entry (k, i).
    method MapUserPage(k: nat, i: nat, f: nat)
      requires Valid() && InBounds(St(), k, i) && EntryAt(spaces, k, i).Empty? && InHand(St(), f)
      modifies this
      ensures Valid() && memMap == old(memMap) && swapMap == old(swapMap)
      ensures St() == MapFrame(old(St()), k, i, f)
    {
      MapFrameKeepsInv(St(), k, i, f);
      spaces := SetEntry(spaces, k, i, Present(f, true, false, false, false));
      kernel := kernel - multiset{f};
    }

    // Fill a frame in hand.
    method FillFrame(f: nat, p: Page)
      requires Valid() && InHand(St(), f)
      modifies this`data
      ensures Valid() && St() == SetData(old(St()), f, p)
    {
      SameBooks(St(), SetData(St(), f, p));
      data := data[f := p];
    }

    // swap_in_page and the mapping that follows it, for a frame in hand.
    method BringBack(k: nat, i: nat, f: nat)
      requires Valid() && CanSwapIn(St(), k, i, f)
      modifies this, memMap, swapMap
      ensures Valid() && memMap == old(memMap) && swapMap == old(swapMap)
      ensures St() == SwapInOf(old(St()), k, i, f)
      ensures PresentAt(St(), k, i) && EntryAt(spaces, k, i).rw
    {
      FillFrame(f, swapData[EntryAt(spaces, k, i).slot]);
      DropEntry(k, i);
      MapUserPage(k, i, f);
      ValidIsInBounds(St(), k, i);
    }

    // The copy un_wp_page makes into a frame in hand.
    method CopyShare(k: nat, i: nat, f: nat)
      requires Valid() && CanBreakCow(St(), k, i, f)
      modifies this, memMap, swapMap
      ensures Valid() && memMap == old(memMap) && swapMap == old(swapMap)
      ensures St() == BreakCowOf(old(St()), k, i, f)
      ensures PresentAt(St(), k, i) && EntryAt(spaces, k, i).rw
    {
      FillFrame(f, data[EntryAt(spaces, k, i).frame]);
      DropEntry(k, i);
      MapUserPage(k, i, f);
      ValidIsInBounds(St(), k, i);
    }

    // page_in_image, or nothing for heap and stack, into a frame in hand.
    method FillFresh(k: nat, i: nat, f: nat)
      requires Valid() && CanMapFresh(St(), k, i, f)
      modifies this
      ensures Valid() && memMap == old(memMap) && swapMap == old(swapMap)
      ensures St() == MapFreshOf(old(St()), k, i, f)
      ensures PresentAt(St(), k, i) && EntryAt(spaces, k, i).rw
    {
      FillFrame(f, Backing(spaces[k].value.exe, i));
      MapUserPage(k, i, f);
      ValidIsInBounds(St(), k, i);
    }

    // un_wp_page: a private copy of the shared page (k, i).
    method UnWpPage(k: nat, i: nat, ghost hand: multiset<nat>) returns (ok: bool, ghost ops: seq<Op>)
      requires Valid() && hand <= kernel && PresentAt(St(), k, i) && EntryAt(spaces, k, i).cow
      modifies this, memMap, swapMap
      ensures Valid() && memMap == old(memMap) && swapMap == old(swapMap)
      ensures Leads(old(St()), ops, St()) && AllSparePage(ops, k, i)
      ensures ok ==> PresentAt(St(), k, i) && EntryAt(spaces, k, i).rw
    {
      ghost var s0 := St();
      var f;
      f, ops := GetFreePage({k}, hand);
      ghost var s1 := St();
      AfterSleep(s0, ops, s1, k, i);
      if f.None? {
        return false, ops;
      }
      CopyShare(k, i, f.value);
      ops := ThenOwn(s0, ops, s1, BreakCow(k, i, f.value), k, i);
      ok := true;
    }

    // The not-present half of do_no_page: a page on swap, or a page touched for the
    // first time or again after it was dropped.
    method PageIn(k: nat, i: nat, ghost hand: multiset<nat>) returns (ok: bool, ghost ops: seq<Op>)
      requires Valid() && hand <= kernel && InBounds(St(), k, i) && !EntryAt(spaces, k, i).Present? && UserPageOk(i)
      modifies this, memMap, swapMap
      ensures Valid() && memMap == old(memMap) && swapMap == old(swapMap)
      ensures Leads(old(St()), ops, St()) && AllSparePage(ops, k, i)
      ensures ok ==> PresentAt(St(), k, i) && EntryAt(spaces, k, i).rw
    {
      ghost var s0 := St();
      var f;
      f, ops := GetFreePage({k}, hand);
      ghost var s1 := St();
      AfterSleep(s0, ops, s1, k, i);
      if f.None? {
        return false, ops;
      }
      ok := true;
      if EntryAt(spaces, k, i).Swapped? {
        BringBack(k, i, f.value);
        ops := ThenOwn(s0, ops, s1, SwapIn(k, i, f.value), k, i);
      } else {
        FillFresh(k, i, f.value);
        ops := ThenOwn(s0, ops, s1, MapFresh(k, i, f.value), k, i);
      }
    }

    /** do_no_page on page i of task k.  Either the task is killed, for a bad address, a
        store to a page that is not shared or for want of memory, or the access can be
        retried; if nobody stored to text or to a page being written out meanwhile, the page
        holds what it held. */
    method DoNoPage(k: nat, i: nat, present: bool, write: bool, ghost hand: multiset<nat>)
      returns (killed: bool, ghost ops: seq<Op>)
      requires Valid() && hand <= kernel && InBounds(St(), k, i)
      requires present == EntryAt(spaces, k, i).Present?
      modifies this, memMap, swapMap
      ensures Valid() && memMap == old(memMap) && swapMap == old(swapMap)
      ensures Leads(old(St()), ops, St()) && AllSparePage(ops, k, i)
      ensures !killed ==> PresentAt(St(), k, i) && EntryAt(spaces, k, i).rw
      ensures !killed && old(Settled(St())) && HonestRun(old(St()), ops) ==>
              PageAt(St(), k, i) == old(PageAt(St(), k, i))
      ensures present && !(write && old(EntryAt(spaces, k, i)).cow) ==> killed
      ensures !present && !UserPageOk(i) ==> killed
    {
      ops := [];
      killed := true;
      var ok := false;
      if present {
        if write && EntryAt(spaces, k, i).cow {
          ok, ops := UnWpPage(k, i, hand);
        }
      } else if UserPageOk(i) {
        ok, ops := PageIn(k, i, hand);
      }
      killed := !ok;
      if old(Settled(St())) && HonestRun(old(St()), ops) {
        SettledRunIsFaithful(old(St()), ops);
        PageKept(old(St()), ops, k, i);
      }
    }

    // free_user_space: every entry given back, then the table, then the directory.
    method FreeUserSpace(k: nat)
      requires Valid() && CanDropSpace(St(), k)
      modifies this, memMap, swapMap
      ensures Valid() && memMap == old(memMap) && swapMap == old(swapMap)
      ensures St() == DropSpaceOf(old(St()), k)
    {
      ghost var s := St();
      DropSpaceKeepsInv(s, k);
      var dir, table := spaces[k].value.dir, spaces[k].value.table;
      var i := 0;
      while i < PT_ENTRIES
        invariant 0 <= i <= PT_ENTRIES
        invariant Valid() && memMap == old(memMap) && swapMap == old(swapMap)
        invariant St() == UnmapBelow(s, k, i)
      {
        assert InBounds(s, k, i);
        DropEntry(k, i);
        i := i + 1;
      }
      FreePage(table);
      FreePage(dir);
      spaces := spaces[k := None];
    }

    // One turn of copy_page_tables for an entry that is in memory or missing.
    method ShareOne(p: nat, c: nat, i: nat) returns (shared: bool)
      requires Valid() && CanShareEntry(St(), p, c, i)
      modifies this, memMap
      ensures Valid() && memMap == old(memMap) && swapMap == old(swapMap) && kernel == old(kernel)
      ensures St() == ShareEntryOf(old(St()), p, c, i)
      ensures shared == old(EntryAt(spaces, p, i)).Present?
    {
      ShareEntryKeepsInv(St(), p, c, i);
      var e := EntryAt(spaces, p, i);
      if !e.Present? {
        return false;
      }
      var n := memMap[e.frame];
      if n < USED {
        memMap[e.frame] := n + 1;
        assert memMap[..] == old(memMap[..])[e.frame := n + 1];
      }
      spaces := SetEntry(spaces, p, i, e.(rw := false, cow := true));
      spaces := SetEntry(spaces, c, i, e.(rw := false, cow := true));
      shared := true;
    }

    // One turn of copy_page_tables, with the swap-in it may need first.
    method ForkOne(p: nat, c: nat, i: nat, ghost hand: multiset<nat>)
      returns (ok: bool, shared: bool, ghost ops: seq<Op>)
      requires Valid() && hand <= kernel && i < PT_ENTRIES && ForkReady(St(), p, c, i)
      modifies this, memMap, swapMap
      ensures Valid() && memMap == old(memMap) && swapMap == old(swapMap)
      ensures ForkTrace(old(St()), ops, St(), p, c)
      ensures ok ==> hand <= kernel && ForkReady(St(), p, c, i + 1) && ShareEntry(p, c, i) in ops
    {
      hide Inv, Legal, Run;
      ghost var s0 := St();
      ops := [];
      shared := false;
      ForkNothing(s0, p, c);
      if EntryAt(spaces, p, i).Swapped? {
        ok, ops := ForkSwapIn(p, c, i, hand);
        if !ok {
          return false, false, ops;
        }
      }
      ghost var s2 := St();
      ReadyToShare(s2, p, c, i);
      shared := ShareOne(p, c, i);
      ForkStep(s0, ops, s2, ShareEntry(p, c, i), p, c);
      ops := ops + [ShareEntry(p, c, i)];
      ok := true;
    }

    // The parent's entry i is out on swap: it is brought back before it is shared.
    method ForkSwapIn(p: nat, c: nat, i: nat, ghost hand: multiset<nat>) returns (ok: bool, ghost ops: seq<Op>)
      requires Valid() && hand <= kernel && i < PT_ENTRIES && ForkReady(St(), p, c, i) && EntryAt(spaces, p, i).Swapped?
      modifies this, memMap, swapMap
      ensures Valid() && memMap == old(memMap) && swapMap == old(swapMap) && hand <= kernel
      ensures ForkTrace(old(St()), ops, St(), p, c)
      ensures ok ==> ForkReady(St(), p, c, i) && !Entry(St(), p, i).Swapped?
    {
      hide Inv, Legal, Run;
      ghost var s0 := St();
      ForkNothing(s0, p, c);
      var f;
      f, ops := GetFreePage({p, c}, hand);
      ghost var s1 := St();
      ForkStaysReady(s0, ops, s1, p, c, i);
      ForkConcat(s0, [], s0, ops, s1, p, c);
      assert [] + ops == ops;
      if f.None? {
        return false, ops;
      }
      ValidIsInBounds(s1, p, i);
      BringBack(p, i, f.value);
      SwapInStaysReady(s1, p, c, i, f.value);
      ForkStep(s0, ops, s1, SwapIn(p, i, f.value), p, c);
      ops := ops + [SwapIn(p, i, f.value)];
      ok := true;
    }

    /** copy_page_tables.  It may sleep on any entry that is out on swap.  When it
        succeeds every entry has been shared, with nothing in between that stores to
        parent or child; when it fails half way the accounting still holds. */
    method CopyPageTables(p: nat, c: nat, ghost hand: multiset<nat>) returns (shared: int, ghost ops: seq<Op>)
      requires Valid() && hand <= kernel && p != c
      requires p < |spaces| && spaces[p].Some? && c < |spaces| && spaces[c].Some?
      requires spaces[p].value.exe == spaces[c].value.exe && spaces[c].value.entries == EmptyTable()
      modifies this, memMap, swapMap
      ensures Valid() && memMap == old(memMap) && swapMap == old(swapMap)
      ensures ForkTrace(old(St()), ops, St(), p, c)
      ensures shared >= 0 ==> forall i :: 0 <= i < PT_ENTRIES ==> ShareEntry(p, c, i) in ops
    {
      hide Inv, Legal, Run;
      ops := [];
      shared := 0;
      var i := 0;
      ghost var s0 := St();
      ForkStarts(s0, p, c);
      while i < PT_ENTRIES
        invariant 0 <= i <= PT_ENTRIES && shared >= 0
        invariant Valid() && memMap == old(memMap) && swapMap == old(swapMap) && hand <= kernel
        invariant ForkTrace(s0, ops, St(), p, c)
        invariant ForkReady(St(), p, c, i)
        invariant forall j :: 0 <= j < i ==> ShareEntry(p, c, j) in ops
      {
        ghost var s1 := St();
        var ok, one;
        ghost var more;
        ok, one, more := ForkOne(p, c, i, hand);
        ForkJoin(s0, ops, s1, more, St(), p, c);
        ops := ops + more;
        if !ok {
          return -1, ops;
        }
        shared := shared + (if one then 1 else 0);
        i := i + 1;
      }
    }
  }

  // A first operation, what others did, and a last operation, as one sequence.
  lemma Around(s0: State, first: Op, s1: State, others: seq<Op>, s2: State, last: Op, mine: set<nat>)
    returns (ops: seq<Op>)
    requires Enabled(s0, first) && s1 == Apply(s0, first)
    requires Did(s1, others, s2, mine)
    requires Enabled(s2, last)
    requires Foreign(first, mine) && Foreign(last, mine)
    ensures Did(s0, ops, Apply(s2, last), mine)
  {
    DidOne(s0, first, mine);
    DidConcat(s0, [first], s1, others, s2, mine);
    DidOne(s2, last, mine);
    DidConcat(s0, [first] + others, s2, [last], Apply(s2, last), mine);
    ops := [first] + others + [last];
  }

  // ---------------------------------------------------------------------
  // What other tasks leave alone
  // ---------------------------------------------------------------------

  // Reclaim only takes pages that are present and not shared.
  ghost predicate Undisturbed(s: State, t: State, k: nat, i: nat)
    requires ValidAt(s.spaces, k, i)
  {
    && ValidAt(t.spaces, k, i)
    && t.spaces[k].value.exe == s.spaces[k].value.exe
    && var e, e' := Entry(s, k, i), Entry(t, k, i);
       && (!e.Present? ==> e' == e)
       && (e.Present? && e.cow ==> e'.Present? && e'.cow && e'.frame == e.frame)
  }

  predicate Reclaims(op: Op) {
    op.ClearAccessed? || op.DropZero? || op.DropText? || op.EndSwap?
  }

  // Only reclaim reaches into an address space its task is not running in.
  lemma StepElsewhere(s: State, op: Op, mine: set<nat>, k: nat)
    requires Enabled(s, op) && Foreign(op, mine) && k in mine && k < |s.spaces| && !Reclaims(op)
    ensures |Apply(s, op).spaces| == |s.spaces| && Apply(s, op).spaces[k] == s.spaces[k]
  {
    match op
    case DropSpace(l) => assert OnlySpace(s, DropSpaceOf(s, l), l);
    case MapFresh(l, i, f) => assert OnlySpace(s, MapFreshOf(s, l, i, f), l);
    case SwapIn(l, i, f) => assert OnlySpace(s, SwapInOf(s, l, i, f), l);
    case BreakCow(l, i, f) => assert OnlySpace(s, BreakCowOf(s, l, i, f), l);
    case Store(l, i, off, b) => assert OnlySpace(s, StoreOf(s, l, i, off, b), l);
    case _ =>
  }

  lemma ReclaimUndisturbed(s: State, op: Op, k: nat, i: nat)
    requires Shape(s) && Enabled(s, op) && Reclaims(op) && ValidAt(s.spaces, k, i)
    ensures Undisturbed(s, Apply(s, op), k, i)
  {
  }

  lemma StepUndisturbed(s: State, op: Op, mine: set<nat>, k: nat, i: nat)
    requires Shape(s) && Enabled(s, op) && Foreign(op, mine) && k in mine && ValidAt(s.spaces, k, i)
    ensures Undisturbed(s, Apply(s, op), k, i)
  {
    if Reclaims(op) {
      ReclaimUndisturbed(s, op, k, i);
    } else {
      StepElsewhere(s, op, mine, k);
    }
  }

  // What a task finds in its own entry after waiting for a frame.
  lemma AfterSleep(s: State, ops: seq<Op>, t: State, k: nat, i: nat)
    requires Inv(s) && Inv(t) && Did(s, ops, t, {k}) && ValidAt(s.spaces, k, i)
    ensures Undisturbed(s, t, k, i) && InBounds(t, k, i)
    ensures AllSparePage(ops, k, i)
  {
    StaysPut(s, ops, {k}, k, i);
    ValidIsInBounds(t, k, i);
  }

  // Waiting for a frame, then one operation of the task's own.
  lemma ThenOwn(s: State, ops: seq<Op>, t: State, op: Op, k: nat, i: nat) returns (all: seq<Op>)
    requires Leads(s, ops, t) && AllSparePage(ops, k, i) && Enabled(t, op) && SparesPage(op, k, i)
    ensures Leads(s, all, Apply(t, op)) && AllSparePage(all, k, i)
  {
    LeadsStep(s, ops, t, op);
    all := ops + [op];
  }

  lemma {:induction false} StaysPut(s: State, ops: seq<Op>, mine: set<nat>, k: nat, i: nat)
    requires Inv(s) && Legal(s, ops) && AllForeign(ops, mine) && k in mine && ValidAt(s.spaces, k, i)
    ensures Undisturbed(s, Run(s, ops), k, i)
    ensures AllSparePage(ops, k, i)
    decreases |ops|
  {
    hide Enabled, Apply;
    if ops != [] {
      var t := Apply(s, ops[0]);
      StepKeepsInv(s, ops[0]);
      StepUndisturbed(s, ops[0], mine, k, i);
      StaysPut(t, ops[1..], mine, k, i);
    }
  }

  lemma StepAbsent(s: State, op: Op, mine: set<nat>, k: nat)
    requires Enabled(s, op) && Foreign(op, mine) && k in mine && k < |s.spaces| && s.spaces[k].None?
    ensures |Apply(s, op).spaces| == |s.spaces| && Apply(s, op).spaces[k].None?
  {
    if !Reclaims(op) {
      StepElsewhere(s, op, mine, k);
    }
  }

  lemma {:induction false} StaysAbsent(s: State, ops: seq<Op>, mine: set<nat>, k: nat)
    requires Legal(s, ops) && AllForeign(ops, mine) && k in mine && k < |s.spaces| && s.spaces[k].None?
    ensures |Run(s, ops).spaces| == |s.spaces| && Run(s, ops).spaces[k].None?
    decreases |ops|
  {
    if ops != [] {
      StepAbsent(s, ops[0], mine, k);
      StaysAbsent(Apply(s, ops[0]), ops[1..], mine, k);
    }
  }

  // ---------------------------------------------------------------------
  // Fork
  // ---------------------------------------------------------------------

  // Parent and child run the same image and the child's entries from i on are empty.
  ghost predicate ForkReady(s: State, p: nat, c: nat, i: nat) {
    && p != c && p < |s.spaces| && s.spaces[p].Some? && c < |s.spaces| && s.spaces[c].Some?
    && s.spaces[p].value.exe == s.spaces[c].value.exe
    && (forall j :: i <= j < PT_ENTRIES ==> ValidAt(s.spaces, p, j))
    && (forall j :: i <= j < PT_ENTRIES ==> ValidAt(s.spaces, c, j) && EntryAt(s.spaces, c, j).Empty?)
  }

  // ops lead from s to t without disturbing the fork of p into c.
  ghost predicate ForkTrace(s: State, ops: seq<Op>, t: State, p: nat, c: nat) {
    Leads(s, ops, t) && forall n :: 0 <= n < |ops| ==> ForkQuiet(ops[n], p, c)
  }

  lemma ForkConcat(s: State, ops: seq<Op>, t: State, more: seq<Op>, u: State, p: nat, c: nat)
    requires ForkTrace(s, ops, t, p, c) && Did(t, more, u, {p, c})
    ensures ForkTrace(s, ops + more, u, p, c)
  {
    LeadsConcat(s, ops, t, more, u);
    forall n | 0 <= n < |more| ensures ForkQuiet(more[n], p, c) {
      assert Foreign(more[n], {p, c});
    }
  }

  lemma ForkNothing(s: State, p: nat, c: nat)
    ensures ForkTrace(s, [], s, p, c)
  {
  }

  lemma ForkStarts(s: State, p: nat, c: nat)
    requires Inv(s) && p != c
    requires p < |s.spaces| && s.spaces[p].Some? && c < |s.spaces| && s.spaces[c].Some?
    requires s.spaces[p].value.exe == s.spaces[c].value.exe && s.spaces[c].value.entries == EmptyTable()
    ensures ForkReady(s, p, c, 0) && ForkTrace(s, [], s, p, c)
  {
  }

  lemma ForkJoin(s: State, ops: seq<Op>, t: State, more: seq<Op>, u: State, p: nat, c: nat)
    requires ForkTrace(s, ops, t, p, c) && ForkTrace(t, more, u, p, c)
    ensures ForkTrace(s, ops + more, u, p, c)
  {
    LeadsConcat(s, ops, t, more, u);
  }

  lemma ForkStep(s: State, ops: seq<Op>, t: State, op: Op, p: nat, c: nat)
    requires ForkTrace(s, ops, t, p, c) && Enabled(t, op) && ForkQuiet(op, p, c)
    ensures ForkTrace(s, ops + [op], Apply(t, op), p, c)
  {
    LeadsStep(s, ops, t, op);
  }

  lemma SwapInStaysReady(s: State, p: nat, c: nat, i: nat, f: nat)
    requires Inv(s) && ForkReady(s, p, c, i) && i < PT_ENTRIES && CanSwapIn(s, p, i, f)
    ensures ForkReady(SwapInOf(s, p, i, f), p, c, i)
    ensures Entry(SwapInOf(s, p, i, f), p, i).Present?
  {
  }

  lemma ForkStaysReady(s: State, ops: seq<Op>, t: State, p: nat, c: nat, i: nat)
    requires Inv(s) && Did(s, ops, t, {p, c}) && ForkReady(s, p, c, i) && i < PT_ENTRIES
    ensures ForkReady(t, p, c, i)
    ensures Entry(s, p, i).Swapped? ==> Entry(t, p, i) == Entry(s, p, i)
  {
    forall j | i <= j < PT_ENTRIES ensures ValidAt(t.spaces, p, j) {
      StaysPut(s, ops, {p, c}, p, j);
    }
    forall j | i <= j < PT_ENTRIES ensures ValidAt(t.spaces, c, j) && EntryAt(t.spaces, c, j).Empty? {
      StaysPut(s, ops, {p, c}, c, j);
    }
    StaysPut(s, ops, {p, c}, p, i);
    StaysPut(s, ops, {p, c}, c, i);
  }

  lemma ReadyToShare(s: State, p: nat, c: nat, i: nat)
    requires Inv(s) && ForkReady(s, p, c, i) && i < PT_ENTRIES && !Entry(s, p, i).Swapped?
    ensures CanShareEntry(s, p, c, i)
    ensures ForkReady(ShareEntryOf(s, p, c, i), p, c, i + 1)
  {
  }

  /** What copy_page_tables promises its caller: after a fork that shared every entry, the others
      being honest, each page of the child is the parent's page at fork. */
  lemma ForkedMemory(s: State, ops: seq<Op>, p: nat, c: nat, i: nat)
    requires Settled(s) && p != c && InBounds(s, p, i) && InBounds(s, c, i) && i < PT_ENTRIES
    requires Legal(s, ops) && HonestRun(s, ops) && ShareEntry(p, c, i) in ops
    requires forall n :: 0 <= n < |ops| ==> ForkQuiet(ops[n], p, c)
    ensures InBounds(Run(s, ops), c, i) ==> PageAt(Run(s, ops), c, i) == PageAt(s, p, i)
    ensures InBounds(Run(s, ops), p, i) ==> PageAt(Run(s, ops), p, i) == PageAt(s, p, i)
  {
    var a := ViewOf(s);
    SettledRunIsFaithful(s, ops);
    RunRefines(s, ops, a);
    ForkCopies(a, ops, p, c, i);
  }

  lemma HeldInBounds(s: State, f: nat)
    requires Inv(s) && f in s.kernel
    ensures InHand(s, f)
  {
  }

  lemma EndSwapEnabled(s: State, z: nat)
    requires Inv(s) && z in s.flights && s.flights[z].sent == SECTORS
    ensures CanEndSwap(s, z)
    ensures StillThere(s, s.flights[z]) ==> PrivateAt(s, s.flights[z].k, s.flights[z].i)
  {
  }
}
