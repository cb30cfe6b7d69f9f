/** Page-table entries.  The kernel works on 32-bit words (section 4.3 of the
    Intel SDM volume 3A plus two software bits, include/linux/mm.h:19-32); the
    paging model works on the values those words stand for. */
module PageEntry {

  datatype Pte =
    | Empty
    | Present(frame: nat, rw: bool, cow: bool, accessed: bool, dirty: bool)
    | Swapped(slot: nat)

  // The bits of an entry word: PTE_PRESENT 0x001, PTE_RW 0x002, PTE_USER 0x004,
  // PTE_ACCESSED 0x020, the CPU's Dirty bit 0x040, PTE_COW 0x200, PTE_SWAPPED 0x800,
  // and the address field in the upper twenty bits.
  datatype Fields = Fields(present: bool, rw: bool, user: bool, accessed: bool, dirty: bool, cow: bool,
                           swapped: bool, address: bv32)

  function FieldsOf(w: bv32): Fields {
    Fields(w & 0x001 != 0, w & 0x002 != 0, w & 0x004 != 0, w & 0x020 != 0, w & 0x040 != 0, w & 0x200 != 0,
           w & 0x800 != 0, w >> 12)
  }

  // How an address field numbers a frame (MAP_NR) or a swap slot (PTE_SWAP_SLOT).
  type Numbering = bv32 -> nat

  function Value(f: Fields, num: Numbering): Pte {
    if f.present then Present(num(f.address), f.rw, f.cow, f.accessed, f.dirty)
    else if f.swapped then Swapped(num(f.address))
    else Empty
  }

  // alloc_user_page and map_user_page: a fresh private mapping of the page at pa.
  lemma MapWord(pa: bv32, num: Numbering)
    requires pa & 0xFFFF_F000 == pa
    ensures Value(FieldsOf(pa | 0x001 | 0x002 | 0x004), num) == Present(num(pa >> 12), true, false, false, false)
  {
  }

  // copy_page_tables: the word both sides of a fork are left with.
  lemma ShareWord(w: bv32, num: Numbering)
    requires Value(FieldsOf(w), num).Present?
    ensures Value(FieldsOf((w & !0x002) | 0x200), num) == Value(FieldsOf(w), num).(rw := false, cow := true)
  {
  }

  // try_to_free_page: the word of a page that went to swap.
  lemma SwapWord(slot: bv32, num: Numbering)
    requires slot < 512
    ensures Value(FieldsOf(0x800 | (slot << 12)), num) == Swapped(num(slot))
  {
  }

  // The reclaimer's second chance clears Accessed and nothing else.
  lemma SecondChanceWord(w: bv32, num: Numbering)
    requires Value(FieldsOf(w), num).Present?
    ensures Value(FieldsOf(w & !0x020), num) == Value(FieldsOf(w), num).(accessed := false)
  {
  }

  // The words the kernel and the CPU store: no bit outside the ones above is set, a
  // mapping is a user mapping, and the word of a swapped page holds nothing else.
  predicate Canonical(w: bv32) {
    if w & 0x001 != 0 then w & 0xD98 == 0 && w & 0x004 != 0
    else if w & 0x800 != 0 then w & 0xFFF == 0x800
    else w == 0
  }

  /** Comparing two stored words, as the re-validation after a swap-out does,
      compares the values they stand for. */
  lemma WordsCompareAsValues(w: bv32, v: bv32, num: Numbering)
    requires Canonical(w) && Canonical(v)
    requires forall x, y :: num(x) == num(y) ==> x == y
    ensures w == v <==> Value(FieldsOf(w), num) == Value(FieldsOf(v), num)
  {
  }
}
