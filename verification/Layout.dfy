/** Constants of the user window and the bytes and pages it is made of
    (include/memlayout.h, include/linux/mm.h). */
module Layout {

  const PAGE_SIZE: nat := 4096
  const WORD: nat := 0x1_0000_0000

  const USER_BASE: nat := 0x0800_0000
  const USER_PROG_START: nat := USER_BASE
  const USER_PROG_END: nat := USER_BASE + 0x10_0000
  const USER_HEAP_START: nat := USER_BASE + 0x10_0000
  const USER_HEAP_END: nat := USER_BASE + 0x20_0000
  const USER_STACK_FLOOR: nat := USER_BASE + 0x30_0000
  const USER_STACK_TOP: nat := USER_BASE + 0x3F_F000
  const USER_WINDOW_TOP: nat := USER_BASE + 0x40_0000

  const NR_TASKS: nat := 64

  // One page table covers the whole user window.
  const PT_ENTRIES: nat := 1024

  datatype Option<+T> = None | Some(value: T)

  type Byte = b: int | 0 <= b < 256

  type Page = p: seq<Byte> | |p| == PAGE_SIZE witness seq(PAGE_SIZE, _ => 0)

  function ZeroPage(): (p: Page)
    ensures forall k :: 0 <= k < PAGE_SIZE ==> p[k] == 0
  {
    seq(PAGE_SIZE, _ => 0)
  }

  // A zeroed page whose first bytes have been overwritten.
  function Fill(bytes: seq<Byte>): (p: Page)
    requires |bytes| <= PAGE_SIZE
    ensures forall k :: 0 <= k < PAGE_SIZE ==> p[k] == if k < |bytes| then bytes[k] else 0
  {
    bytes + ZeroPage()[|bytes|..]
  }

  // For counting.
  function One(b: bool): nat {
    if b then 1 else 0
  }

  // Sum of two 32-bit words as the CPU computes it.
  function Add32(a: nat, b: nat): (r: nat)
    ensures a + b < WORD ==> r == a + b
  {
    (a + b) % WORD
  }
}
