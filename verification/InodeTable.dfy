/** The table of inodes in memory (fs/inode.c): slots are recycled when nobody holds them, by iget for
    another inode of the disk and by get_empty_inode for a pipe. */
module InodeTable {
  import opened Layout

  type Body = seq<Byte>

  // num 0: no inode of the disk.
  datatype Slot = Slot(num: nat, count: nat, dirt: bool, body: Body)

  datatype Table = Table(slots: seq<Slot>, disk: map<nat, Body>)

  function OnDisk(s: Table, nr: nat): Body {
    if nr in s.disk then s.disk[nr] else []
  }

  // The first slot from i on that has the inode, and the first that nobody holds; |slots| if none.
  function Holder(slots: seq<Slot>, nr: nat, i: nat): (r: nat)
    requires i <= |slots|
    ensures i <= r <= |slots| && (r < |slots| ==> slots[r].num == nr)
    ensures forall k :: i <= k < r ==> slots[k].num != nr
    decreases |slots| - i
  {
    if i == |slots| || slots[i].num == nr then i else Holder(slots, nr, i + 1)
  }

  function FirstIdle(slots: seq<Slot>, i: nat): (r: nat)
    requires i <= |slots|
    ensures i <= r <= |slots| && (r < |slots| ==> slots[r].count == 0)
    ensures forall k :: i <= k < r ==> slots[k].count != 0
    decreases |slots| - i
  {
    if i == |slots| || slots[i].count == 0 then i else FirstIdle(slots, i + 1)
  }

  // What inode nr is, wherever it is.
  function Contents(s: Table, nr: nat): Body {
    var i := Holder(s.slots, nr, 0);
    if i < |s.slots| then s.slots[i].body else OnDisk(s, nr)
  }

  // No inode is in memory twice, and one that is not dirty is as on the disk.
  ghost predicate Inv(s: Table) {
    && (forall i, j :: 0 <= i < j < |s.slots| && s.slots[i].num != 0 ==> s.slots[i].num != s.slots[j].num)
    && forall i :: 0 <= i < |s.slots| && s.slots[i].num != 0 && !s.slots[i].dirt ==>
         s.slots[i].body == OnDisk(s, s.slots[i].num)
  }

  // ---------------------------------------------------------------------
  // Operations
  // ---------------------------------------------------------------------

  datatype Op =
    | Get(nr: nat)                 // iget
    | Empty                        // get_empty_inode
    | Put(i: nat)                  // iput
    | Change(i: nat, body: Body)   // a holder changes the inode
    | Write(i: nat)                // write_inode

  predicate Enabled(s: Table, op: Op) {
    match op
    case Get(nr) => nr != 0
    case Empty => true
    case Put(i) => i < |s.slots| && s.slots[i].count > 0
    case Change(i, _) => i < |s.slots| && s.slots[i].count > 0
    case Write(i) => i < |s.slots|
  }

  function WriteOf(s: Table, i: nat): Table
    requires i < |s.slots|
  {
    var b := s.slots[i];
    if b.num == 0 || !b.dirt then s
    else s.(slots := s.slots[i := b.(dirt := false)], disk := s.disk[b.num := b.body])
  }

  function GetOf(s: Table, nr: nat): Table {
    var h := Holder(s.slots, nr, 0);
    if h < |s.slots| then s.(slots := s.slots[h := s.slots[h].(count := s.slots[h].count + 1)])
    else
      var i := FirstIdle(s.slots, 0);
      if i == |s.slots| then s
      else var w := WriteOf(s, i); w.(slots := w.slots[i := Slot(nr, 1, false, OnDisk(w, nr))])
  }

  function EmptyOf(s: Table): Table {
    var i := FirstIdle(s.slots, 0);
    if i == |s.slots| then s else s.(slots := s.slots[i := Slot(0, 1, false, [])])
  }

  function Apply(s: Table, op: Op): Table
    requires Enabled(s, op)
  {
    match op
    case Get(nr) => GetOf(s, nr)
    case Empty => EmptyOf(s)
    case Put(i) => s.(slots := s.slots[i := s.slots[i].(count := s.slots[i].count - 1)])
    case Change(i, body) => s.(slots := s.slots[i := s.slots[i].(dirt := true, body := body)])
    case Write(i) => WriteOf(s, i)
  }

  // ---------------------------------------------------------------------
  // What is kept
  // ---------------------------------------------------------------------

  lemma HolderIs(s: Table, i: nat)
    requires Inv(s) && i < |s.slots| && s.slots[i].num != 0
    ensures Holder(s.slots, s.slots[i].num, 0) == i
  {
  }

  lemma WriteKeeps(s: Table, i: nat)
    requires Inv(s) && i < |s.slots|
    ensures Inv(WriteOf(s, i)) && forall nr: nat :: nr != 0 ==> Contents(WriteOf(s, i), nr) == Contents(s, nr)
    ensures !WriteOf(s, i).slots[i].dirt || s.slots[i].num == 0
  {
    var w := WriteOf(s, i);
    forall nr: nat | nr != 0 ensures Contents(w, nr) == Contents(s, nr) {
      SameHolder(s.slots, w.slots, nr);
    }
  }

  lemma SameHolder(a: seq<Slot>, b: seq<Slot>, nr: nat)
    requires |a| == |b| && forall k :: 0 <= k < |a| ==> a[k].num == b[k].num
    ensures Holder(a, nr, 0) == Holder(b, nr, 0)
  {
  }

  // A slot that is clean can be given to another inode.
  lemma RecycleKeeps(s: Table, i: nat, nr: nat, count: nat)
    requires Inv(s) && i < |s.slots| && (s.slots[i].num == 0 || !s.slots[i].dirt)
    requires nr != 0 ==> Holder(s.slots, nr, 0) == |s.slots|
    ensures var t := s.(slots := s.slots[i := Slot(nr, count, false, if nr == 0 then [] else OnDisk(s, nr))]);
            Inv(t) && forall x: nat :: x != 0 ==> Contents(t, x) == Contents(s, x)
  {
    var t := s.(slots := s.slots[i := Slot(nr, count, false, if nr == 0 then [] else OnDisk(s, nr))]);
    forall k | 0 <= k < |s.slots| && nr != 0 ensures s.slots[k].num != nr {
      assert k < Holder(s.slots, nr, 0);
    }
    forall x: nat | x != 0 ensures Contents(t, x) == Contents(s, x) {
      var h, g := Holder(s.slots, x, 0), Holder(t.slots, x, 0);
      if h < |s.slots| && h != i {
        assert t.slots[h].num == x && g <= h;
      }
      if g < |s.slots| && g != i {
        assert s.slots[g].num == x && h <= g;
      }
    }
  }

  // iget changes no inode, whatever it recycles: it writes first.
  lemma GetKeeps(s: Table, nr: nat)
    requires Inv(s) && nr != 0
    ensures Inv(GetOf(s, nr)) && forall x: nat :: x != 0 ==> Contents(GetOf(s, nr), x) == Contents(s, x)
  {
    var h := Holder(s.slots, nr, 0);
    if h < |s.slots| {
      forall x: nat | x != 0 ensures Contents(GetOf(s, nr), x) == Contents(s, x) {
        SameHolder(s.slots, GetOf(s, nr).slots, x);
      }
    } else {
      var i := FirstIdle(s.slots, 0);
      if i < |s.slots| {
        WriteKeeps(s, i);
        var w := WriteOf(s, i);
        SameHolder(s.slots, w.slots, nr);
        hide Contents;
        RecycleKeeps(w, i, nr, 1);
      }
    }
  }

  // The slot a pipe would take has nothing that the disk has not.
  predicate Spares(s: Table) {
    var i := FirstIdle(s.slots, 0);
    i < |s.slots| && s.slots[i].num != 0 && s.slots[i].dirt ==> s.slots[i].body == OnDisk(s, s.slots[i].num)
  }

  /** get_empty_inode does not write: it changes no inode if and only if the slot it takes is clean, or
      dirty with what is on the disk anyway. */
  lemma EmptyKeepsIff(s: Table)
    requires Inv(s)
    ensures Inv(EmptyOf(s))
    ensures (forall x: nat :: x != 0 ==> Contents(EmptyOf(s), x) == Contents(s, x)) <==> Spares(s)
  {
    var i := FirstIdle(s.slots, 0);
    if i < |s.slots| {
      var b := s.slots[i];
      var clean := s.(slots :=
        s.slots[i := b.(dirt := false, body := if b.num == 0 then b.body else OnDisk(s, b.num))]);
      assert Inv(clean);
      RecycleKeeps(clean, i, 0, 1);
      assert EmptyOf(s) == clean.(slots := clean.slots[i := Slot(0, 1, false, [])]);
      if b.num != 0 {
        HolderIs(s, i);
        HolderIs(clean, i);
        assert Contents(EmptyOf(s), b.num) == OnDisk(s, b.num) && Contents(s, b.num) == b.body;
      }
      forall x: nat | x != 0 && x != b.num ensures Contents(clean, x) == Contents(s, x) {
        SameHolder(s.slots, clean.slots, x);
      }
    }
  }

  // ---------------------------------------------------------------------
  // Runs
  // ---------------------------------------------------------------------

  predicate Legal(s: Table, ops: seq<Op>)
    decreases |ops|
  {
    ops == [] || (Enabled(s, ops[0]) && Legal(Apply(s, ops[0]), ops[1..]))
  }

  function Run(s: Table, ops: seq<Op>): Table
    requires Legal(s, ops)
    decreases |ops|
  {
    if ops == [] then s else Run(Apply(s, ops[0]), ops[1..])
  }

  // No pipe is made over changes that are not on the disk.
  predicate AllSpare(s: Table, ops: seq<Op>)
    requires Legal(s, ops)
    decreases |ops|
  {
    ops == [] || ((ops[0].Empty? ==> Spares(s)) && AllSpare(Apply(s, ops[0]), ops[1..]))
  }

  // What inode nr should be: what it was, or the last change to it.
  function Intended(s: Table, ops: seq<Op>, nr: nat, body: Body): Body
    requires Legal(s, ops)
    decreases |ops|
  {
    if ops == [] then body
    else Intended(Apply(s, ops[0]), ops[1..], nr,
                  if ops[0].Change? && s.slots[ops[0].i].num == nr then ops[0].body else body)
  }

  lemma StepContents(s: Table, op: Op, nr: nat)
    requires Inv(s) && Enabled(s, op) && nr != 0 && (op.Empty? ==> Spares(s))
    ensures Inv(Apply(s, op))
    ensures Contents(Apply(s, op), nr) == if op.Change? && s.slots[op.i].num == nr then op.body else Contents(s, nr)
  {
    match op
    case Get(n) => GetKeeps(s, n);
    case Empty => EmptyKeepsIff(s);
    case Write(i) => WriteKeeps(s, i);
    case Put(i) => SameHolder(s.slots, Apply(s, op).slots, nr);
    case Change(i, _) =>
      SameHolder(s.slots, Apply(s, op).slots, nr);
      if s.slots[i].num == nr {
        HolderIs(s, i);
      }
  }

  /** Over every run of gets, puts, changes, writes and pipes, however slots are recycled, every inode
      is what was last made of it, as long as no pipe takes a slot with changes that are not on the
      disk. */
  lemma {:induction false} NothingIsLost(s: Table, ops: seq<Op>, nr: nat)
    requires Inv(s) && Legal(s, ops) && AllSpare(s, ops) && nr != 0
    ensures Inv(Run(s, ops)) && Contents(Run(s, ops), nr) == Intended(s, ops, nr, Contents(s, nr))
    decreases |ops|
  {
    if ops != [] {
      StepContents(s, ops[0], nr);
      hide Contents, Apply, Enabled, Inv, Spares;
      NothingIsLost(Apply(s, ops[0]), ops[1..], nr);
    }
  }

  class Inodes {
    var slots: seq<Slot>
    var disk: map<nat, Body>

    function St(): Table
      reads this
    {
      Table(slots, disk)
    }

    constructor (n: nat, image: map<nat, Body>)
      ensures Inv(St()) && disk == image && forall nr: nat :: nr != 0 ==> Contents(St(), nr) == OnDisk(St(), nr)
    {
      slots, disk := seq(n, _ => Slot(0, 0, false, [])), image;
    }

    // The two loops of iget.
    method Iget(nr: nat) returns (r: Option<nat>)
      requires Inv(St()) && nr != 0
      modifies this
      ensures Inv(St()) && St() == old(GetOf(St(), nr))
      ensures forall x: nat :: x != 0 ==> Contents(St(), x) == old(Contents(St(), x))
      ensures r.Some? ==> r.value < |slots| && slots[r.value].num == nr && slots[r.value].body == Contents(St(), nr)
      ensures r.None? ==> St() == old(St()) && forall k :: 0 <= k < |slots| ==> slots[k].count != 0
    {
      GetKeeps(St(), nr);
      var i := 0;
      while i < |slots|
        invariant i <= |slots| && St() == old(St()) && Holder(slots, nr, 0) == Holder(slots, nr, i)
      {
        if slots[i].num == nr {
          slots := slots[i := slots[i].(count := slots[i].count + 1)];
          HolderIs(St(), i);
          return Some(i);
        }
        i := i + 1;
      }
      i := FindIdle();
      if i == |slots| {
        return None;
      }
      WriteBack(i);
      var body := if nr in disk then disk[nr] else [];
      slots := slots[i := Slot(nr, 1, false, body)];
      HolderIs(St(), i);
      return Some(i);
    }

    method FindIdle() returns (i: nat)
      ensures i == FirstIdle(slots, 0)
    {
      i := 0;
      while i < |slots| && slots[i].count != 0
        invariant i <= |slots| && FirstIdle(slots, 0) == FirstIdle(slots, i)
      {
        i := i + 1;
      }
    }

    // write_inode, called for a dirty inode only.
    method WriteBack(i: nat)
      requires i < |slots|
      modifies this
      ensures St() == old(WriteOf(St(), i))
    {
      if slots[i].dirt && slots[i].num != 0 {
        disk := disk[slots[i].num := slots[i].body];
        slots := slots[i := slots[i].(dirt := false)];
      }
    }

    method GetEmptyInode() returns (r: Option<nat>)
      requires Inv(St())
      modifies `slots
      ensures Inv(St()) && St() == old(EmptyOf(St()))
      ensures (forall x: nat :: x != 0 ==> Contents(St(), x) == old(Contents(St(), x))) <==> old(Spares(St()))
      ensures r == var i := old(FirstIdle(slots, 0)); if i < |old(slots)| then Some(i) else None
    {
      EmptyKeepsIff(St());
      var i := FindIdle();
      if i == |slots| {
        return None;
      }
      slots := slots[i := Slot(0, 1, false, [])];
      return Some(i);
    }
  }
}
