/** Counting what page tables refer to.  A present entry names a frame and a
    swapped entry names a swap slot; an address space also holds the two frames
    of its page directory and page table. */
module FrameRefs {
  import opened Layout
  import opened PageEntry
  import opened Executable

  datatype Resource = Frame(n: nat) | Slot(n: nat)

  // A user address space: page directory frame, page table frame, the table itself and
  // the executable that backs its image pages.
  datatype Space = Space(dir: nat, table: nat, entries: seq<Pte>, exe: Exe)

  type Spaces = seq<Option<Space>>

  predicate Names(p: Pte, r: Resource) {
    match p
    case Empty => false
    case Present(f, _, _, _, _) => r == Frame(f)
    case Swapped(z) => r == Slot(z)
  }

  function EntryRefs(t: seq<Pte>, r: Resource): nat {
    if t == [] then 0 else One(Names(t[0], r)) + EntryRefs(t[1..], r)
  }

  function SpaceRefs(o: Option<Space>, r: Resource): nat {
    if o.None? then 0 else EntryRefs(o.value.entries, r)
  }

  // How many page-table entries of all address spaces name r.
  function Refs(spaces: Spaces, r: Resource): nat {
    if spaces == [] then 0 else SpaceRefs(spaces[0], r) + Refs(spaces[1..], r)
  }

  function TablesOf(o: Option<Space>, f: nat): nat {
    if o.None? then 0 else One(o.value.dir == f) + One(o.value.table == f)
  }

  // How many address spaces use frame f for a page directory or a page table.
  function TableRefs(spaces: Spaces, f: nat): nat {
    if spaces == [] then 0 else TablesOf(spaces[0], f) + TableRefs(spaces[1..], f)
  }

  predicate ValidAt(spaces: Spaces, k: nat, i: nat) {
    k < |spaces| && spaces[k].Some? && i < |spaces[k].value.entries|
  }

  function EntryAt(spaces: Spaces, k: nat, i: nat): Pte
    requires ValidAt(spaces, k, i)
  {
    spaces[k].value.entries[i]
  }

  function SetEntry(spaces: Spaces, k: nat, i: nat, p: Pte): (r: Spaces)
    requires ValidAt(spaces, k, i)
    ensures |r| == |spaces|
    ensures forall l, j :: ValidAt(r, l, j) <==> ValidAt(spaces, l, j)
    ensures forall l, j :: ValidAt(r, l, j) ==>
              EntryAt(r, l, j) == if l == k && j == i then p else EntryAt(spaces, l, j)
    ensures forall l :: 0 <= l < |r| && l != k ==> r[l] == spaces[l]
    ensures forall l :: 0 <= l < |r| ==> r[l].Some? == spaces[l].Some?
    ensures forall l :: 0 <= l < |r| && r[l].Some? ==>
              && r[l].value.dir == spaces[l].value.dir
              && r[l].value.table == spaces[l].value.table
              && r[l].value.exe == spaces[l].value.exe
              && |r[l].value.entries| == |spaces[l].value.entries|
  {
    var sp := spaces[k].value;
    spaces[k := Some(sp.(entries := sp.entries[i := p]))]
  }

  // Entry (k, i) maps frame f.
  predicate Maps(spaces: Spaces, k: nat, i: nat, f: nat) {
    ValidAt(spaces, k, i) && EntryAt(spaces, k, i).Present? && EntryAt(spaces, k, i).frame == f
  }

  lemma {:induction false} EntryRefsSet(t: seq<Pte>, i: nat, p: Pte, r: Resource)
    requires i < |t|
    ensures EntryRefs(t[i := p], r) + One(Names(t[i], r)) == EntryRefs(t, r) + One(Names(p, r))
  {
    if i == 0 {
      assert t[i := p][1..] == t[1..];
    } else {
      assert t[i := p][1..] == t[1..][i - 1 := p];
      EntryRefsSet(t[1..], i - 1, p, r);
    }
  }

  lemma {:induction false} RefsReplace(spaces: Spaces, k: nat, o: Option<Space>, r: Resource)
    requires k < |spaces|
    ensures Refs(spaces[k := o], r) + SpaceRefs(spaces[k], r) == Refs(spaces, r) + SpaceRefs(o, r)
  {
    if k == 0 {
      assert spaces[k := o][1..] == spaces[1..];
    } else {
      assert spaces[k := o][1..] == spaces[1..][k - 1 := o];
      RefsReplace(spaces[1..], k - 1, o, r);
    }
  }

  lemma {:induction false} TableRefsReplace(spaces: Spaces, k: nat, o: Option<Space>, f: nat)
    requires k < |spaces|
    ensures TableRefs(spaces[k := o], f) + TablesOf(spaces[k], f) == TableRefs(spaces, f) + TablesOf(o, f)
  {
    if k == 0 {
      assert spaces[k := o][1..] == spaces[1..];
    } else {
      assert spaces[k := o][1..] == spaces[1..][k - 1 := o];
      TableRefsReplace(spaces[1..], k - 1, o, f);
    }
  }

  // Storing one entry moves one reference.
  lemma SetEntryRefs(spaces: Spaces, k: nat, i: nat, p: Pte, r: Resource)
    requires ValidAt(spaces, k, i)
    ensures Refs(SetEntry(spaces, k, i, p), r) + One(Names(EntryAt(spaces, k, i), r))
            == Refs(spaces, r) + One(Names(p, r))
  {
    var sp := spaces[k].value;
    EntryRefsSet(sp.entries, i, p, r);
    RefsReplace(spaces, k, Some(sp.(entries := sp.entries[i := p])), r);
  }

  lemma SetEntryTables(spaces: Spaces, k: nat, i: nat, p: Pte, f: nat)
    requires ValidAt(spaces, k, i)
    ensures TableRefs(SetEntry(spaces, k, i, p), f) == TableRefs(spaces, f)
  {
    var sp := spaces[k].value;
    TableRefsReplace(spaces, k, Some(sp.(entries := sp.entries[i := p])), f);
  }

  // An entry that names r is counted.
  lemma NamedIsCounted(spaces: Spaces, k: nat, i: nat, r: Resource)
    requires ValidAt(spaces, k, i) && Names(EntryAt(spaces, k, i), r)
    ensures Refs(spaces, r) >= 1
  {
    SetEntryRefs(spaces, k, i, Empty, r);
  }

  // Two entries that name r are counted twice.
  lemma NamedTwice(spaces: Spaces, k: nat, i: nat, l: nat, j: nat, r: Resource)
    requires ValidAt(spaces, k, i) && Names(EntryAt(spaces, k, i), r)
    requires ValidAt(spaces, l, j) && Names(EntryAt(spaces, l, j), r)
    requires k != l || i != j
    ensures Refs(spaces, r) >= 2
  {
    SetEntryRefs(spaces, k, i, Empty, r);
    NamedIsCounted(SetEntry(spaces, k, i, Empty), l, j, r);
  }

  lemma {:induction false} EntryRefsZero(t: seq<Pte>, r: Resource)
    requires forall j :: 0 <= j < |t| ==> !Names(t[j], r)
    ensures EntryRefs(t, r) == 0
  {
    if t != [] {
      EntryRefsZero(t[1..], r);
    }
  }

  // A table in which only position i can name r names it at most once.
  lemma EntryRefsAtMostOne(t: seq<Pte>, i: nat, r: Resource)
    requires forall j :: 0 <= j < |t| && Names(t[j], r) ==> j == i
    ensures EntryRefs(t, r) <= 1
  {
    if i < |t| {
      EntryRefsZero(t[i := Empty], r);
      EntryRefsSet(t, i, Empty, r);
    } else {
      EntryRefsZero(t, r);
    }
  }

  lemma {:induction false} RefsAtMost(spaces: Spaces, r: Resource)
    requires forall k :: 0 <= k < |spaces| ==> SpaceRefs(spaces[k], r) <= 1
    ensures Refs(spaces, r) <= |spaces|
  {
    if spaces != [] {
      RefsAtMost(spaces[1..], r);
    }
  }

  lemma {:induction false} NoSpaces(spaces: Spaces, r: Resource, f: nat)
    requires forall k :: 0 <= k < |spaces| ==> spaces[k].None?
    ensures Refs(spaces, r) == 0 && TableRefs(spaces, f) == 0
  {
    if spaces != [] {
      NoSpaces(spaces[1..], r, f);
    }
  }

  // ---------------------------------------------------------------------
  // Sharing discipline
  // ---------------------------------------------------------------------

  // A frame is only ever mapped at one page index.
  ghost predicate Aligned(spaces: Spaces) {
    forall k, i, l, j, f :: Maps(spaces, k, i, f) && Maps(spaces, l, j, f) ==> i == j
  }

  // The frame of a writable entry is mapped nowhere else.
  ghost predicate WritableIsPrivate(spaces: Spaces) {
    forall k, i :: ValidAt(spaces, k, i) && EntryAt(spaces, k, i).Present? && EntryAt(spaces, k, i).rw ==>
      Refs(spaces, Frame(EntryAt(spaces, k, i).frame)) == 1
  }

  ghost predicate Disciplined(spaces: Spaces) {
    Aligned(spaces) && WritableIsPrivate(spaces)
  }

  // Taking a mapping away.
  lemma ClearKeepsDiscipline(spaces: Spaces, k: nat, i: nat, p: Pte)
    requires Disciplined(spaces) && ValidAt(spaces, k, i) && !p.Present?
    ensures Disciplined(SetEntry(spaces, k, i, p))
  {
    var t := SetEntry(spaces, k, i, p);
    forall l, j | ValidAt(t, l, j) && EntryAt(t, l, j).Present? && EntryAt(t, l, j).rw
      ensures Refs(t, Frame(EntryAt(t, l, j).frame)) == 1
    {
      var f := EntryAt(t, l, j).frame;
      SetEntryRefs(spaces, k, i, p, Frame(f));
      NamedIsCounted(t, l, j, Frame(f));
    }
    assert forall l, j, f :: Maps(t, l, j, f) ==> Maps(spaces, l, j, f);
  }

  // Mapping a frame that no entry names.
  lemma FreshKeepsDiscipline(spaces: Spaces, k: nat, i: nat, p: Pte)
    requires Disciplined(spaces) && ValidAt(spaces, k, i) && EntryAt(spaces, k, i).Empty?
    requires p.Present? && Refs(spaces, Frame(p.frame)) == 0
    ensures Disciplined(SetEntry(spaces, k, i, p))
  {
    var t := SetEntry(spaces, k, i, p);
    forall l, j | Maps(spaces, l, j, p.frame) ensures false {
      NamedIsCounted(spaces, l, j, Frame(p.frame));
    }
    forall l, j | ValidAt(t, l, j) && EntryAt(t, l, j).Present? && EntryAt(t, l, j).rw
      ensures Refs(t, Frame(EntryAt(t, l, j).frame)) == 1
    {
      var f := EntryAt(t, l, j).frame;
      SetEntryRefs(spaces, k, i, p, Frame(f));
      assert f == p.frame ==> !Maps(spaces, l, j, f);
    }
    assert forall l, j, f :: Maps(t, l, j, f) ==> Maps(spaces, l, j, f) || (l == k && j == i && f == p.frame);
  }

  // Changing the flags of a mapping without making it writable.
  lemma FlagsKeepDiscipline(spaces: Spaces, k: nat, i: nat, p: Pte)
    requires Disciplined(spaces) && ValidAt(spaces, k, i) && EntryAt(spaces, k, i).Present?
    requires p.Present? && p.frame == EntryAt(spaces, k, i).frame && (p.rw ==> EntryAt(spaces, k, i).rw)
    ensures Disciplined(SetEntry(spaces, k, i, p))
  {
    var t := SetEntry(spaces, k, i, p);
    forall l, j | ValidAt(t, l, j) && EntryAt(t, l, j).Present? && EntryAt(t, l, j).rw
      ensures Refs(t, Frame(EntryAt(t, l, j).frame)) == 1
    {
      SetEntryRefs(spaces, k, i, p, Frame(EntryAt(t, l, j).frame));
    }
    assert forall l, j, f :: Maps(t, l, j, f) ==> Maps(spaces, l, j, f);
  }

  // Mapping the read-only frame of (p, i) a second time, at the same index.
  lemma AliasKeepsDiscipline(spaces: Spaces, p: nat, c: nat, i: nat)
    requires Disciplined(spaces) && ValidAt(spaces, p, i) && ValidAt(spaces, c, i)
    requires EntryAt(spaces, p, i).Present? && !EntryAt(spaces, p, i).rw && EntryAt(spaces, c, i).Empty?
    ensures Disciplined(SetEntry(spaces, c, i, EntryAt(spaces, p, i)))
  {
    var e := EntryAt(spaces, p, i);
    var t := SetEntry(spaces, c, i, e);
    assert Maps(spaces, p, i, e.frame);
    forall l, j | ValidAt(t, l, j) && EntryAt(t, l, j).Present? && EntryAt(t, l, j).rw
      ensures Refs(t, Frame(EntryAt(t, l, j).frame)) == 1
    {
      var f := EntryAt(t, l, j).frame;
      SetEntryRefs(spaces, c, i, e, Frame(f));
      if f == e.frame {
        NamedTwice(spaces, p, i, l, j, Frame(f));
      }
    }
    assert forall l, j, f :: Maps(t, l, j, f) ==> Maps(spaces, l, j, f) || (l == c && j == i && f == e.frame);
  }

  // Adding or removing a space that maps nothing.
  lemma EmptySpaceKeepsDiscipline(spaces: Spaces, k: nat, o: Option<Space>)
    requires Disciplined(spaces) && k < |spaces|
    requires forall i :: ValidAt(spaces, k, i) ==> EntryAt(spaces, k, i).Empty?
    requires o.Some? ==> forall i :: 0 <= i < |o.value.entries| ==> o.value.entries[i].Empty?
    ensures Disciplined(spaces[k := o])
  {
    var t := spaces[k := o];
    forall l, j | ValidAt(t, l, j) && EntryAt(t, l, j).Present?
      ensures l != k && ValidAt(spaces, l, j) && EntryAt(spaces, l, j) == EntryAt(t, l, j)
    {
    }
    forall f: nat ensures Refs(t, Frame(f)) == Refs(spaces, Frame(f)) {
      EmptySpaceRefs(spaces, k, o, Frame(f));
    }
    assert forall l, j, f :: Maps(t, l, j, f) ==> Maps(spaces, l, j, f);
  }

  lemma EmptySpaceRefs(spaces: Spaces, k: nat, o: Option<Space>, r: Resource)
    requires k < |spaces|
    requires forall i :: ValidAt(spaces, k, i) ==> EntryAt(spaces, k, i).Empty?
    requires o.Some? ==> forall i :: 0 <= i < |o.value.entries| ==> o.value.entries[i].Empty?
    ensures Refs(spaces[k := o], r) == Refs(spaces, r)
  {
    RefsReplace(spaces, k, o, r);
    if o.Some? {
      EntryRefsZero(o.value.entries, r);
    }
    if spaces[k].Some? {
      var t := spaces[k].value.entries;
      forall i | 0 <= i < |t| ensures !Names(t[i], r) {
        assert ValidAt(spaces, k, i);
      }
      EntryRefsZero(t, r);
    }
  }
}
