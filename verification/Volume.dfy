/** A volume: its directories, the link counts of its inodes and the bitmap of inode numbers in use
    (kernel/sys.c, fs/inode.c, fs/bitmap.c).  An inode whose link count is 0 is given up when
    nobody holds it, and its number is handed out again. */
module Volume {
  import opened Layout
  import opened Directory
  import opened DirectoryCache
  import opened Paths
  import opened DirectoryTree

  // i_nlinks is a byte.
  const LINKS_MAX: nat := 255

  type Count = n: nat | n <= LINKS_MAX

  datatype Vol = Vol(dirs: Dirs, links: map<nat, Count>, used: set<nat>)

  function LinksOf(v: Vol, ino: nat): Count {
    if ino in v.links then v.links[ino] else 0
  }

  function Up(n: Count): Count {
    if n == LINKS_MAX then 0 else n + 1
  }

  function Down(n: Count): Count {
    if n == 0 then LINKS_MAX else n - 1
  }

  // new_inode: the first number whose bit is clear.
  ghost predicate IsNew(used: set<nat>, ino: nat) {
    0 < ino && ino !in used && forall m: nat :: 0 < m < ino ==> m in used
  }

  // ---------------------------------------------------------------------
  // Entries and counts
  // ---------------------------------------------------------------------

  // Where a number is entered.
  ghost function Names(dirs: Dirs, ino: nat): set<(nat, nat)> {
    set q: nat, k: nat | q in dirs && k < |dirs[q]| && dirs[q][k].ino == ino :: (q, k)
  }

  ghost function Entries(dirs: Dirs, ino: nat): nat {
    |Names(dirs, ino)|
  }

  // Every number that is entered anywhere is in use, and so is every directory.
  ghost predicate Numbered(v: Vol) {
    && 0 !in v.used && (forall d :: d in v.dirs ==> d in v.used)
    && forall ino: nat :: ino != 0 && Entries(v.dirs, ino) > 0 ==> ino in v.used
  }

  // A directory has a link, and any other inode at least as many as entries.
  ghost predicate Counted(v: Vol) {
    && (forall d :: d in v.dirs ==> LinksOf(v, d) > 0)
    && forall ino: nat :: ino in v.used && ino !in v.dirs ==> LinksOf(v, ino) >= Entries(v.dirs, ino)
  }

  ghost predicate Sound(v: Vol, depth: map<nat, nat>) {
    Tree(v.dirs, depth) && Numbered(v) && Counted(v)
  }

  ghost predicate Whole(v: Vol) {
    exists depth :: Sound(v, depth)
  }

  lemma SubsetSize<T>(a: set<T>, b: set<T>)
    requires a <= b
    ensures |a| <= |b|
  {
    assert b == a + (b - a);
  }

  // One slot changes.
  lemma NamesSet(dirs: Dirs, d: nat, s: seq<Slot>, i: nat, ino: nat)
    requires d in dirs && ChangedAt(dirs[d], s, i)
    ensures Names(dirs[d := s], ino) == Names(dirs, ino) - {(d, i)} + (if s[i].ino == ino then {(d, i)} else {})
    ensures (d, i) in Names(dirs, ino) <==> i < |dirs[d]| && dirs[d][i].ino == ino
  {
  }

  lemma EntriesSet(dirs: Dirs, d: nat, s: seq<Slot>, i: nat, ino: nat)
    requires d in dirs && ChangedAt(dirs[d], s, i)
    ensures Entries(dirs[d := s], ino) + One(i < |dirs[d]| && dirs[d][i].ino == ino) ==
            Entries(dirs, ino) + One(s[i].ino == ino)
  {
    NamesSet(dirs, d, s, i, ino);
    hide Names, ChangedAt;
    SwapSize(Names(dirs, ino), (d, i), s[i].ino == ino);
  }

  lemma SwapSize<T>(a: set<T>, e: T, back: bool)
    ensures |a - {e} + (if back then {e} else {})| + One(e in a) == |a| + One(back)
  {
  }

  // An entry slides within its directory.
  lemma NamesSlide(dirs: Dirs, d: nat, s: seq<Slot>, i: nat, j: nat, ino: nat)
    requires d in dirs && Slides(dirs[d], s, i, j) && s[0].ino == dirs[d][0].ino && ino != 0
    ensures Entries(dirs[d := s], ino) == Entries(dirs, ino)
  {
    var a, b := Names(dirs, ino), Names(dirs[d := s], ino);
    if i == j || dirs[d][i].ino != ino {
      assert a == b;
    } else {
      assert b == a - {(d, i)} + {(d, j)};
    }
  }

  // Only the texts of a directory change.
  lemma NamesRetouch(dirs: Dirs, d: nat, s: seq<Slot>, ino: nat)
    requires d in dirs && |s| == |dirs[d]| && forall k: nat :: k < |s| ==> s[k].ino == dirs[d][k].ino
    ensures Names(dirs[d := s], ino) == Names(dirs, ino)
  {
  }

  // A new directory names itself and its parent.
  lemma NamesGrow(dirs: Dirs, d: nat, x: nat, ino: nat)
    requires x !in dirs && ino != x && ino != d && ino != 0
    ensures Names(dirs[x := NewDir(x, d)], ino) == Names(dirs, ino)
  {
  }

  lemma EntriesGrow(dirs: Dirs, d: nat, x: nat)
    requires x !in dirs
    ensures forall ino: nat :: ino != 0 && ino != x && ino != d ==>
              Entries(dirs[x := NewDir(x, d)], ino) == Entries(dirs, ino)
  {
    forall ino: nat | ino != 0 && ino != x && ino != d
      ensures Entries(dirs[x := NewDir(x, d)], ino) == Entries(dirs, ino)
    {
      NamesGrow(dirs, d, x, ino);
    }
  }

  lemma EntriesPrune(dirs: Dirs, x: nat)
    ensures forall ino: nat :: Entries(dirs - {x}, ino) <= Entries(dirs, ino)
  {
    forall ino: nat ensures Entries(dirs - {x}, ino) <= Entries(dirs, ino) {
      assert Names(dirs - {x}, ino) <= Names(dirs, ino);
      SubsetSize(Names(dirs - {x}, ino), Names(dirs, ino));
    }
  }

  lemma NamedAt(dirs: Dirs, d: nat, i: nat)
    requires d in dirs && i < |dirs[d]|
    ensures (d, i) in Names(dirs, dirs[d][i].ino) && Entries(dirs, dirs[d][i].ino) > 0
  {
  }

  // A number that is not in use is entered nowhere.
  lemma NewIsUnused(v: Vol, ino: nat)
    requires Numbered(v) && IsNew(v.used, ino)
    ensures Unused(v.dirs, ino) && Entries(v.dirs, ino) == 0 && ino != 0 && ino !in v.used
  {
    forall q: nat, k: nat | q in v.dirs && k < |v.dirs[q]| ensures v.dirs[q][k].ino != ino {
      if v.dirs[q][k].ino == ino {
        NamedAt(v.dirs, q, k);
      }
    }
  }

  // Nobody but its parent and itself names an empty directory.
  lemma EnteredOnce(dirs: Dirs, depth: map<nat, nat>, d: nat, i: nat, q: nat, k: nat)
    requires Tree(dirs, depth) && Child(dirs, d, i) && Child(dirs, q, k) && dirs[q][k].ino == dirs[d][i].ino
    ensures q == d && k == i
  {
    hide DirOk, Hangs;
    assert Entered(dirs, q, k) && Entered(dirs, d, i);
  }

  lemma ParentIsNotEmpty(dirs: Dirs, depth: map<nat, nat>, q: nat)
    requires Tree(dirs, depth) && q in dirs && q != ROOT
    ensures Parent(dirs, q) in dirs && !EmptyDir(dirs[Parent(dirs, q)])
  {
  }

  lemma OnlyParentNames(dirs: Dirs, depth: map<nat, nat>, d: nat, i: nat, q: nat, k: nat)
    requires Tree(dirs, depth) && d in dirs && 2 <= i < |dirs[d]| && dirs[d][i].ino in dirs
    requires EmptyDir(dirs[dirs[d][i].ino]) && q in dirs && k < |dirs[q]| && dirs[q][k].ino == dirs[d][i].ino
    ensures q == dirs[d][i].ino || (q == d && k == i)
  {
    OnlyChild(dirs, depth, d, i);
    TreeDir(dirs, depth, q);
    hide Tree, EmptyDir, Orderly;
    if k >= 2 {
      EnteredOnce(dirs, depth, d, i, q, k);
    } else if k == 1 && q != ROOT {
      ParentIsNotEmpty(dirs, depth, q);
    } else if k == 1 {
      RootIsOwnParent(dirs, depth);
    }
  }

  lemma RootIsOwnParent(dirs: Dirs, depth: map<nat, nat>)
    requires Tree(dirs, depth)
    ensures ROOT in dirs && Parent(dirs, ROOT) == ROOT
  {
  }

  // ---------------------------------------------------------------------
  // The system calls
  // ---------------------------------------------------------------------

  datatype Op =
    | MakeNode(dir: nat, name: Name, ino: nat, mode: int, room: bool)
    | LinkFile(dir: nat, name: Name, ino: nat, room: bool)
    | Unlink(dir: nat, name: Name)
    | MakeDir(dir: nat, name: Name, ino: nat, room: bool)
    | RemoveDir(dir: nat, name: Name)
    | Move(dir: nat, name: Name, dest: nat, to: Name, room: bool)
    | GiveUp(ino: nat)                        // the last holder of an inode without links lets go

  // S_IFDIR
  const DIRECTORY_BIT: int := 0x4000

  // The mode makes its inode a directory.
  predicate DirectoryMode(mode: int) {
    (mode / DIRECTORY_BIT) % 2 == 1
  }

  // A file that a path leads to.
  ghost predicate Reached(v: Vol, ino: nat) {
    ino in v.used && ino !in v.dirs && Entries(v.dirs, ino) > 0
  }

  // What the system calls check before they change anything.  Only unlink and rmdir look for "."
  // and "..", and rename does not ask whether the path it moves to is a directory.
  ghost predicate Allowed(v: Vol, op: Op) {
    match op
    case MakeNode(d, name, ino, _, room) => CanEnter(v, d, name, ino, room) && IsNew(v.used, ino)
    case LinkFile(d, name, ino, room) => CanEnter(v, d, name, ino, room) && Reached(v, ino)
    case MakeDir(d, name, ino, room) => CanEnter(v, d, name, ino, room) && IsNew(v.used, ino)
    case Unlink(d, name) => CanRemove(v, d, name) && Proper(name) && Found(v, d, name) !in v.dirs
    case RemoveDir(d, name) =>
      CanRemove(v, d, name) && Proper(name) && Found(v, d, name) in v.dirs && EmptyDir(v.dirs[Found(v, d, name)])
    case Move(p, from, q, to, room) =>
      if p == q then
        p in v.dirs && Last(from) && Last(to) && Rename(v.dirs[p], from, to, room).Some?
      else if q in v.dirs then CanMove(v.dirs, p, from, q, to, room)
      else CanRemove(v, p, from) && Last(to) && Reached(v, q)
    case GiveUp(ino) => ino in v.used && LinksOf(v, ino) == 0
  }

  predicate CanEnter(v: Vol, d: nat, name: Name, ino: nat, room: bool) {
    d in v.dirs && Last(name) && Lookup(v.dirs[d], name).None? && Add(v.dirs[d], name, ino, room).Some?
  }

  predicate CanRemove(v: Vol, d: nat, name: Name) {
    d in v.dirs && Last(name) && Lookup(v.dirs[d], name).Some? && Remove(v.dirs[d], name).Some?
  }

  // What a name of directory d stands for; 0: nothing.
  function Found(v: Vol, d: nat, name: Name): nat {
    if d in v.dirs && Lookup(v.dirs[d], name).Some? then Lookup(v.dirs[d], name).value else 0
  }

  // The new name of a rename is taken.
  predicate Taken(v: Vol, d: nat, name: Name) {
    d in v.dirs && Lookup(v.dirs[d], name).Some?
  }

  ghost function Do(v: Vol, op: Op): Vol
    requires Allowed(v, op)
  {
    match op
    case MakeNode(d, name, ino, mode, room) =>
      var entered := v.dirs[d := Add(v.dirs[d], name, ino, room).value];
      Vol(if DirectoryMode(mode) then entered[ino := []] else entered - {ino}, v.links[ino := 1], v.used + {ino})
    case LinkFile(d, name, ino, room) =>
      Vol(v.dirs[d := Add(v.dirs[d], name, ino, room).value], v.links[ino := Up(LinksOf(v, ino))], v.used)
    case MakeDir(d, name, ino, room) =>
      Vol(v.dirs[d := Add(v.dirs[d], name, ino, room).value][ino := NewDir(ino, d)],
          v.links[d := Up(LinksOf(v, d))][ino := 2], v.used + {ino})
    case Unlink(d, name) =>
      var x := Found(v, d, name);
      Vol(v.dirs[d := Remove(v.dirs[d], name).value], v.links[x := Down(LinksOf(v, x))], v.used)
    case RemoveDir(d, name) =>
      var x := Found(v, d, name);
      Vol(v.dirs[d := Remove(v.dirs[d], name).value] - {x}, v.links[d := Down(LinksOf(v, d))][x := 0], v.used - {x})
    case Move(p, from, q, to, room) =>
      if p == q then v.(dirs := v.dirs[p := Rename(v.dirs[p], from, to, room).value])
      else
        v.(dirs := if q in v.dirs then Moved(v.dirs, p, from, q, to, room)
                   else v.dirs[p := Remove(v.dirs[p], from).value],
           links := v.links[p := Down(LinksOf(v, p))][q := Up(LinksOf(v, q))])
    case GiveUp(ino) => v.(used := v.used - {ino})
  }

  ghost function DepthAfter(depth: map<nat, nat>, op: Op): map<nat, nat> {
    if op.MakeDir? && op.dir in depth then depth[op.ino := depth[op.dir] + 1] else depth
  }

  // What the system calls do not check: the mode given to mknod, counts that wrap or drop to zero,
  // and a rename onto a second name of the same inode, of a directory into another place, or of
  // "." and "..".
  ghost predicate Harmless(v: Vol, op: Op)
    requires Allowed(v, op)
  {
    match op
    case MakeNode(_, _, _, mode, _) => !DirectoryMode(mode)
    case LinkFile(_, _, ino, _) => LinksOf(v, ino) < LINKS_MAX
    case MakeDir(d, _, _, _) => LinksOf(v, d) < LINKS_MAX
    case RemoveDir(d, _) => LinksOf(v, d) != 1
    case Move(p, from, q, to, _) =>
      if p == q then (Lookup(v.dirs[p], to).None? && Proper(from)) || from == to
      else
        && Found(v, p, from) !in v.dirs && !Taken(v, q, to)
        && LinksOf(v, p) != 1
        && (LinksOf(v, q) < LINKS_MAX || (q == Found(v, p, from) && Entries(v.dirs, q) == 1))
    case _ => true
  }

  // ---------------------------------------------------------------------
  // Harmless calls
  // ---------------------------------------------------------------------

  // Entering a number adds one to its entries and changes no other's.
  lemma EnterEntries(dirs: Dirs, d: nat, name: Name, ino: nat, room: bool)
    requires d in dirs && DirOk(dirs[d], d) && Last(name) && Lookup(dirs[d], name) == None && ino != 0
    requires Add(dirs[d], name, ino, room).Some?
    ensures forall x: nat :: x != 0 ==>
              Entries(dirs[d := Add(dirs[d], name, ino, room).value], x) == Entries(dirs, x) + One(x == ino)
  {
    AbsentIsProper(dirs[d], d, name);
    AddKeepsDir(dirs[d], d, name, ino, room);
    hide Entries, DirOk, Lookup, Last, Proper;
    forall x: nat | x != 0
      ensures Entries(dirs[d := Add(dirs[d], name, ino, room).value], x) == Entries(dirs, x) + One(x == ino)
    {
      EntriesSet(dirs, d, Add(dirs[d], name, ino, room).value, FirstFree(dirs[d], 0), x);
    }
  }

  // Removing a name takes one from its number's entries.
  lemma RemoveEntries(dirs: Dirs, d: nat, name: Name) returns (i: nat)
    requires d in dirs && DirOk(dirs[d], d) && Proper(name) && Lookup(dirs[d], name).Some?
    ensures Remove(dirs[d], name).Some? && 2 <= i < |dirs[d]| && dirs[d][i].ino == Lookup(dirs[d], name).value
    ensures ChangedAt(dirs[d], Remove(dirs[d], name).value, i) && Remove(dirs[d], name).value[i].ino == 0
    ensures Entries(dirs, Lookup(dirs[d], name).value) > 0
    ensures forall x: nat :: x != 0 ==>
              Entries(dirs[d := Remove(dirs[d], name).value], x) + One(x == Lookup(dirs[d], name).value)
                == Entries(dirs, x)
  {
    i := RemovesFound(dirs[d], d, name);
    NamedAt(dirs, d, i);
    hide Entries, DirOk, Lookup, Proper, Remove;
    forall x: nat | x != 0
      ensures Entries(dirs[d := Remove(dirs[d], name).value], x) + One(x == Lookup(dirs[d], name).value)
        == Entries(dirs, x)
    {
      EntriesSet(dirs, d, Remove(dirs[d], name).value, i, x);
    }
  }

  // The books of a number that gets one more entry and n links.
  lemma EnterBooks(v: Vol, b: Vol, ino: nat, n: Count)
    requires Numbered(v) && Counted(v) && ino != 0 && ino !in v.dirs && n > Entries(v.dirs, ino)
    requires b.dirs.Keys == v.dirs.Keys && b.links == v.links[ino := n] && b.used == v.used + {ino}
    requires forall x: nat :: x != 0 ==> Entries(b.dirs, x) == Entries(v.dirs, x) + One(x == ino)
    ensures Numbered(b) && Counted(b)
  {
  }

  // ... one entry less and n links.
  lemma LeaveBooks(v: Vol, b: Vol, y: nat, n: Count)
    requires Numbered(v) && Counted(v) && y != 0 && y !in v.dirs && n + 1 >= Entries(v.dirs, y)
    requires b.dirs.Keys == v.dirs.Keys && b.links == v.links[y := n] && b.used == v.used
    requires forall x: nat :: x != 0 ==> Entries(b.dirs, x) + One(x == y) == Entries(v.dirs, x)
    ensures Numbered(b) && Counted(b)
  {
  }

  // A new directory x below d.
  lemma GrowBooks(v: Vol, b: Vol, d: nat, x: nat, n: Count)
    requires Numbered(v) && Counted(v) && d in v.dirs && x != 0 && x !in v.used && n > 0
    requires b.dirs.Keys == v.dirs.Keys + {x} && b.links == v.links[d := n][x := 2] && b.used == v.used + {x}
    requires forall y: nat :: y != 0 && y != x && y != d ==> Entries(b.dirs, y) == Entries(v.dirs, y)
    ensures Numbered(b) && Counted(b)
  {
  }

  // Directory x below d goes.
  lemma PruneBooks(v: Vol, b: Vol, d: nat, x: nat, n: Count)
    requires Numbered(v) && Counted(v) && d in v.dirs && x in v.dirs && d != x && n > 0
    requires b.dirs.Keys == v.dirs.Keys - {x} && b.links == v.links[d := n][x := 0] && b.used == v.used - {x}
    requires Entries(b.dirs, x) == 0 && forall y: nat :: y != 0 ==> Entries(b.dirs, y) <= Entries(v.dirs, y)
    ensures Numbered(b) && Counted(b)
  {
  }

  // Directory p loses a link and q gets one.
  lemma MoveBooks(v: Vol, b: Vol, p: nat, m: Count, q: nat, n: Count)
    requires Numbered(v) && Counted(v) && p in v.dirs && p != q && m > 0
    requires b.dirs.Keys == v.dirs.Keys && b.links == v.links[p := m][q := n] && b.used == v.used
    requires forall y: nat :: y != 0 ==> Entries(b.dirs, y) <= Entries(v.dirs, y)
    requires if q in v.dirs then n > 0 else n >= Entries(b.dirs, q)
    ensures Numbered(b) && Counted(b)
  {
  }

  lemma SameBooks(v: Vol, b: Vol)
    requires Numbered(v) && Counted(v) && b.dirs.Keys == v.dirs.Keys && b.links == v.links && b.used == v.used
    requires forall y: nat :: y != 0 ==> Entries(b.dirs, y) == Entries(v.dirs, y)
    ensures Numbered(b) && Counted(b)
  {
  }

  lemma LinksSuffice(v: Vol, ino: nat)
    requires Numbered(v) && Counted(v)
    ensures ino in v.dirs ==> LinksOf(v, ino) > 0 && ino in v.used && ino != 0
    ensures ino in v.used ==> ino != 0
    ensures ino in v.used && ino !in v.dirs ==> LinksOf(v, ino) >= Entries(v.dirs, ino)
  {
  }

  lemma MakeNodeKeeps(v: Vol, depth: map<nat, nat>, d: nat, name: Name, ino: nat, mode: int, room: bool)
    requires Sound(v, depth) && Allowed(v, MakeNode(d, name, ino, mode, room)) && !DirectoryMode(mode)
    ensures Sound(Do(v, MakeNode(d, name, ino, mode, room)), depth)
  {
    hide Tree, DirOk, Lookup, Add, Remove, Last, Proper, EmptyDir, Entries, Unused, NewDir, Numbered, Counted, IsNew;
    var b := Do(v, MakeNode(d, name, ino, mode, room));
    TreeDir(v.dirs, depth, d);
    NewIsUnused(v, ino);
    LinksSuffice(v, ino);
    EnterFileKeepsTree(v.dirs, depth, d, name, ino, room);
    EnterEntries(v.dirs, d, name, ino, room);
    assert b.dirs == v.dirs[d := Add(v.dirs[d], name, ino, room).value];
    EnterBooks(v, b, ino, 1);
  }

  lemma LinkFileKeeps(v: Vol, depth: map<nat, nat>, d: nat, name: Name, ino: nat, room: bool)
    requires Sound(v, depth) && Allowed(v, LinkFile(d, name, ino, room)) && LinksOf(v, ino) < LINKS_MAX
    ensures Sound(Do(v, LinkFile(d, name, ino, room)), depth)
  {
    hide Tree, DirOk, Lookup, Add, Remove, Last, Proper, EmptyDir, Entries, Unused, NewDir, Numbered, Counted, IsNew;
    var b := Do(v, LinkFile(d, name, ino, room));
    TreeDir(v.dirs, depth, d);
    LinksSuffice(v, ino);
    assert b.used == v.used + {ino};
    EnterFileKeepsTree(v.dirs, depth, d, name, ino, room);
    EnterEntries(v.dirs, d, name, ino, room);
    EnterBooks(v, b, ino, LinksOf(v, ino) + 1);
  }

  lemma MakeDirKeeps(v: Vol, depth: map<nat, nat>, d: nat, name: Name, ino: nat, room: bool)
    requires Sound(v, depth) && Allowed(v, MakeDir(d, name, ino, room)) && LinksOf(v, d) < LINKS_MAX
    ensures Sound(Do(v, MakeDir(d, name, ino, room)), DepthAfter(depth, MakeDir(d, name, ino, room)))
  {
    hide Tree, DirOk, Lookup, Add, Remove, Last, Proper, EmptyDir, Entries, Unused, NewDir, Numbered, Counted, IsNew;
    var b := Do(v, MakeDir(d, name, ino, room));
    TreeDir(v.dirs, depth, d);
    RootDepth(v.dirs, depth, d);
    NewIsUnused(v, ino);
    LinksSuffice(v, d);
    LinksSuffice(v, ino);
    UnusedIsNew(v.dirs, ino);
    MakeDirKeepsTree(v.dirs, depth, d, name, ino, room);
    EnterEntries(v.dirs, d, name, ino, room);
    EntriesGrow(v.dirs[d := Add(v.dirs[d], name, ino, room).value], d, ino);
    GrowBooks(v, b, d, ino, LinksOf(v, d) + 1);
  }

  lemma LookupNotZero(slots: seq<Slot>, name: Name)
    requires Lookup(slots, name).Some?
    ensures Lookup(slots, name).value != 0
  {
  }

  lemma FoundIsUsed(v: Vol, d: nat, name: Name)
    requires Numbered(v) && Taken(v, d, name) && Entries(v.dirs, Found(v, d, name)) > 0
    ensures Found(v, d, name) in v.used && Found(v, d, name) != 0
  {
  }

  // Only a proper name stands for a file.
  lemma MovedIsProper(dirs: Dirs, depth: map<nat, nat>, p: nat, name: Name)
    requires Tree(dirs, depth) && p in dirs && Last(name) && Lookup(dirs[p], name).Some?
    requires Lookup(dirs[p], name).value !in dirs
    ensures Proper(name)
  {
  }

  lemma UnlinkKeeps(v: Vol, depth: map<nat, nat>, d: nat, name: Name)
    requires Sound(v, depth) && Allowed(v, Unlink(d, name))
    ensures Sound(Do(v, Unlink(d, name)), depth)
  {
    hide Tree, DirOk, Lookup, Add, Remove, Last, Proper, EmptyDir, Entries, Unused, NewDir, Numbered, Counted, IsNew;
    var b, y := Do(v, Unlink(d, name)), Found(v, d, name);
    TreeDir(v.dirs, depth, d);
    var i := RemoveEntries(v.dirs, d, name);
    FoundIsUsed(v, d, name);
    LinksSuffice(v, y);
    UnlinkKeepsTree(v.dirs, depth, d, name);
    LeaveBooks(v, b, y, LinksOf(v, y) - 1);
  }

  lemma RemoveDirKeeps(v: Vol, depth: map<nat, nat>, d: nat, name: Name)
    requires Sound(v, depth) && Allowed(v, RemoveDir(d, name)) && LinksOf(v, d) != 1
    ensures Sound(Do(v, RemoveDir(d, name)), depth)
  {
    hide Tree, DirOk, Lookup, Add, Remove, Last, Proper, EmptyDir, Entries, Unused, NewDir, Numbered, Counted, IsNew;
    TreeDir(v.dirs, depth, d);
    RemovedIsNameless(v, depth, d, name);
    LinksSuffice(v, d);
    RemoveDirKeepsTree(v.dirs, depth, d, name);
    var i := RemoveEntries(v.dirs, d, name);
    EntriesPrune(v.dirs[d := Remove(v.dirs[d], name).value], Found(v, d, name));
    PruneBooks(v, Do(v, RemoveDir(d, name)), d, Found(v, d, name), LinksOf(v, d) - 1);
  }

  lemma NamelessIsEmpty(dirs: Dirs, y: nat)
    requires forall q: nat, k: nat :: q in dirs && k < |dirs[q]| ==> dirs[q][k].ino != y
    ensures Entries(dirs, y) == 0
  {
  }

  lemma RemovedIsNameless(v: Vol, depth: map<nat, nat>, d: nat, name: Name)
    requires Tree(v.dirs, depth) && Allowed(v, RemoveDir(d, name))
    ensures d != Found(v, d, name) && Entries(Do(v, RemoveDir(d, name)).dirs, Found(v, d, name)) == 0
  {
    var b: Dirs, y := Do(v, RemoveDir(d, name)).dirs, Found(v, d, name);
    TreeDir(v.dirs, depth, d);
    var i := RemoveEntries(v.dirs, d, name);
    OnlyChild(v.dirs, depth, d, i);
    hide Tree, DirOk, Lookup, Remove, Last, Proper, Entries;
    forall q: nat, k: nat | q in b && k < |b[q]| ensures b[q][k].ino != y {
      if k < |v.dirs[q]| && v.dirs[q][k].ino == y {
        OnlyParentNames(v.dirs, depth, d, i, q, k);
      }
    }
    NamelessIsEmpty(b, y);
  }

  // A rename within a directory changes no number's entries.
  lemma WithinEntries(dirs: Dirs, d: nat, from: Name, to: Name, room: bool)
    requires d in dirs && DirOk(dirs[d], d) && Last(from) && Last(to) && Rename(dirs[d], from, to, room).Some?
    requires (Lookup(dirs[d], to).None? && Proper(from)) || from == to
    ensures forall x: nat :: x != 0 ==>
              Entries(dirs[d := Rename(dirs[d], from, to, room).value], x) == Entries(dirs, x)
  {
    var s := Rename(dirs[d], from, to, room).value;
    if Proper(from) {
      var i, j := RenameSlides(dirs[d], d, from, to, room);
      forall x: nat | x != 0 ensures Entries(dirs[d := s], x) == Entries(dirs, x) {
        NamesSlide(dirs, d, s, i, j, x);
      }
    } else {
      RenameDots(dirs[d], d, from, to, room);
      forall x: nat | x != 0 ensures Entries(dirs[d := s], x) == Entries(dirs, x) {
        NamesRetouch(dirs, d, s, x);
      }
    }
  }

  lemma MoveWithinSound(v: Vol, depth: map<nat, nat>, op: Op)
    requires Sound(v, depth) && Allowed(v, op) && op.Move? && op.dir == op.dest && Harmless(v, op)
    ensures Sound(Do(v, op), depth)
  {
    hide Tree, DirOk, Rename, Lookup, Last, Proper, Entries, Numbered, Counted;
    TreeDir(v.dirs, depth, op.dir);
    MoveWithinKeeps(v.dirs, depth, op.dir, op.name, op.to, op.room);
    WithinEntries(v.dirs, op.dir, op.name, op.to, op.room);
    SameBooks(v, Do(v, op));
  }

  lemma MoveToDirectorySound(v: Vol, depth: map<nat, nat>, op: Op)
    requires Sound(v, depth) && Allowed(v, op) && op.Move? && op.dir != op.dest && Harmless(v, op) && op.dest in v.dirs
    ensures Sound(Do(v, op), depth)
  {
    hide Tree, DirOk, Lookup, Add, Remove, Last, Proper, EmptyDir, Entries, Unused, NewDir, Numbered, Counted, IsNew;
    var p, q, y := op.dir, op.dest, Found(v, op.dir, op.name);
    MovedIsProper(v.dirs, depth, p, op.name);
    TreeDir(v.dirs, depth, p);
    TreeDir(v.dirs, depth, q);
    LinksSuffice(v, p);
    LookupNotZero(v.dirs[p], op.name);
    MoveFileKeeps(v.dirs, depth, p, op.name, q, op.to, op.room);
    EnterEntries(v.dirs, q, op.to, y, op.room);
    var i := RemoveEntries(v.dirs[q := Add(v.dirs[q], op.to, y, op.room).value], p, op.name);
    MoveBooks(v, Do(v, op), p, LinksOf(v, p) - 1, q, LinksOf(v, q) + 1);
  }

  lemma MoveToFileSound(v: Vol, depth: map<nat, nat>, op: Op)
    requires Sound(v, depth) && Allowed(v, op) && op.Move? && op.dir != op.dest && Harmless(v, op) && op.dest !in v.dirs
    ensures Sound(Do(v, op), depth)
  {
    hide Tree, DirOk, Lookup, Add, Remove, Last, Proper, EmptyDir, Entries, Unused, NewDir, Numbered, Counted, IsNew;
    var p := op.dir;
    MovedIsProper(v.dirs, depth, p, op.name);
    TreeDir(v.dirs, depth, p);
    LinksSuffice(v, p);
    LinksSuffice(v, op.dest);
    UnlinkKeepsTree(v.dirs, depth, p, op.name);
    var i := RemoveEntries(v.dirs, p, op.name);
    MoveBooks(v, Do(v, op), p, LinksOf(v, p) - 1, op.dest, Up(LinksOf(v, op.dest)));
  }

  lemma GiveUpKeeps(v: Vol, depth: map<nat, nat>, ino: nat)
    requires Sound(v, depth) && Allowed(v, GiveUp(ino))
    ensures Sound(Do(v, GiveUp(ino)), depth)
  {
    hide Tree;
    assert Entries(v.dirs, ino) == 0;
  }

  lemma HarmlessKeeps(v: Vol, depth: map<nat, nat>, op: Op)
    requires Sound(v, depth) && Allowed(v, op) && Harmless(v, op)
    ensures Sound(Do(v, op), DepthAfter(depth, op))
  {
    hide Sound, Allowed, Do;
    match op {
      case MakeNode(d, name, ino, mode, room) => MakeNodeKeeps(v, depth, d, name, ino, mode, room);
      case LinkFile(d, name, ino, room) => LinkFileKeeps(v, depth, d, name, ino, room);
      case MakeDir(d, name, ino, room) => MakeDirKeeps(v, depth, d, name, ino, room);
      case Unlink(d, name) => UnlinkKeeps(v, depth, d, name);
      case RemoveDir(d, name) => RemoveDirKeeps(v, depth, d, name);
      case Move(p, _, q, _, _) =>
        if p == q {
          MoveWithinSound(v, depth, op);
        } else if q in v.dirs {
          MoveToDirectorySound(v, depth, op);
        } else {
          MoveToFileSound(v, depth, op);
        }
      case GiveUp(ino) => GiveUpKeeps(v, depth, ino);
    }
  }

  // ---------------------------------------------------------------------
  // Harmful calls
  // ---------------------------------------------------------------------

  // mknod with the directory bit makes a directory that has no slots.
  lemma NodeBreaks(v: Vol, op: Op, size: int)
    requires Allowed(v, op) && op.MakeNode? && DirectoryMode(op.mode) && op.ino != ROOT
    ensures !DirsOk(Do(v, op).dirs) && Cwd(Do(v, op).dirs, op.ino, size) == None
  {
    assert Do(v, op).dirs[op.ino] == [];
  }

  // A file that is linked once too often has no links.
  lemma LinkBreaks(v: Vol, depth: map<nat, nat>, op: Op)
    requires Sound(v, depth) && Allowed(v, op) && op.LinkFile? && LinksOf(v, op.ino) == LINKS_MAX
    ensures !Counted(Do(v, op))
  {
    var b := Do(v, op);
    TreeDir(v.dirs, depth, op.dir);
    EnterEntries(v.dirs, op.dir, op.name, op.ino, op.room);
    assert LinksOf(b, op.ino) == 0 && op.ino !in b.dirs;
  }

  lemma DirectoryCountBreaks(v: Vol, depth: map<nat, nat>, op: Op)
    requires Sound(v, depth) && Allowed(v, op)
    requires (op.MakeDir? && LinksOf(v, op.dir) == LINKS_MAX) || (op.RemoveDir? && LinksOf(v, op.dir) == 1)
    ensures !Counted(Do(v, op))
  {
    var b := Do(v, op);
    if op.RemoveDir? {
      RemovedIsNameless(v, depth, op.dir, op.name);
    }
    assert op.dir in b.dirs && LinksOf(b, op.dir) == 0;
  }

  // A directory whose entry is removed is entered nowhere.
  lemma RemovedDirectoryIsLost(dirs: Dirs, depth: map<nat, nat>, p: nat, name: Name, after: map<nat, nat>)
    requires Tree(dirs, depth) && p in dirs && Last(name) && Lookup(dirs[p], name).Some?
    requires Lookup(dirs[p], name).value in dirs && Remove(dirs[p], name).Some?
    ensures !Tree(dirs[p := Remove(dirs[p], name).value], after)
  {
    var x, s := Lookup(dirs[p], name).value, Remove(dirs[p], name).value;
    TreeDir(dirs, depth, p);
    if !Proper(name) {
      DotSlots(dirs[p], p);
      assert dirs[p := s][p] == s && !DirOk(s, p);
    } else {
      var i := RemovesFound(dirs[p], p, name);
      OnlyChild(dirs, depth, p, i);
      RemovedHangs(dirs, after, p, s, i, x);
    }
  }

  lemma RemovedHangs(dirs: Dirs, depth: map<nat, nat>, p: nat, s: seq<Slot>, i: nat, x: nat)
    requires p in dirs && ChangedAt(dirs[p], s, i) && i < |dirs[p]| && s[i].ino == 0 && dirs[p][i].ino == x
    requires x in dirs && x != 0 && x != p && x != ROOT && Parent(dirs, x) == p
    requires forall k: nat :: k < |dirs[p]| && k != i ==> dirs[p][k].ino != x
    ensures !Hangs(dirs[p := s], depth, x)
  {
  }

  // A directory that goes into a file's bytes is entered nowhere.
  lemma MoveIntoFileBreaks(v: Vol, depth: map<nat, nat>, op: Op, after: map<nat, nat>)
    requires Tree(v.dirs, depth) && Allowed(v, op) && op.Move? && op.dest !in v.dirs && op.dir != op.dest
    requires Found(v, op.dir, op.name) in v.dirs
    ensures !Tree(Do(v, op).dirs, after)
  {
    hide Tree, Lookup, Remove, Rename, Last, Entries, CanMove, IsNew, EmptyDir, Proper;
    RemovedDirectoryIsLost(v.dirs, depth, op.dir, op.name, after);
  }

  // A directory or a file that loses its last link, or gets one too many, has none.
  lemma MoveCountBreaks(v: Vol, depth: map<nat, nat>, op: Op)
    requires Sound(v, depth) && Allowed(v, op) && op.Move? && op.dir != op.dest
    requires Found(v, op.dir, op.name) !in v.dirs && !Taken(v, op.dest, op.to) && !Harmless(v, op)
    ensures !Counted(Do(v, op))
  {
    hide Tree, DirOk, Lookup, Add, Remove, Last, Proper, Entries, Numbered;
    var p, q, b := op.dir, op.dest, Do(v, op);
    if LinksOf(v, p) != 1 && q !in v.dirs {
      MoveToFileCount(v, depth, op);
    } else if LinksOf(v, p) == 1 {
      assert p in b.dirs && LinksOf(b, p) == 0;
    } else {
      assert q in b.dirs && LinksOf(b, q) == 0;
    }
  }

  // The file that counts a link too many had a name, and keeps one.
  lemma MoveToFileCount(v: Vol, depth: map<nat, nat>, op: Op)
    requires Sound(v, depth) && Allowed(v, op) && op.Move? && op.dir != op.dest && op.dest !in v.dirs
    requires Found(v, op.dir, op.name) !in v.dirs && LinksOf(v, op.dir) != 1 && !Harmless(v, op)
    ensures !Counted(Do(v, op))
  {
    hide Tree, DirOk, Lookup, Add, Remove, Last, Proper, Entries, Numbered, Counted;
    var p, q, b := op.dir, op.dest, Do(v, op);
    MovedIsProper(v.dirs, depth, p, op.name);
    TreeDir(v.dirs, depth, p);
    var i := RemoveEntries(v.dirs, p, op.name);
    LinksSuffice(v, q);
    assert LinksOf(b, q) == 0 && Entries(b.dirs, q) > 0;
    UncountedFile(b, q);
  }

  lemma UncountedFile(v: Vol, ino: nat)
    requires ino in v.used && ino !in v.dirs && LinksOf(v, ino) == 0 && Entries(v.dirs, ino) > 0
    ensures !Counted(v)
  {
  }

  lemma MoveBreaks(v: Vol, depth: map<nat, nat>, op: Op, after: map<nat, nat>)
    requires Sound(v, depth) && Allowed(v, op) && op.Move? && !Harmless(v, op)
    ensures !Sound(Do(v, op), after)
  {
    var p, q := op.dir, op.dest;
    if p == q {
      MoveWithinBreaks(v.dirs, depth, p, op.name, op.to, op.room);
    } else if Found(v, p, op.name) in v.dirs && q !in v.dirs {
      MoveIntoFileBreaks(v, depth, op, after);
    } else if q in v.dirs && (Taken(v, q, op.to) || Found(v, p, op.name) in v.dirs) {
      MoveAcrossBreaks(v.dirs, depth, p, op.name, q, op.to, op.room, after);
    } else {
      MoveCountBreaks(v, depth, op);
    }
  }

  lemma HarmBreaks(v: Vol, depth: map<nat, nat>, op: Op, after: map<nat, nat>)
    requires Sound(v, depth) && Allowed(v, op) && !Harmless(v, op)
    ensures !Sound(Do(v, op), after)
  {
    if op.MakeNode? {
      NodeBreaks(v, op, 0);
    } else if op.LinkFile? {
      LinkBreaks(v, depth, op);
    } else if op.Move? {
      hide Harmless, Do, Allowed;
      MoveBreaks(v, depth, op, after);
    } else {
      DirectoryCountBreaks(v, depth, op);
    }
  }

  /** Every call that succeeds keeps the volume whole, with its directories a tree and no inode in
      use without the links its entries need, exactly when it is harmless. */
  lemma StepKeepsWholeIff(v: Vol, op: Op)
    requires Whole(v) && Allowed(v, op)
    ensures Harmless(v, op) <==> Whole(Do(v, op))
  {
    var depth :| Sound(v, depth);
    hide Sound, Allowed, Do;
    if Harmless(v, op) {
      HarmlessKeeps(v, depth, op);
    } else {
      forall after ensures !Sound(Do(v, op), after) {
        HarmBreaks(v, depth, op, after);
      }
    }
  }

  ghost predicate AllHarmless(v: Vol, ops: seq<Op>)
    decreases |ops|
  {
    ops == [] || (Allowed(v, ops[0]) && Harmless(v, ops[0]) && AllHarmless(Do(v, ops[0]), ops[1..]))
  }

  ghost function DoAll(v: Vol, ops: seq<Op>): Vol
    requires AllHarmless(v, ops)
    decreases |ops|
  {
    if ops == [] then v else DoAll(Do(v, ops[0]), ops[1..])
  }

  /** Every run of harmless calls keeps the volume whole, so getcwd's path keeps resolving and a
      number that new_inode hands out is entered nowhere. */
  lemma {:induction false} RunKeepsWhole(v: Vol, ops: seq<Op>)
    requires Whole(v) && AllHarmless(v, ops)
    ensures Whole(DoAll(v, ops))
    ensures forall ino: nat :: IsNew(DoAll(v, ops).used, ino) ==> Entries(DoAll(v, ops).dirs, ino) == 0
    decreases |ops|
  {
    hide Allowed, Harmless, Do;
    if ops == [] {
      var depth :| Sound(v, depth);
      forall ino: nat | IsNew(v.used, ino) ensures Entries(v.dirs, ino) == 0 {
        NewIsUnused(v, ino);
      }
    } else {
      hide Whole;
      StepKeepsWholeIff(v, ops[0]);
      RunKeepsWhole(Do(v, ops[0]), ops[1..]);
    }
  }

  // The file system mkfs makes.
  function FreshVolume(): Vol {
    Vol(map[ROOT := NewDir(ROOT, ROOT)], map[ROOT := 2], {ROOT})
  }

  lemma FreshIsSound()
    ensures Sound(FreshVolume(), map[ROOT := 0])
  {
    var v := FreshVolume();
    FreshIsTree();
    forall ino: nat | ino != 0 && Entries(v.dirs, ino) > 0 ensures ino in v.used {
      var e :| e in Names(v.dirs, ino);
    }
  }
}
