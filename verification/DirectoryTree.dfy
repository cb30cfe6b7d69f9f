/** What the system calls do to the tree of directories (kernel/sys.c), one directory entry at a
    time: which changes keep it and which break it. */
module DirectoryTree {
  import opened Layout
  import opened Directory
  import opened DirectoryCache
  import opened Paths

  // b is a with slot i, behind the first two, changed or appended.
  predicate ChangedAt(a: seq<Slot>, b: seq<Slot>, i: nat) {
    && 2 <= i < |b| && |a| <= |b| && (i < |a| ==> |b| == |a|) && (i >= |a| ==> i == |a| && |b| == |a| + 1)
    && forall k :: 0 <= k < |a| && k != i ==> a[k] == b[k]
  }

  lemma AddKeepsDir(slots: seq<Slot>, d: nat, name: Name, ino: nat, room: bool)
    requires DirOk(slots, d) && Proper(name) && ino != 0
    requires Lookup(slots, name) == None && Add(slots, name, ino, room).Some?
    ensures var s, i := Add(slots, name, ino, room).value, FirstFree(slots, 0);
            && DirOk(s, d) && ChangedAt(slots, s, i) && s[i].ino == ino && (i < |slots| ==> slots[i].ino == 0)
  {
    AddEnters(slots, name, ino, room);
    TextOfPad(name);
    var s, i := Add(slots, name, ino, room).value, FirstFree(slots, 0);
    assert TextAt(s, i) == name;
    assert forall k: nat :: k < |slots| && k != i ==> s[k] == slots[k] && TextAt(s, k) == TextAt(slots, k);
  }

  lemma RemoveKeepsDir(slots: seq<Slot>, d: nat, name: Name)
    requires DirOk(slots, d) && Proper(name) && Remove(slots, name).Some?
    ensures var s, i := Remove(slots, name).value, FirstLiveNamed(slots, name, 0);
            DirOk(s, d) && i < |slots| && ChangedAt(slots, s, i) && s[i].ino == 0
  {
    RemoveTakes(slots, name);
    var s, i := Remove(slots, name).value, FirstLiveNamed(slots, name, 0);
    assert forall k: nat :: k < |slots| ==> TextAt(s, k) == TextAt(slots, k);
    assert i != 0 && i != 1;
  }

  // Two sets of directories with the same directories as children of each other.
  ghost predicate SameShape(a: Dirs, b: Dirs) {
    && a.Keys == b.Keys
    && (forall d :: d in a && |a[d]| >= 2 ==> |b[d]| >= 2 && a[d][1].ino == b[d][1].ino)
    && forall q: nat, i: nat :: Child(a, q, i) == Child(b, q, i) && (Child(a, q, i) ==> a[q][i].ino == b[q][i].ino)
  }

  lemma SameShapeKeepsTree(a: Dirs, b: Dirs, depth: map<nat, nat>)
    requires Tree(a, depth) && DirsOk(b) && SameShape(a, b)
    ensures Tree(b, depth)
  {
    hide DirOk, Hangs, Entered, SameShape;
    TreeSizes(a);
    SameShapeKeys(a, b);
    forall d | d in b ensures Hangs(b, depth, d) {
      SameShapeHangs(a, b, depth, d);
    }
    forall q: nat, i: nat ensures Entered(b, q, i) {
      SameShapeEntered(a, b, q, i);
    }
  }

  lemma TreeSizes(dirs: Dirs)
    requires DirsOk(dirs)
    ensures forall d :: d in dirs ==> |dirs[d]| >= 2
  {
  }

  lemma SameShapeKeys(a: Dirs, b: Dirs)
    requires SameShape(a, b)
    ensures forall d :: d in a <==> d in b
  {
  }

  lemma SameShapeHangs(a: Dirs, b: Dirs, depth: map<nat, nat>, d: nat)
    requires SameShape(a, b) && d in b && (d in a ==> |a[d]| >= 2 && Hangs(a, depth, d))
    ensures Hangs(b, depth, d)
  {
  }

  lemma SameShapeEntered(a: Dirs, b: Dirs, q: nat, i: nat)
    requires SameShape(a, b) && Entered(a, q, i) && forall d :: d in a ==> |a[d]| >= 2
    ensures Entered(b, q, i)
  {
  }

  // An entry that is no directory, before and after, does not matter to the tree.
  lemma FileKeepsTree(dirs: Dirs, depth: map<nat, nat>, d: nat, s: seq<Slot>, i: nat)
    requires Tree(dirs, depth) && d in dirs && DirOk(s, d) && ChangedAt(dirs[d], s, i)
    requires s[i].ino !in dirs && (i < |dirs[d]| ==> dirs[d][i].ino !in dirs)
    ensures Tree(dirs[d := s], depth)
  {
    SetKeepsDirs(dirs, d, s);
    FileKeepsShape(dirs, d, s, i);
    SameShapeKeepsTree(dirs, dirs[d := s], depth);
  }

  lemma SetKeepsDirs(dirs: Dirs, d: nat, s: seq<Slot>)
    requires DirsOk(dirs) && DirOk(s, d)
    ensures DirsOk(dirs[d := s])
  {
  }

  lemma FileKeepsShape(dirs: Dirs, d: nat, s: seq<Slot>, i: nat)
    requires d in dirs && ChangedAt(dirs[d], s, i) && |dirs[d]| >= 2
    requires s[i].ino !in dirs && (i < |dirs[d]| ==> dirs[d][i].ino !in dirs)
    ensures SameShape(dirs, dirs[d := s])
  {
  }

  function NewDir(ino: nat, parent: nat): seq<Slot> {
    [Slot(ino, Pad(SELF)), Slot(parent, Pad(UP))]
  }

  lemma NewDirOk(ino: nat, parent: nat)
    requires ino != 0 && parent != 0
    ensures DirOk(NewDir(ino, parent), ino)
  {
    TextOfPad(SELF);
    TextOfPad(UP);
    assert SELF != UP;
  }

  // The entry at (d, i) is the only one for a number that is no directory yet.
  ghost predicate OnlyEntry(dirs: Dirs, d: nat, i: nat, ino: nat) {
    && d in dirs && ino !in dirs && ino != 0 && 2 <= i < |dirs[d]| && dirs[d][i].ino == ino
    && forall q: nat, k: nat :: q in dirs && k < |dirs[q]| && dirs[q][k].ino == ino ==> q == d && k == i
  }

  // That number becomes a directory.
  lemma GrowKeepsTree(dirs: Dirs, depth: map<nat, nat>, d: nat, i: nat, ino: nat)
    requires Tree(dirs, depth) && OnlyEntry(dirs, d, i, ino) && d in depth
    ensures Tree(dirs[ino := NewDir(ino, d)], depth[ino := depth[d] + 1])
  {
    hide DirOk, Hangs, Entered;
    var b, depth' := dirs[ino := NewDir(ino, d)], depth[ino := depth[d] + 1];
    GrowDirsOk(dirs, d, i, ino);
    forall x | x in b ensures Hangs(b, depth', x) {
      GrowHangs(dirs, depth, d, i, ino, x);
    }
    forall q: nat, k: nat ensures Entered(b, q, k) {
      GrowEntered(dirs, d, i, ino, q, k);
    }
  }

  lemma GrowDirsOk(dirs: Dirs, d: nat, i: nat, ino: nat)
    requires DirsOk(dirs) && OnlyEntry(dirs, d, i, ino)
    ensures DirsOk(dirs[ino := NewDir(ino, d)])
  {
    NewDirOk(ino, d);
    SetKeepsDirs(dirs, ino, NewDir(ino, d));
  }

  lemma GrowHangs(dirs: Dirs, depth: map<nat, nat>, d: nat, i: nat, ino: nat, x: nat)
    requires OnlyEntry(dirs, d, i, ino) && d in depth && ino != ROOT
    requires x == ino || (x in dirs && Hangs(dirs, depth, x))
    ensures Hangs(dirs[ino := NewDir(ino, d)], depth[ino := depth[d] + 1], x)
  {
    var b := dirs[ino := NewDir(ino, d)];
    if x == ino {
      assert Parent(b, x) == d && Child(b, d, i) && b[d][i].ino == ino;
    } else if x != ROOT {
      var p := Parent(dirs, x);
      var k: nat :| Child(dirs, p, k) && dirs[p][k].ino == x;
      assert Parent(b, x) == p && Child(b, p, k) && b[p][k].ino == x;
    }
  }

  lemma GrowEntered(dirs: Dirs, d: nat, i: nat, ino: nat, q: nat, k: nat)
    requires OnlyEntry(dirs, d, i, ino) && ino != ROOT && Entered(dirs, q, k)
    requires forall x: nat :: Entered(dirs, d, x)
    ensures Entered(dirs[ino := NewDir(ino, d)], q, k)
  {
  }

  predicate EmptyDir(slots: seq<Slot>) {
    forall i :: 2 <= i < |slots| ==> slots[i].ino == 0
  }

  // An empty directory can go; its entry is then like a file's.
  lemma PruneKeepsTree(dirs: Dirs, depth: map<nat, nat>, x: nat)
    requires Tree(dirs, depth) && x in dirs && x != ROOT && EmptyDir(dirs[x])
    ensures Tree(dirs - {x}, depth)
  {
    var b := dirs - {x};
    assert 0 !in dirs;
    hide DirOk, Hangs, Entered;
    assert DirsOk(b);
    forall d | d in b ensures Hangs(b, depth, d) {
      PruneHangs(dirs, depth, x, d);
    }
    forall q: nat, k: nat ensures Entered(b, q, k) {
      PruneEntered(dirs, x, q, k);
    }
  }

  lemma PruneHangs(dirs: Dirs, depth: map<nat, nat>, x: nat, d: nat)
    requires x in dirs && x != ROOT && EmptyDir(dirs[x]) && 0 !in dirs
    requires d in dirs && d != x && Hangs(dirs, depth, d)
    ensures Hangs(dirs - {x}, depth, d)
  {
    if d != ROOT {
      var p := Parent(dirs, d);
      var k: nat :| Child(dirs, p, k) && dirs[p][k].ino == d;
      assert Child(dirs - {x}, p, k);
    }
  }

  lemma PruneEntered(dirs: Dirs, x: nat, q: nat, k: nat)
    requires Entered(dirs, q, k)
    ensures Entered(dirs - {x}, q, k)
  {
  }

  // The number is used by no entry of any directory.
  ghost predicate Unused(dirs: Dirs, ino: nat) {
    && ino != 0 && ino !in dirs
    && forall q: nat, k: nat :: q in dirs && k < |dirs[q]| ==> dirs[q][k].ino != ino
  }

  // A name that a directory does not hold is neither "." nor "..".
  lemma AbsentIsProper(slots: seq<Slot>, d: nat, name: Name)
    requires DirOk(slots, d) && Last(name) && Lookup(slots, name) == None
    ensures Proper(name)
  {
  }

  lemma EnterFileKeepsTree(dirs: Dirs, depth: map<nat, nat>, d: nat, name: Name, ino: nat, room: bool)
    requires Tree(dirs, depth) && d in dirs && Last(name) && Lookup(dirs[d], name) == None
    requires ino != 0 && ino !in dirs && Add(dirs[d], name, ino, room).Some?
    ensures Tree(dirs[d := Add(dirs[d], name, ino, room).value], depth)
  {
    AbsentIsProper(dirs[d], d, name);
    AddKeepsDir(dirs[d], d, name, ino, room);
    FileKeepsTree(dirs, depth, d, Add(dirs[d], name, ino, room).value, FirstFree(dirs[d], 0));
  }

  lemma TreeDir(dirs: Dirs, depth: map<nat, nat>, d: nat)
    requires Tree(dirs, depth) && d in dirs
    ensures DirOk(dirs[d], d) && 0 !in dirs
  {
  }

  lemma AddedIsOnlyEntry(dirs: Dirs, d: nat, s: seq<Slot>, i: nat, ino: nat)
    requires d in dirs && Unused(dirs, ino) && ChangedAt(dirs[d], s, i) && s[i].ino == ino
    ensures OnlyEntry(dirs[d := s], d, i, ino)
  {
  }

  lemma AddedGrows(dirs: Dirs, depth: map<nat, nat>, d: nat, s: seq<Slot>, i: nat, ino: nat)
    requires Tree(dirs, depth) && d in dirs && d in depth && Unused(dirs, ino)
    requires DirOk(s, d) && ChangedAt(dirs[d], s, i) && s[i].ino == ino && (i < |dirs[d]| ==> dirs[d][i].ino == 0)
    ensures Tree(dirs[d := s][ino := NewDir(ino, d)], depth[ino := depth[d] + 1])
  {
    hide Tree, DirOk, OnlyEntry;
    TreeDir(dirs, depth, d);
    FileKeepsTree(dirs, depth, d, s, i);
    AddedIsOnlyEntry(dirs, d, s, i, ino);
    GrowKeepsTree(dirs[d := s], depth, d, i, ino);
  }

  lemma MakeDirKeepsTree(dirs: Dirs, depth: map<nat, nat>, d: nat, name: Name, ino: nat, room: bool)
    requires Tree(dirs, depth) && d in dirs && d in depth && Last(name) && Lookup(dirs[d], name) == None
    requires Unused(dirs, ino) && Add(dirs[d], name, ino, room).Some?
    ensures Tree(dirs[d := Add(dirs[d], name, ino, room).value][ino := NewDir(ino, d)], depth[ino := depth[d] + 1])
  {
    hide Tree, DirOk, Unused, Lookup, Last, ChangedAt;
    TreeDir(dirs, depth, d);
    UnusedIsNew(dirs, ino);
    AbsentIsProper(dirs[d], d, name);
    AddKeepsDir(dirs[d], d, name, ino, room);
    AddedGrows(dirs, depth, d, Add(dirs[d], name, ino, room).value, FirstFree(dirs[d], 0), ino);
  }

  lemma UnusedIsNew(dirs: Dirs, ino: nat)
    requires Unused(dirs, ino)
    ensures ino !in dirs && ino != 0
  {
  }

  lemma UnlinkKeepsTree(dirs: Dirs, depth: map<nat, nat>, d: nat, name: Name)
    requires Tree(dirs, depth) && d in dirs && Proper(name)
    requires Lookup(dirs[d], name).Some? && Lookup(dirs[d], name).value !in dirs
    ensures Remove(dirs[d], name).Some? && Tree(dirs[d := Remove(dirs[d], name).value], depth)
  {
    var i := RemovesFound(dirs[d], d, name);
    FileKeepsTree(dirs, depth, d, Remove(dirs[d], name).value, i);
  }

  // What a removal clears is the slot the lookup found.
  lemma RemovesFound(slots: seq<Slot>, d: nat, name: Name) returns (i: nat)
    requires DirOk(slots, d) && Proper(name) && Lookup(slots, name).Some?
    ensures Remove(slots, name).Some?
    ensures i < |slots| && slots[i].ino == Lookup(slots, name).value
    ensures var s := Remove(slots, name).value; DirOk(s, d) && ChangedAt(slots, s, i) && s[i].ino == 0
  {
    i := FirstNamed(slots, name, 0);
    var j := FirstLiveNamed(slots, name, 0);
    assert j <= i && TextAt(slots, j) == name;
    RemoveKeepsDir(slots, d, name);
  }

  lemma RemoveDirKeepsTree(dirs: Dirs, depth: map<nat, nat>, d: nat, name: Name)
    requires Tree(dirs, depth) && d in dirs && Proper(name) && Lookup(dirs[d], name).Some?
    requires Lookup(dirs[d], name).value in dirs && EmptyDir(dirs[Lookup(dirs[d], name).value])
    ensures Remove(dirs[d], name).Some?
    ensures Tree(dirs[d := Remove(dirs[d], name).value] - {Lookup(dirs[d], name).value}, depth)
  {
    var x := Lookup(dirs[d], name).value;
    hide Tree, DirOk, Lookup, Remove, Proper, EmptyDir;
    TreeDir(dirs, depth, d);
    var i := RemovesFound(dirs[d], d, name);
    OnlyChild(dirs, depth, d, i);
    ClearedPrunes(dirs, depth, d, x, Remove(dirs[d], name).value, i);
  }

  lemma ClearedPrunes(dirs: Dirs, depth: map<nat, nat>, d: nat, x: nat, s: seq<Slot>, i: nat)
    requires Tree(dirs, depth) && d in dirs && x in dirs && x != ROOT && x != d && EmptyDir(dirs[x])
    requires DirOk(s, d) && i < |dirs[d]| && dirs[d][i].ino == x && ChangedAt(dirs[d], s, i) && s[i].ino == 0
    ensures Tree(dirs[d := s] - {x}, depth)
  {
    hide Tree, DirOk, EmptyDir;
    TreeDir(dirs, depth, d);
    PruneKeepsTree(dirs, depth, x);
    FileKeepsTree(dirs - {x}, depth, d, s, i);
    assert (dirs - {x})[d := s] == dirs[d := s] - {x};
  }

  // A directory entered in d is neither d nor the root and is entered there once.
  lemma OnlyChild(dirs: Dirs, depth: map<nat, nat>, d: nat, i: nat)
    requires Tree(dirs, depth) && d in dirs && i < |dirs[d]| && dirs[d][i].ino in dirs && i >= 2
    ensures var x := dirs[d][i].ino;
            && x != ROOT && x != d && Parent(dirs, x) == d
            && forall k: nat :: k < |dirs[d]| && k != i ==> dirs[d][k].ino != x
  {
    var x := dirs[d][i].ino;
    assert Child(dirs, d, i) && Entered(dirs, d, i) && Hangs(dirs, depth, x) && Hangs(dirs, depth, d);
    forall k: nat | k < |dirs[d]| && k != i ensures dirs[d][k].ino != x {
      assert DirOk(dirs[d], d);
      if 2 <= k && dirs[d][k].ino == x {
        assert Child(dirs, d, k);
      }
    }
  }

  // An entry of d moves from slot i to slot j of the same directory.
  ghost predicate Slides(a: seq<Slot>, b: seq<Slot>, i: nat, j: nat) {
    && 2 <= i < |a| && 2 <= j < |b| && |a| == |b|
    && b[j].ino == a[i].ino && (i != j ==> b[i].ino == 0 && a[j].ino == 0)
    && (b[1].ino == a[1].ino)
    && forall k: nat :: k < |a| && k != i && k != j ==> b[k].ino == a[k].ino
  }

  lemma SlideKeepsTree(dirs: Dirs, depth: map<nat, nat>, d: nat, s: seq<Slot>, i: nat, j: nat)
    requires Tree(dirs, depth) && d in dirs && DirOk(s, d) && Slides(dirs[d], s, i, j)
    ensures Tree(dirs[d := s], depth)
  {
    TreeDir(dirs, depth, d);
    hide DirOk, Hangs, Entered, Slides;
    var b := dirs[d := s];
    SetKeepsDirs(dirs, d, s);
    forall x | x in b ensures Hangs(b, depth, x) {
      SlideHangs(dirs, depth, d, s, i, j, x);
    }
    forall q: nat, k: nat ensures Entered(b, q, k) {
      SlideEntered(dirs, d, s, i, j, q, k);
    }
  }

  lemma SlideHangs(dirs: Dirs, depth: map<nat, nat>, d: nat, s: seq<Slot>, i: nat, j: nat, x: nat)
    requires d in dirs && Slides(dirs[d], s, i, j) && x in dirs && Hangs(dirs, depth, x) && 0 !in dirs
    ensures Hangs(dirs[d := s], depth, x)
  {
    var b := dirs[d := s];
    assert Parent(b, x) == Parent(dirs, x);
    if x != ROOT {
      var p := Parent(dirs, x);
      var k: nat :| Child(dirs, p, k) && dirs[p][k].ino == x;
      var k' := if p == d && k == i then j else k;
      assert Child(b, p, k') && b[p][k'].ino == x;
    }
  }

  lemma SlideEntered(dirs: Dirs, d: nat, s: seq<Slot>, i: nat, j: nat, q: nat, k: nat)
    requires d in dirs && Slides(dirs[d], s, i, j) && 0 !in dirs
    requires forall q: nat, k: nat :: Entered(dirs, q, k)
    ensures Entered(dirs[d := s], q, k)
  {
    var b := dirs[d := s];
    if Child(b, q, k) {
      var x, k' := b[q][k].ino, if q == d && k == j then i else k;
      assert Child(dirs, q, k') && dirs[q][k'].ino == x && Entered(dirs, q, k');
      assert Parent(b, x) == Parent(dirs, x);
      forall m: nat | Child(b, q, m) && b[q][m].ino == x ensures m == k {
        var m' := if q == d && m == j then i else m;
        assert Child(dirs, q, m') && dirs[q][m'].ino == x;
      }
    }
  }

  // A rename within one directory slides the entry into the first free slot.
  lemma RenameSlides(slots: seq<Slot>, d: nat, from: Name, to: Name, room: bool) returns (i: nat, j: nat)
    requires DirOk(slots, d) && Proper(from) && Last(to) && Rename(slots, from, to, room).Some?
    requires Lookup(slots, to).None? || from == to
    ensures var s := Rename(slots, from, to, room).value; DirOk(s, d) && Slides(slots, s, i, j)
  {
    var x := Lookup(slots, from).value;
    i := RemovesFound(slots, d, from);
    var out := Remove(slots, from).value;
    j := FirstFree(out, 0);
    if from != to {
      AbsentIsProper(slots, d, to);
    }
    RemovedIsAbsent(slots, from, to);
    AddKeepsDir(out, d, to, x, room);
  }

  lemma RemovedIsAbsent(slots: seq<Slot>, from: Name, to: Name)
    requires Orderly(slots) && Remove(slots, from).Some? && (Lookup(slots, to).None? || from == to)
    ensures Lookup(Remove(slots, from).value, to) == None
  {
  }

  // The first two slots come first under their names.
  lemma DotSlots(slots: seq<Slot>, d: nat)
    requires DirOk(slots, d)
    ensures FirstLiveNamed(slots, SELF, 0) == 0 && FirstLiveNamed(slots, UP, 0) == 1
    ensures Lookup(slots, SELF) == Some(d) && Lookup(slots, UP) == Some(slots[1].ino)
  {
  }

  // Renaming "." or ".." puts another name into its slot.
  lemma RenameDots(slots: seq<Slot>, d: nat, from: Name, to: Name, room: bool)
    requires DirOk(slots, d) && from in {SELF, UP} && Last(to) && Rename(slots, from, to, room).Some?
    ensures var s := Rename(slots, from, to, room).value;
            if from == to then DirOk(s, d) && |s| == |slots| && forall k: nat :: k < |s| ==> s[k].ino == slots[k].ino
            else !DirOk(s, d)
  {
    DotSlots(slots, d);
    TextOfPad(to);
    var s, i := Rename(slots, from, to, room).value, if from == SELF then 0 else 1;
    var out := Remove(slots, from).value;
    assert FirstFree(out, 0) == i;
    assert s[i] == Slot(slots[i].ino, Pad(to)) && TextAt(s, i) == to;
    assert forall k: nat :: k < |s| && k != i ==> s[k] == slots[k] && TextAt(s, k) == TextAt(slots, k);
  }

  lemma RetouchKeepsTree(dirs: Dirs, depth: map<nat, nat>, d: nat, s: seq<Slot>)
    requires Tree(dirs, depth) && d in dirs && DirOk(s, d)
    requires |s| == |dirs[d]| && forall k: nat :: k < |s| ==> s[k].ino == dirs[d][k].ino
    ensures Tree(dirs[d := s], depth)
  {
    SetKeepsDirs(dirs, d, s);
    RetouchKeepsShape(dirs, d, s);
    SameShapeKeepsTree(dirs, dirs[d := s], depth);
  }

  lemma RetouchKeepsShape(dirs: Dirs, d: nat, s: seq<Slot>)
    requires d in dirs && |s| == |dirs[d]| && forall k: nat :: k < |s| ==> s[k].ino == dirs[d][k].ino
    ensures SameShape(dirs, dirs[d := s])
  {
  }

  // A rename within one directory keeps the tree when the new name is not there or is the old one,
  // and "." and ".." are left alone,
  lemma MoveWithinKeeps(dirs: Dirs, depth: map<nat, nat>, d: nat, from: Name, to: Name, room: bool)
    requires Tree(dirs, depth) && d in dirs && Last(from) && Last(to) && Rename(dirs[d], from, to, room).Some?
    requires (Lookup(dirs[d], to).None? && Proper(from)) || from == to
    ensures Tree(dirs[d := Rename(dirs[d], from, to, room).value], depth)
  {
    var s := Rename(dirs[d], from, to, room).value;
    TreeDir(dirs, depth, d);
    hide Tree, DirOk, Rename, Slides;
    if Proper(from) {
      var i, j := RenameSlides(dirs[d], d, from, to, room);
      SlideKeepsTree(dirs, depth, d, s, i, j);
    } else {
      RenameDots(dirs[d], d, from, to, room);
      RetouchKeepsTree(dirs, depth, d, s);
    }
  }

  // and breaks it otherwise.
  lemma MoveWithinBreaks(dirs: Dirs, depth: map<nat, nat>, d: nat, from: Name, to: Name, room: bool)
    requires Tree(dirs, depth) && d in dirs && Last(from) && Last(to) && Rename(dirs[d], from, to, room).Some?
    requires !((Lookup(dirs[d], to).None? && Proper(from)) || from == to)
    ensures !DirsOk(dirs[d := Rename(dirs[d], from, to, room).value])
  {
    var s := Rename(dirs[d], from, to, room).value;
    TreeDir(dirs, depth, d);
    if Lookup(dirs[d], to).None? {
      RenameDots(dirs[d], d, from, to, room);
    } else {
      LookupIsListing(dirs[d], to);
      RenameMoves(dirs[d], from, to, room);
    }
    assert dirs[d := s][d] == s && !DirOk(s, d);
  }

  // "." and ".." stand for directories.
  lemma DotsAreDirectories(dirs: Dirs, depth: map<nat, nat>, d: nat, name: Name)
    requires Tree(dirs, depth) && d in dirs && Last(name) && !Proper(name)
    ensures Lookup(dirs[d], name).Some? && Lookup(dirs[d], name).value in dirs
  {
  }

  // The directories once entry `from` of p has gone to q under the name `to`.
  function Moved(dirs: Dirs, p: nat, from: Name, q: nat, to: Name, room: bool): Dirs
    requires CanMove(dirs, p, from, q, to, room)
  {
    dirs[q := Add(dirs[q], to, Lookup(dirs[p], from).value, room).value][p := Remove(dirs[p], from).value]
  }

  predicate CanMove(dirs: Dirs, p: nat, from: Name, q: nat, to: Name, room: bool) {
    && p in dirs && q in dirs && p != q && Last(from) && Last(to) && Lookup(dirs[p], from).Some?
    && (Lookup(dirs[q], to).None? || Lookup(dirs[q], to) == Lookup(dirs[p], from))
    && Add(dirs[q], to, Lookup(dirs[p], from).value, room).Some? && Remove(dirs[p], from).Some?
  }

  lemma MoveFileKeeps(dirs: Dirs, depth: map<nat, nat>, p: nat, from: Name, q: nat, to: Name, room: bool)
    requires Tree(dirs, depth) && CanMove(dirs, p, from, q, to, room)
    requires Lookup(dirs[q], to).None? && Lookup(dirs[p], from).value !in dirs
    ensures Tree(Moved(dirs, p, from, q, to, room), depth)
  {
    var x := Lookup(dirs[p], from).value;
    if !Proper(from) {
      DotsAreDirectories(dirs, depth, p, from);
    }
    TreeDir(dirs, depth, p);
    hide Tree, DirOk, Lookup, Add, Remove, Proper, Last;
    EnterFileKeepsTree(dirs, depth, q, to, x, room);
    var entered := dirs[q := Add(dirs[q], to, x, room).value];
    var i := RemovesFound(dirs[p], p, from);
    FileKeepsTree(entered, depth, p, Remove(dirs[p], from).value, i);
  }

  lemma MoveAcrossBreaks(dirs: Dirs, depth: map<nat, nat>, p: nat, from: Name, q: nat, to: Name, room: bool,
                         after: map<nat, nat>)
    requires Tree(dirs, depth) && CanMove(dirs, p, from, q, to, room)
    requires !(Lookup(dirs[q], to).None? && Lookup(dirs[p], from).value !in dirs)
    ensures !Tree(Moved(dirs, p, from, q, to, room), after)
  {
    var x := Lookup(dirs[p], from).value;
    TreeDir(dirs, depth, p);
    TreeDir(dirs, depth, q);
    var out, into := Remove(dirs[p], from).value, Add(dirs[q], to, x, room).value;
    var b := Moved(dirs, p, from, q, to, room);
    assert b[p] == out && b[q] == into;
    hide Lookup, Add, Remove, Hangs, Entered, Moved;
    if Lookup(dirs[q], to).Some? {
      AddOrderlyIff(dirs[q], to, x, room);
      assert !DirOk(into, q);
    } else if !Proper(from) {
      DotIsGone(dirs[p], p, from);
      assert !DirOk(out, p);
    } else {
      MovedAwayBreaks(dirs, depth, p, from, q, to, room, after);
    }
  }

  lemma DotIsGone(slots: seq<Slot>, p: nat, from: Name)
    requires DirOk(slots, p) && (from == SELF || from == UP)
    ensures Remove(slots, from).Some? ==> !DirOk(Remove(slots, from).value, p)
  {
  }

  lemma MovedAwayBreaks(dirs: Dirs, depth: map<nat, nat>, p: nat, from: Name, q: nat, to: Name, room: bool,
                        after: map<nat, nat>)
    requires Tree(dirs, depth) && CanMove(dirs, p, from, q, to, room) && Proper(from)
    requires Lookup(dirs[q], to) == None && Lookup(dirs[p], from).value in dirs
    ensures !Tree(Moved(dirs, p, from, q, to, room), after)
  {
    hide Lookup, Add, Remove, Hangs, Entered, DirOk, Proper;
    var i, j := MovedLeaves(dirs, depth, p, from, q, to, room);
    var out, into := Remove(dirs[p], from).value, Add(dirs[q], to, Lookup(dirs[p], from).value, room).value;
    MovedHangs(dirs, after, p, i, out, q, into, j);
  }

  // What moving a directory leaves behind.
  lemma MovedLeaves(dirs: Dirs, depth: map<nat, nat>, p: nat, from: Name, q: nat, to: Name, room: bool)
    returns (i: nat, j: nat)
    requires Tree(dirs, depth) && CanMove(dirs, p, from, q, to, room) && Proper(from)
    requires Lookup(dirs[q], to) == None && Lookup(dirs[p], from).value in dirs
    ensures i < |dirs[p]| && dirs[p][i].ino == Lookup(dirs[p], from).value && Leaves(dirs, p, i)
    ensures var out := Remove(dirs[p], from).value; ChangedAt(dirs[p], out, i) && out[i].ino == 0
    ensures ChangedAt(dirs[q], Add(dirs[q], to, Lookup(dirs[p], from).value, room).value, j)
    ensures DirOk(Add(dirs[q], to, Lookup(dirs[p], from).value, room).value, q)
  {
    var x := Lookup(dirs[p], from).value;
    TreeDir(dirs, depth, p);
    TreeDir(dirs, depth, q);
    TreeDir(dirs, depth, x);
    AbsentIsProper(dirs[q], q, to);
    i := RemovesFound(dirs[p], p, from);
    AddKeepsDir(dirs[q], q, to, x, room);
    j := FirstFree(dirs[q], 0);
    OnlyChild(dirs, depth, p, i);
  }

  // Slot i of p is the only entry there for a directory below p.
  ghost predicate Leaves(dirs: Dirs, p: nat, i: nat)
    requires p in dirs && i < |dirs[p]|
  {
    var x := dirs[p][i].ino;
    && x in dirs && x != 0 && x != ROOT && x != p && DirOk(dirs[x], x) && Parent(dirs, x) == p
    && forall k: nat :: k < |dirs[p]| && k != i ==> dirs[p][k].ino != x
  }

  lemma MovedHangs(dirs: Dirs, depth: map<nat, nat>, p: nat, i: nat, out: seq<Slot>, q: nat, into: seq<Slot>, j: nat)
    requires p in dirs && q in dirs && p != q && i < |dirs[p]| && Leaves(dirs, p, i)
    requires ChangedAt(dirs[p], out, i) && out[i].ino == 0 && ChangedAt(dirs[q], into, j)
    ensures !Hangs(dirs[q := into][p := out], depth, dirs[p][i].ino)
  {
  }

  // A directory moved into another one by rename keeps its old "..", so getcwd fails in it.
  lemma MovedDirectoryIsLost(dirs: Dirs, depth: map<nat, nat>, p: nat, from: Name,
                             q: nat, to: Name, room: bool, size: int)
    requires Tree(dirs, depth) && CanMove(dirs, p, from, q, to, room) && Proper(from)
    requires Lookup(dirs[q], to) == None && Lookup(dirs[p], from).value in dirs
    ensures Cwd(Moved(dirs, p, from, q, to, room), Lookup(dirs[p], from).value, size) == None
  {
    var x := Lookup(dirs[p], from).value;
    var i, j := MovedLeaves(dirs, depth, p, from, q, to, room);
    hide Tree, DirOk, Leaves, Cwd, Lookup, Remove, Add, Proper, Last;
    MovedAway(dirs, p, i, Remove(dirs[p], from).value, q, Add(dirs[q], to, x, room).value, j, size);
  }

  lemma MovedAway(dirs: Dirs, p: nat, i: nat, out: seq<Slot>, q: nat, into: seq<Slot>, j: nat, size: int)
    requires p in dirs && q in dirs && p != q && i < |dirs[p]| && Leaves(dirs, p, i)
    requires ChangedAt(dirs[p], out, i) && out[i].ino == 0 && DirOk(into, q) && ChangedAt(dirs[q], into, j)
    ensures Cwd(dirs[q := into][p := out], dirs[p][i].ino, size) == None
  {
  }

  // The file system mkfs makes.
  lemma FreshIsTree()
    ensures Tree(map[ROOT := NewDir(ROOT, ROOT)], map[ROOT := 0])
  {
    NewDirOk(ROOT, ROOT);
    var dirs: Dirs := map[ROOT := NewDir(ROOT, ROOT)];
    assert Hangs(dirs, map[ROOT := 0], ROOT);
  }
}
