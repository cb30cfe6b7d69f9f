/** Volumes that show what is lost: a directory whose last link goes with the files moved out of it,
    and one that lies deeper than getcwd climbs. */
module VolumeLosses {
  import opened Layout
  import opened Directory
  import opened DirectoryCache
  import opened Paths
  import opened DirectoryTree
  import opened Volume

  // Calls that succeed lead from v to w, harmless or not.
  ghost predicate Reaches(v: Vol, ops: seq<Op>, w: Vol)
    decreases |ops|
  {
    if ops == [] then v == w else Allowed(v, ops[0]) && Reaches(Do(v, ops[0]), ops[1..], w)
  }

  lemma {:induction false} ReachesStep(v: Vol, ops: seq<Op>, w: Vol, op: Op)
    requires Reaches(v, ops, w) && Allowed(w, op)
    ensures Reaches(v, ops + [op], Do(w, op))
    decreases |ops|
  {
    hide Allowed, Do;
    if ops == [] {
      assert ops + [op] == [op] && [op][1..] == [];
    } else {
      assert (ops + [op])[0] == ops[0] && (ops + [op])[1..] == ops[1..] + [op];
      ReachesStep(Do(v, ops[0]), ops[1..], w, op);
    }
  }

  // The numbers 1 to n.
  function UpToNumber(n: nat): (r: set<nat>)
    ensures forall m: nat :: m in r <==> 0 < m <= n
  {
    if n == 0 then {} else UpToNumber(n - 1) + {n}
  }

  // ---------------------------------------------------------------------
  // A directory that runs out of links
  // ---------------------------------------------------------------------

  // A directory without links is given up and its number goes to a file: getcwd fails below it.
  lemma ReusedDirectoryIsLost(v: Vol, p: nat, sub: nat, d: nat, name: Name, mode: int, room: bool,
                              depth: map<nat, nat>, size: int)
    requires p in v.dirs && p in v.used && LinksOf(v, p) == 0
    requires sub in v.dirs && sub != ROOT && sub != p && DirOk(v.dirs[sub], sub) && Parent(v.dirs, sub) == p
    requires IsNew(v.used - {p}, p) && d in v.dirs && d != p && d != sub && !DirectoryMode(mode)
    requires Last(name) && Lookup(v.dirs[d], name) == None && Add(v.dirs[d], name, p, room).Some?
    ensures Allowed(v, GiveUp(p)) && Allowed(Do(v, GiveUp(p)), MakeNode(d, name, p, mode, room))
    ensures var w := Do(Do(v, GiveUp(p)), MakeNode(d, name, p, mode, room)).dirs;
            Cwd(w, sub, size) == None && !Tree(w, depth)
  {
    var w := Do(Do(v, GiveUp(p)), MakeNode(d, name, p, mode, room)).dirs;
    SelfAndUp(v.dirs[sub], sub);
    assert w[sub] == v.dirs[sub] && p !in w && Parent(w, sub) == p;
    assert Search(w, sub, UP) == Some(p);
    assert !Hangs(w, depth, sub);
  }

  // Slots under plain names, all in use.
  ghost predicate Shows(slots: seq<Slot>, names: seq<Name>) {
    && |slots| == |names|
    && forall k: nat :: k < |slots| ==> TextAt(slots, k) == names[k]
  }

  ghost predicate Full(slots: seq<Slot>) {
    forall k: nat :: k < |slots| ==> slots[k].ino != 0
  }

  lemma NewShows(ino: nat, parent: nat)
    requires ino != 0 && parent != 0
    ensures Shows(NewDir(ino, parent), [SELF, UP]) && Full(NewDir(ino, parent))
  {
    TextOfPad(SELF);
    TextOfPad(UP);
  }

  // A name that is not there is appended to a full directory.
  lemma Appends(slots: seq<Slot>, names: seq<Name>, name: Name, ino: nat)
    requires Shows(slots, names) && Full(slots) && name !in names && Last(name) && ino != 0
    ensures Lookup(slots, name) == None && Add(slots, name, ino, true) == Some(slots + [Slot(ino, Pad(name))])
    ensures Shows(slots + [Slot(ino, Pad(name))], names + [name]) && Full(slots + [Slot(ino, Pad(name))])
  {
    TextOfPad(name);
    var s := slots + [Slot(ino, Pad(name))];
    assert TextAt(s, |slots|) == name;
    assert forall k: nat :: k < |slots| ==> TextAt(s, k) == TextAt(slots, k);
  }

  // A name that is there once, live, is found and can be removed.
  lemma Removes(slots: seq<Slot>, names: seq<Name>, i: nat)
    requires Shows(slots, names) && i < |slots| && slots[i].ino != 0 && forall k: nat :: k < i ==> names[k] != names[i]
    ensures Lookup(slots, names[i]) == Some(slots[i].ino)
    ensures Remove(slots, names[i]) == Some(slots[i := slots[i].(ino := 0)])
    ensures Shows(slots[i := slots[i].(ino := 0)], names)
  {
  }

  // One file goes from p to q under its own name.
  lemma MovesOne(v: Vol, p: nat, names: seq<Name>, i: nat, q: nat, there: seq<Name>)
    requires p in v.dirs && q in v.dirs && p != q
             && Shows(v.dirs[p], names) && Shows(v.dirs[q], there) && Full(v.dirs[q])
    requires i < |names| && v.dirs[p][i].ino != 0 && Last(names[i]) && names[i] !in there
    requires forall k: nat :: k < i ==> names[k] != names[i]
    ensures var op, x := Move(p, names[i], q, names[i], true), v.dirs[p][i];
            && Allowed(v, op)
            && Do(v, op).dirs ==
                 v.dirs[q := v.dirs[q] + [Slot(x.ino, Pad(names[i]))]][p := v.dirs[p][i := x.(ino := 0)]]
            && Do(v, op).links == v.links[p := Down(LinksOf(v, p))][q := Up(LinksOf(v, q))]
            && Do(v, op).used == v.used
    ensures Shows(v.dirs[p][i := v.dirs[p][i].(ino := 0)], names)
    ensures var s := v.dirs[q] + [Slot(v.dirs[p][i].ino, Pad(names[i]))]; Shows(s, there + [names[i]]) && Full(s)
  {
    Removes(v.dirs[p], names, i);
    Appends(v.dirs[q], there, names[i], v.dirs[p][i].ino);
    hide Lookup, Add, Remove, Shows, Full, Last;
  }

  // Files n of them, from slot i of p on, none of them known to q.
  ghost predicate Drainable(v: Vol, p: nat, names: seq<Name>, i: nat, n: nat, q: nat, there: seq<Name>) {
    && p in v.dirs && q in v.dirs && p != q && Shows(v.dirs[p], names) && Shows(v.dirs[q], there) && Full(v.dirs[q])
    && i + n <= |names| && LinksOf(v, p) == n
    && (forall k: nat :: i <= k < i + n ==> v.dirs[p][k].ino != 0 && Last(names[k]) && names[k] !in there)
    && forall k: nat, m: nat :: k < m < i + n && i <= m ==> names[k] != names[m]
  }

  // Beside p and q nothing has changed.
  ghost predicate Beside(v: Vol, w: Vol, p: nat, q: nat) {
    w.used == v.used && w.dirs.Keys == v.dirs.Keys
    && forall d :: d in v.dirs && d != p && d != q ==> w.dirs[d] == v.dirs[d]
  }

  /** Moving as many files out of a directory as it has links leaves it without any, whatever else it
      still holds. */
  lemma {:induction false} DrainsAll(v: Vol, p: nat, names: seq<Name>, i: nat, n: nat, q: nat, there: seq<Name>)
    returns (ops: seq<Op>, w: Vol)
    requires Drainable(v, p, names, i, n, q, there)
    ensures Reaches(v, ops, w) && Beside(v, w, p, q) && |ops| == n && LinksOf(w, p) == 0
    decreases n
  {
    if n == 0 {
      ops, w := [], v;
    } else {
      var op := Move(p, names[i], q, names[i], true);
      DrainsOne(v, p, names, i, n, q, there);
      hide Drainable, Do, Allowed, Beside;
      ops, w := DrainsAll(Do(v, op), p, names, i + 1, n - 1, q, there + [names[i]]);
      BesideTwice(v, Do(v, op), w, p, q);
      assert ([op] + ops)[1..] == ops;
      ops := [op] + ops;
    }
  }

  lemma BesideTwice(v: Vol, u: Vol, w: Vol, p: nat, q: nat)
    requires Beside(v, u, p, q) && Beside(u, w, p, q)
    ensures Beside(v, w, p, q)
  {
  }

  lemma DrainsOne(v: Vol, p: nat, names: seq<Name>, i: nat, n: nat, q: nat, there: seq<Name>)
    requires Drainable(v, p, names, i, n, q, there) && n > 0
    ensures var op := Move(p, names[i], q, names[i], true);
            && Allowed(v, op) && Beside(v, Do(v, op), p, q)
            && Drainable(Do(v, op), p, names, i + 1, n - 1, q, there + [names[i]])
  {
    MovesOne(v, p, names, i, q, there);
    hide Do, Allowed, Shows, Full, Last;
  }

  // mkdir /D, mkdir /D/s, three files in /D, mkdir /E.
  const D: Name := [68]
  const E: Name := [69]
  const S: Name := [115]
  const A: Name := [97]
  const B: Name := [98]
  const C: Name := [99]
  const X: Name := [120]
  const FILE: int := 0x8000

  function Setup(): seq<Op> {
    [MakeDir(1, D, 2, true)] + [MakeDir(2, S, 3, true)] + [MakeNode(2, A, 4, FILE, true)] +
    [MakeNode(2, B, 5, FILE, true)] + [MakeNode(2, C, 6, FILE, true)] + [MakeDir(1, E, 7, true)]
  }

  // What they lead to: numbers 1 to n in use, and the names in the root and in /D.
  ghost predicate Laid(v: Vol, keys: set<nat>, n: nat, root: seq<Name>, inD: seq<Name>) {
    && v.dirs.Keys == keys && {1, 2, 3} <= keys && v.used == UpToNumber(n) && LinksOf(v, 2) == 3
    && Shows(v.dirs[1], root) && Full(v.dirs[1]) && Shows(v.dirs[2], inD) && Full(v.dirs[2])
    && v.dirs[3] == NewDir(3, 2)
  }

  // A call that enters a number in a full directory.
  lemma Enters(v: Vol, op: Op, names: seq<Name>)
    requires op.MakeNode? || op.MakeDir?
    requires op.room && (op.MakeNode? ==> !DirectoryMode(op.mode))
    requires op.dir in v.dirs && Shows(v.dirs[op.dir], names) && Full(v.dirs[op.dir])
             && op.name !in names && Last(op.name)
    requires IsNew(v.used, op.ino) && op.ino !in v.dirs
    ensures Allowed(v, op) && Do(v, op).used == v.used + {op.ino}
    ensures var w, s := Do(v, op).dirs, v.dirs[op.dir] + [Slot(op.ino, Pad(op.name))];
            && Shows(s, names + [op.name]) && Full(s)
            && w == if op.MakeDir? then v.dirs[op.dir := s][op.ino := NewDir(op.ino, op.dir)] else v.dirs[op.dir := s]
    ensures forall x: nat :: x != op.ino && (op.MakeNode? || x != op.dir) ==> LinksOf(Do(v, op), x) == LinksOf(v, x)
    ensures op.MakeDir? ==> LinksOf(Do(v, op), op.dir) == Up(LinksOf(v, op.dir)) && LinksOf(Do(v, op), op.ino) == 2
  {
    Appends(v.dirs[op.dir], names, op.name, op.ino);
    hide Lookup, Add, Shows, Full, Last, NewDir;
  }

  lemma LayDirectories() returns (v: Vol)
    ensures Reaches(FreshVolume(), [MakeDir(1, D, 2, true)] + [MakeDir(2, S, 3, true)], v)
    ensures Laid(v, {1, 2, 3}, 3, [SELF, UP] + [D], [SELF, UP] + [S])
  {
    var v0, o1, o2 := FreshVolume(), MakeDir(1, D, 2, true), MakeDir(2, S, 3, true);
    NewShows(1, 1);
    NewShows(2, 1);
    hide Shows, Full, Do, Allowed, NewDir;
    Enters(v0, o1, [SELF, UP]);
    var v1 := Do(v0, o1);
    Enters(v1, o2, [SELF, UP]);
    v := Do(v1, o2);
    ReachesStep(v0, [], v0, o1);
    assert [] + [o1] == [o1];
    ReachesStep(v0, [o1], v1, o2);
  }

  // One more file in /D.
  lemma LayFile(v: Vol, keys: set<nat>, n: nat, root: seq<Name>, inD: seq<Name>, name: Name)
    requires Laid(v, keys, n, root, inD) && Last(name) && name !in inD && n + 1 !in keys
    ensures Allowed(v, MakeNode(2, name, n + 1, FILE, true))
    ensures Laid(Do(v, MakeNode(2, name, n + 1, FILE, true)), keys, n + 1, root, inD + [name])
  {
    hide Shows, Full, Do, Allowed, NewDir, Last;
    Enters(v, MakeNode(2, name, n + 1, FILE, true), inD);
  }

  // One more directory in the root.
  lemma LayDirectory(v: Vol, keys: set<nat>, n: nat, root: seq<Name>, inD: seq<Name>, name: Name)
    requires Laid(v, keys, n, root, inD) && Last(name) && name !in root && n + 1 !in keys && n >= 3
    ensures Allowed(v, MakeDir(1, name, n + 1, true))
    ensures Laid(Do(v, MakeDir(1, name, n + 1, true)), keys + {n + 1}, n + 1, root + [name], inD)
    ensures n + 1 in Do(v, MakeDir(1, name, n + 1, true)).dirs
    ensures Do(v, MakeDir(1, name, n + 1, true)).dirs[n + 1] == NewDir(n + 1, 1)
  {
    hide Shows, Full, Do, Allowed, NewDir, Last;
    Enters(v, MakeDir(1, name, n + 1, true), root);
  }

  lemma LaysOut() returns (v: Vol)
    ensures Reaches(FreshVolume(), Setup(), v) && 7 in v.dirs && v.dirs[7] == NewDir(7, 1)
    ensures Laid(v, {1, 2, 3} + {7}, 7, [SELF, UP] + [D] + [E], [SELF, UP] + [S] + [A] + [B] + [C])
  {
    hide Laid, Do, Allowed, NewDir, FreshVolume;
    var v0 := FreshVolume();
    v := LayDirectories();
    var ops := [MakeDir(1, D, 2, true)] + [MakeDir(2, S, 3, true)];
    var root, inD := [SELF, UP] + [D], [SELF, UP] + [S];
    LayFile(v, {1, 2, 3}, 3, root, inD, A);
    ReachesStep(v0, ops, v, MakeNode(2, A, 4, FILE, true));
    v := Do(v, MakeNode(2, A, 4, FILE, true));
    LayFile(v, {1, 2, 3}, 4, root, inD + [A], B);
    ReachesStep(v0, ops + [MakeNode(2, A, 4, FILE, true)], v, MakeNode(2, B, 5, FILE, true));
    v := Do(v, MakeNode(2, B, 5, FILE, true));
    LayFile(v, {1, 2, 3}, 5, root, inD + [A] + [B], C);
    ReachesStep(v0, ops + [MakeNode(2, A, 4, FILE, true)] + [MakeNode(2, B, 5, FILE, true)], v,
                MakeNode(2, C, 6, FILE, true));
    v := Do(v, MakeNode(2, C, 6, FILE, true));
    LayDirectory(v, {1, 2, 3}, 6, root, inD + [A] + [B] + [C], E);
    ReachesStep(v0, ops + [MakeNode(2, A, 4, FILE, true)] + [MakeNode(2, B, 5, FILE, true)] +
                    [MakeNode(2, C, 6, FILE, true)], v, MakeDir(1, E, 7, true));
    v := Do(v, MakeDir(1, E, 7, true));
  }

  // Three files and three links.
  lemma ReadyToDrain(u: Vol)
    requires Laid(u, {1, 2, 3} + {7}, 7, [SELF, UP] + [D] + [E], [SELF, UP] + [S] + [A] + [B] + [C])
    requires u.dirs[7] == NewDir(7, 1)
    ensures Drainable(u, 2, [SELF, UP] + [S] + [A] + [B] + [C], 3, 3, 7, [SELF, UP])
  {
    NewShows(7, 1);
    hide Shows, NewDir;
    var names := [SELF, UP] + [S] + [A] + [B] + [C];
    assert names == [SELF, UP, S, A, B, C];
    SizeShown(u.dirs[2], names);
  }

  lemma SizeShown(slots: seq<Slot>, names: seq<Name>)
    requires Shows(slots, names)
    ensures |slots| == |names|
  {
  }

  /** From a fresh volume, by calls that all succeed: the three files go from /D to /E, /D has no link
      left and is given up, a new file gets its number, and getcwd fails in /D/s. */
  lemma DrainedDirectoryIsLost(depth: map<nat, nat>, size: int) returns (moves: seq<Op>, u: Vol, w: Vol)
    ensures Reaches(FreshVolume(), Setup(), u) && |moves| == 3 && Reaches(u, moves, w) && LinksOf(w, 2) == 0
    ensures Allowed(w, GiveUp(2)) && Allowed(Do(w, GiveUp(2)), MakeNode(1, X, 2, FILE, true))
    ensures var end := Do(Do(w, GiveUp(2)), MakeNode(1, X, 2, FILE, true)).dirs;
            Cwd(end, 3, size) == None && !Tree(end, depth)
  {
    hide Laid, Do, Allowed, NewDir, FreshVolume, Drainable;
    u := LaysOut();
    ReadyToDrain(u);
    moves, w := DrainsAll(u, 2, [SELF, UP] + [S] + [A] + [B] + [C], 3, 3, 7, [SELF, UP]);
    ReadyToReuse(u, w);
    ReusedDirectoryIsLost(w, 2, 3, 1, X, FILE, true, depth, size);
  }

  lemma ReadyToReuse(u: Vol, w: Vol)
    requires Laid(u, {1, 2, 3} + {7}, 7, [SELF, UP] + [D] + [E], [SELF, UP] + [S] + [A] + [B] + [C])
    requires Beside(u, w, 2, 7)
    ensures {1, 2, 3} <= w.dirs.Keys && 2 in w.used && IsNew(w.used - {2}, 2)
    ensures DirOk(w.dirs[3], 3) && Parent(w.dirs, 3) == 2
    ensures Lookup(w.dirs[1], X) == None && Add(w.dirs[1], X, 2, true).Some?
  {
    NewDirOk(3, 2);
    var names := [SELF, UP] + [D] + [E];
    assert names == [SELF, UP, D, E];
    hide Shows, Full, Lookup, Add, DirOk;
    Appends(w.dirs[1], names, X, 2);
  }

  // ---------------------------------------------------------------------
  // A directory that lies too deep
  // ---------------------------------------------------------------------

  const BELOW: Name := [100]

  // The volume after n calls to mkdir, each below the last.
  ghost predicate Dug(v: Vol, depth: map<nat, nat>, d: nat, p: nat, n: nat) {
    && Sound(v, depth) && d in v.dirs && d in depth && depth[d] == n && v.dirs[d] == NewDir(d, p) && p != 0 && d != 0
    && d <= n + 1 && LinksOf(v, d) == 2 && v.used == UpToNumber(n + 1)
  }

  lemma CanDig(v: Vol, depth: map<nat, nat>, d: nat, p: nat, n: nat)
    requires Dug(v, depth, d, p, n)
    ensures Allowed(v, MakeDir(d, BELOW, n + 2, true)) && Harmless(v, MakeDir(d, BELOW, n + 2, true))
  {
    hide Sound, NewDir, Lookup, Add;
    NewShows(d, p);
    Appends(NewDir(d, p), [SELF, UP], BELOW, n + 2);
  }

  lemma DigOne(v: Vol, depth: map<nat, nat>, d: nat, p: nat, n: nat)
    requires Dug(v, depth, d, p, n)
    ensures var op := MakeDir(d, BELOW, n + 2, true);
            && Allowed(v, op) && Harmless(v, op)
            && Dug(Do(v, op), DepthAfter(depth, op), n + 2, d, n + 1)
  {
    hide Sound, Allowed, Harmless, NewDir, Do;
    var op := MakeDir(d, BELOW, n + 2, true);
    CanDig(v, depth, d, p, n);
    HarmlessKeeps(v, depth, op);
    MadeDir(v, op);
  }

  lemma MadeDir(v: Vol, op: Op)
    requires Allowed(v, op) && op.MakeDir?
    ensures var w := Do(v, op);
            && op.ino in w.dirs && w.dirs[op.ino] == NewDir(op.ino, op.dir)
            && LinksOf(w, op.ino) == 2 && w.used == v.used + {op.ino}
  {
  }

  lemma {:induction false} Dig(n: nat) returns (ops: seq<Op>, v: Vol, depth: map<nat, nat>, d: nat, p: nat)
    ensures Reaches(FreshVolume(), ops, v) && Dug(v, depth, d, p, n)
    decreases n
  {
    hide Allowed, Do, Dug, Harmless, DepthAfter, FreshVolume;
    if n == 0 {
      ops, v, depth, d, p := [], FreshVolume(), map[ROOT := 0], ROOT, ROOT;
      DugNothing();
    } else {
      ops, v, depth, d, p := Dig(n - 1);
      DigOne(v, depth, d, p, n - 1);
      var op := MakeDir(d, BELOW, n + 1, true);
      ReachesStep(FreshVolume(), ops, v, op);
      ops, v, depth, d, p := ops + [op], Do(v, op), DepthAfter(depth, op), n + 1, d;
    }
  }

  lemma DugNothing()
    ensures Dug(FreshVolume(), map[ROOT := 0], ROOT, ROOT, 0)
  {
    FreshIsSound();
    hide Sound;
    assert UpToNumber(1) == {1};
  }

  /** By mkdir alone: a directory 65 levels down, of whose path getcwd leaves out a part. */
  lemma TooDeep() returns (ops: seq<Op>, v: Vol, d: nat, depth: map<nat, nat>)
    ensures Reaches(FreshVolume(), ops, v) && Tree(v.dirs, depth) && d in v.dirs && d in depth
    ensures depth[d] == GETCWD_DEPTH + 1
    ensures Climb(v.dirs, d, GETCWD_DEPTH).Some? && Climb(v.dirs, d, depth[d]).Some?
    ensures Render(Climb(v.dirs, d, GETCWD_DEPTH).value) != Render(Climb(v.dirs, d, depth[d]).value)
  {
    var p;
    ops, v, depth, d, p := Dig(GETCWD_DEPTH + 1);
    hide Climb, Render, Tree;
    CwdIsWholeIff(v.dirs, depth, d);
  }
}
