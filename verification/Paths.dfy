/** The directory tree: pathname resolution (namei, fs/namei.c) and the way back from a
    directory to its path (getcwd, kernel/sys.c). */
module Paths {
  import opened Layout
  import opened Directory
  import opened DirectoryCache

  const ROOT: nat := 1
  const SLASH: Byte := 47
  const DOT: Byte := 46
  const SELF: Name := [DOT]
  const UP: Name := [DOT, DOT]

  // ---------------------------------------------------------------------
  // The tree
  // ---------------------------------------------------------------------

  // What split_path gives as the last component of a path.
  predicate Last(name: Name) {
    0 < |name| <= NAME_LEN && Clean(name) && SLASH !in name
  }

  // A name that can be one component of a path and is neither "." nor "..".
  predicate Proper(name: Name) {
    Last(name) && name != SELF && name != UP
  }

  // The slots of directory d: itself, its parent, then its entries.
  ghost predicate DirOk(slots: seq<Slot>, d: nat) {
    && |slots| >= 2 && Orderly(slots) && d != 0
    && slots[0].ino == d && TextAt(slots, 0) == SELF
    && slots[1].ino != 0 && TextAt(slots, 1) == UP
    && forall i: nat :: 2 <= i < |slots| && slots[i].ino != 0 ==> Proper(TextAt(slots, i))
  }

  function Parent(dirs: Dirs, d: nat): nat
    requires d in dirs
  {
    if |dirs[d]| >= 2 then dirs[d][1].ino else ROOT
  }

  ghost predicate DirsOk(dirs: Dirs) {
    ROOT in dirs && forall d :: d in dirs ==> DirOk(dirs[d], d)
  }

  // Entry i of q names a directory.
  predicate Child(dirs: Dirs, q: nat, i: nat) {
    q in dirs && 2 <= i < |dirs[q]| && dirs[q][i].ino in dirs
  }

  // Directory d is at the given depth below the root, an entry of its parent.
  ghost predicate Hangs(dirs: Dirs, depth: map<nat, nat>, d: nat)
    requires d in dirs
  {
    && d in depth
    && if d == ROOT then Parent(dirs, d) == ROOT && depth[d] == 0
       else
         var p := Parent(dirs, d);
         p in dirs && p in depth && depth[d] == depth[p] + 1
         && exists i: nat :: Child(dirs, p, i) && dirs[p][i].ino == d
  }

  // Directory d is entered at most once, in its parent.
  ghost predicate Entered(dirs: Dirs, q: nat, i: nat) {
    Child(dirs, q, i) ==>
      && dirs[q][i].ino != ROOT && Parent(dirs, dirs[q][i].ino) == q
      && forall j: nat :: Child(dirs, q, j) && dirs[q][j].ino == dirs[q][i].ino ==> j == i
  }

  ghost predicate Tree(dirs: Dirs, depth: map<nat, nat>) {
    && DirsOk(dirs)
    && (forall d :: d in dirs ==> Hangs(dirs, depth, d))
    && (forall q: nat, i: nat :: Entered(dirs, q, i))
  }

  lemma SelfAndUp(slots: seq<Slot>, d: nat)
    requires DirOk(slots, d)
    ensures Lookup(slots, SELF) == Some(d) && Lookup(slots, UP) == Some(slots[1].ino)
  {
  }

  // The name a parent has for a directory is proper and leads back to it.
  lemma ChildName(dirs: Dirs, depth: map<nat, nat>, d: nat)
    requires Tree(dirs, depth) && d in dirs && d != ROOT
    ensures Parent(dirs, d) in dirs
    ensures var n := EntryName(dirs[Parent(dirs, d)], d);
            n.Some? && Proper(n.value) && Lookup(dirs[Parent(dirs, d)], n.value) == Some(d)
  {
  }

  // ---------------------------------------------------------------------
  // getcwd
  // ---------------------------------------------------------------------

  const GETCWD_DEPTH: nat := 64

  // The names from d upward, at most `steps` of them; None where the walk fails.
  function Climb(dirs: Dirs, d: nat, steps: nat): (r: Option<seq<Name>>)
    decreases steps
  {
    if d == ROOT || steps == 0 then Some([])
    else
      var up := Search(dirs, d, UP);
      if up.None? || up.value !in dirs then None
      else
        var name := EntryName(dirs[up.value], d);
        if name.None? then None
        else
          var rest := Climb(dirs, up.value, steps - 1);
          if rest.None? then None else Some([name.value] + rest.value)
  }

  // The names, innermost first, as a path.
  function Render(names: seq<Name>): (r: seq<Byte>) {
    if names == [] then [] else Render(names[1..]) + [SLASH] + names[0]
  }

  // What getcwd writes before the NUL.
  function Cwd(dirs: Dirs, d: nat, size: int): (r: Option<seq<Byte>>) {
    var names := Climb(dirs, d, GETCWD_DEPTH);
    if names.None? then None
    else
      var path := if names.value == [] then [SLASH] else Render(names.value);
      if |path| + 1 <= size then Some(path) else None
  }

  // One step up from d in a tree.
  lemma StepUp(dirs: Dirs, depth: map<nat, nat>, d: nat)
    requires Tree(dirs, depth) && d in dirs && d in depth && d != ROOT
    ensures Search(dirs, d, UP) == Some(Parent(dirs, d))
    ensures var p := Parent(dirs, d); p in dirs && p in depth && depth[d] == depth[p] + 1
    ensures var n := EntryName(dirs[Parent(dirs, d)], d);
            n.Some? && Proper(n.value) && Search(dirs, Parent(dirs, d), n.value) == Some(d)
  {
    assert Hangs(dirs, depth, d);
    SelfAndUp(dirs[d], d);
    ChildName(dirs, depth, d);
  }

  lemma ClimbEnds(dirs: Dirs, d: nat, steps: nat)
    requires d == ROOT || steps == 0
    ensures Climb(dirs, d, steps) == Some([])
  {
  }

  lemma RootDepth(dirs: Dirs, depth: map<nat, nat>, d: nat)
    requires Tree(dirs, depth) && d in dirs
    ensures d in depth && (depth[d] == 0 <==> d == ROOT)
  {
  }

  predicate AllProper(names: seq<Name>) {
    forall n :: n in names ==> Proper(n)
  }

  // In a tree a walk of one more step puts one more proper name in front.
  lemma ClimbStep(dirs: Dirs, depth: map<nat, nat>, d: nat, steps: nat) returns (p: nat, n: Name)
    requires Tree(dirs, depth) && d in dirs && d in depth && d != ROOT && steps > 0
    ensures p in dirs && p in depth && depth[d] == depth[p] + 1 && Search(dirs, d, UP) == Some(p)
    ensures EntryName(dirs[p], d) == Some(n) && Proper(n) && Search(dirs, p, n) == Some(d)
    ensures Climb(dirs, p, steps - 1).Some? ==>
              Climb(dirs, d, steps) == Some([n] + Climb(dirs, p, steps - 1).value)
  {
    StepUp(dirs, depth, d);
    p := Parent(dirs, d);
    n := EntryName(dirs[p], d).value;
  }

  // In a tree the walk never fails and gives one proper name for each level it climbs.
  lemma {:induction false} ClimbReaches(dirs: Dirs, depth: map<nat, nat>, d: nat, steps: nat)
    requires Tree(dirs, depth) && d in dirs
    ensures d in depth && Climb(dirs, d, steps).Some?
    ensures |Climb(dirs, d, steps).value| == if depth[d] <= steps then depth[d] else steps
    ensures AllProper(Climb(dirs, d, steps).value)
    decreases steps
  {
    hide Tree, Search, Proper, Climb;
    RootDepth(dirs, depth, d);
    if d == ROOT || steps == 0 {
      ClimbEnds(dirs, d, steps);
    } else {
      var p, n := ClimbStep(dirs, depth, d, steps);
      ClimbReaches(dirs, depth, p, steps - 1);
      var rest := Climb(dirs, p, steps - 1).value;
      assert forall m :: m in [n] + rest ==> m == n || m in rest;
    }
  }

  // ---------------------------------------------------------------------
  // namei
  // ---------------------------------------------------------------------

  const COMPONENT_MAX: nat := 15

  // The bytes up to a slash, the end, or the fifteenth.
  function Component(p: seq<Byte>, max: nat): (r: seq<Byte>)
    ensures r <= p && |r| <= max && SLASH !in r
    ensures |r| == max || |r| == |p| || p[|r|] == SLASH
  {
    if max == 0 || p == [] || p[0] == SLASH then [] else [p[0]] + Component(p[1..], max - 1)
  }

  function SkipSlashes(p: seq<Byte>): (r: seq<Byte>)
    ensures |r| <= |p| && (p != [] && p[0] == SLASH ==> |r| < |p|)
    ensures p != [] && p[0] != SLASH ==> r == p
  {
    if p != [] && p[0] == SLASH then SkipSlashes(p[1..]) else p
  }

  // The walk along a path that is not empty, from directory x.  `may` are the directories the
  // caller may search.
  function Walk(dirs: Dirs, may: set<nat>, x: nat, p: seq<Byte>): (r: Option<nat>)
    requires p != []
    decreases |p|
  {
    var name := Component(p, COMPONENT_MAX);
    var rest := SkipSlashes(p[|name|..]);
    if name == SELF then
      if rest == [] then Some(x) else if x !in may then None else Walk(dirs, may, x, rest)
    else
      var next := Search(dirs, x, name);
      if next.None? then None
      else if rest == [] then next
      else if next.value !in dirs || next.value !in may then None
      else Walk(dirs, may, next.value, rest)
  }

  function Namei(dirs: Dirs, may: set<nat>, root: nat, pwd: nat, path: seq<Byte>): (r: Option<nat>) {
    var start, p := if path != [] && path[0] == SLASH then root else pwd,
                    if path != [] && path[0] == SLASH then path[1..] else path;
    if p == [] then Some(start) else Walk(dirs, may, start, p)
  }

  // The same walk over a list of names.
  function Follow(dirs: Dirs, may: set<nat>, x: nat, names: seq<Name>): (r: Option<nat>)
    requires names != []
    decreases |names|
  {
    var next := Search(dirs, x, names[0]);
    if next.None? || |names| == 1 then next
    else if next.value !in dirs || next.value !in may then None
    else Follow(dirs, may, next.value, names[1..])
  }

  function Join(names: seq<Name>): (r: seq<Byte>)
    requires names != []
  {
    if |names| == 1 then names[0] else names[0] + [SLASH] + Join(names[1..])
  }

  // A proper name is taken whole, up to the slash behind it or the end.
  lemma {:induction false} ComponentIs(name: seq<Byte>, rest: seq<Byte>, max: nat)
    requires SLASH !in name && |name| < max && (rest == [] || rest[0] == SLASH)
    ensures Component(name + rest, max) == name
  {
    if name == [] {
      assert name + rest == rest;
    } else {
      assert (name + rest)[1..] == name[1..] + rest;
      ComponentIs(name[1..], rest, max - 1);
    }
  }

  lemma JoinStarts(names: seq<Name>)
    requires names != [] && AllProper(names)
    ensures Join(names) != [] && Join(names)[0] != SLASH
  {
    assert names[0] in names;
    assert Join(names)[0] == names[0][0];
  }

  // Walking a joined path is following its names.
  lemma {:induction false} WalkFollows(dirs: Dirs, may: set<nat>, x: nat, names: seq<Name>)
    requires names != [] && AllProper(names)
    ensures Join(names) != [] && Walk(dirs, may, x, Join(names)) == Follow(dirs, may, x, names)
    decreases |names|
  {
    hide Search;
    JoinStarts(names);
    var p, n := Join(names), names[0];
    assert n in names;
    if |names| == 1 {
      assert n + [] == n;
      ComponentIs(n, [], COMPONENT_MAX);
      assert p[|n|..] == [];
    } else {
      var more := Join(names[1..]);
      assert AllProper(names[1..]);
      JoinStarts(names[1..]);
      assert p == n + ([SLASH] + more);
      ComponentIs(n, [SLASH] + more, COMPONENT_MAX);
      assert p[|n|..] == [SLASH] + more;
      assert SkipSlashes([SLASH] + more) == more by {
        assert ([SLASH] + more)[1..] == more;
      }
      var next := Search(dirs, x, n);
      if next.Some? {
        WalkFollows(dirs, may, next.value, names[1..]);
      }
    }
  }

  // One more name at the end is one more step from where the others lead.
  lemma {:induction false} FollowSnoc(dirs: Dirs, may: set<nat>, x: nat, names: seq<Name>, n: Name)
    requires names != []
    ensures var y := Follow(dirs, may, x, names);
            Follow(dirs, may, x, names + [n]) ==
            if y.None? || y.value !in dirs || y.value !in may then None else Search(dirs, y.value, n)
    decreases |names|
  {
    var all := names + [n];
    var next := Search(dirs, x, names[0]);
    assert all[0] == names[0] && all[1..] == names[1..] + [n];
    if |names| == 1 {
      assert all[1..] == [n];
    } else if next.Some? {
      FollowSnoc(dirs, may, next.value, names[1..], n);
    }
  }

  function Reverse(names: seq<Name>): (r: seq<Name>)
    ensures |r| == |names| && forall n :: n in r <==> n in names
  {
    if names == [] then [] else Reverse(names[1..]) + [names[0]]
  }

  lemma {:induction false} JoinSnoc(names: seq<Name>, n: Name)
    requires names != []
    ensures Join(names + [n]) == Join(names) + [SLASH] + n
  {
    assert (names + [n])[1..] == names[1..] + [n];
    if |names| == 1 {
      assert names[1..] + [n] == [n];
    } else {
      JoinSnoc(names[1..], n);
    }
  }

  lemma OneName(names: seq<Name>)
    requires |names| == 1
    ensures Render(names) == [SLASH] + names[0] && Reverse(names) == [names[0]] && Join([names[0]]) == names[0]
  {
  }

  lemma {:induction false} RenderJoins(names: seq<Name>)
    requires names != []
    ensures Render(names) == [SLASH] + Join(Reverse(names))
  {
    if |names| == 1 {
      OneName(names);
    } else {
      var rest := names[1..];
      RenderJoins(rest);
      assert Render(names) == Render(rest) + [SLASH] + names[0] && Reverse(names) == Reverse(rest) + [names[0]];
      hide Render, Join, Reverse;
      JoinSnoc(Reverse(rest), names[0]);
    }
  }

  // ---------------------------------------------------------------------
  // There and back
  // ---------------------------------------------------------------------

  // The caller may search every directory strictly between the root and d.
  predicate Open(dirs: Dirs, may: set<nat>, d: nat, steps: nat)
    decreases steps
  {
    d == ROOT || steps == 0 ||
    (var up := Search(dirs, d, UP);
     up.None? || up.value == ROOT || (up.value in may && Open(dirs, may, up.value, steps - 1)))
  }

  lemma {:induction false} FollowsHome(dirs: Dirs, depth: map<nat, nat>, may: set<nat>, d: nat, steps: nat)
    requires Tree(dirs, depth) && d in dirs && d in depth && d != ROOT && depth[d] <= steps
    ensures var names := Climb(dirs, d, steps);
            && names.Some? && names.value != []
            && Follow(dirs, may, ROOT, Reverse(names.value)) == if Open(dirs, may, d, steps) then Some(d) else None
    decreases steps
  {
    hide Tree, Search, Proper, Climb;
    RootDepth(dirs, depth, d);
    var p, n := ClimbStep(dirs, depth, d, steps);
    RootDepth(dirs, depth, p);
    if p == ROOT {
      ClimbEnds(dirs, p, steps - 1);
      assert [n] + [] == [n] && Reverse([n]) == [n];
    } else {
      FollowsHome(dirs, depth, may, p, steps - 1);
      var rest := Climb(dirs, p, steps - 1).value;
      var names := [n] + rest;
      assert names[1..] == rest;
      FollowSnoc(dirs, may, ROOT, Reverse(rest), n);
    }
  }

  // The path getcwd gives for a directory at most 64 levels deep resolves to that directory,
  // exactly when every directory on the way may be searched.
  lemma CwdResolves(dirs: Dirs, depth: map<nat, nat>, may: set<nat>, pwd: nat, size: int)
    requires Tree(dirs, depth) && pwd in dirs && pwd in depth && depth[pwd] <= GETCWD_DEPTH
    ensures var r := Cwd(dirs, pwd, size);
            r.Some? ==> Namei(dirs, may, ROOT, pwd, r.value) ==
                        if Open(dirs, may, pwd, GETCWD_DEPTH) then Some(pwd) else None
  {
    hide Tree, Climb, Open, Namei;
    RootDepth(dirs, depth, pwd);
    if pwd == ROOT {
      RootResolves(dirs, may, pwd);
    } else if Cwd(dirs, pwd, size).Some? {
      BelowResolves(dirs, depth, may, pwd, GETCWD_DEPTH);
    }
  }

  lemma RootResolves(dirs: Dirs, may: set<nat>, pwd: nat)
    ensures Climb(dirs, ROOT, GETCWD_DEPTH) == Some([]) && Open(dirs, may, ROOT, GETCWD_DEPTH)
    ensures Namei(dirs, may, ROOT, pwd, [SLASH]) == Some(ROOT)
  {
  }

  lemma BelowResolves(dirs: Dirs, depth: map<nat, nat>, may: set<nat>, d: nat, steps: nat)
    requires Tree(dirs, depth) && d in dirs && d in depth && d != ROOT && depth[d] <= steps
    ensures var names := Climb(dirs, d, steps);
            && names.Some? && names.value != []
            && Namei(dirs, may, ROOT, d, Render(names.value)) == if Open(dirs, may, d, steps) then Some(d) else None
  {
    hide Tree, Climb, Open, Walk, Follow;
    FollowsHome(dirs, depth, may, d, steps);
    ClimbReaches(dirs, depth, d, steps);
    var names := Climb(dirs, d, steps).value;
    RenderJoins(names);
    WalkFollows(dirs, may, ROOT, Reverse(names));
    assert Render(names)[1..] == Join(Reverse(names));
  }

  // A shorter walk gives the names nearest to d.
  lemma {:induction false} ClimbPrefix(dirs: Dirs, depth: map<nat, nat>, d: nat, few: nat, many: nat)
    requires Tree(dirs, depth) && d in dirs && few <= many
    ensures Climb(dirs, d, few).Some? && Climb(dirs, d, many).Some?
    ensures Climb(dirs, d, few).value <= Climb(dirs, d, many).value
    decreases few
  {
    hide Tree, Search, Proper, Climb, EntryName;
    RootDepth(dirs, depth, d);
    ClimbReaches(dirs, depth, d, many);
    if d == ROOT || few == 0 {
      ClimbEnds(dirs, d, few);
    } else {
      var p, n := ClimbStep(dirs, depth, d, many);
      var p', n' := ClimbStep(dirs, depth, d, few);
      ClimbPrefix(dirs, depth, p, few - 1, many - 1);
    }
  }

  lemma {:induction false} RenderShorter(a: seq<Name>, b: seq<Name>)
    requires a <= b && |a| < |b|
    ensures |Render(a)| < |Render(b)|
  {
    if a == [] {
      assert |Render(b)| >= 1;
    } else {
      RenderShorter(a[1..], b[1..]);
    }
  }

  // getcwd gives the whole path exactly for directories at most 64 levels deep; deeper down
  // it leaves out the outermost names.
  lemma CwdIsWholeIff(dirs: Dirs, depth: map<nat, nat>, d: nat)
    requires Tree(dirs, depth) && d in dirs && d in depth
    ensures Climb(dirs, d, depth[d]).Some? && Climb(dirs, d, GETCWD_DEPTH).Some?
    ensures depth[d] <= GETCWD_DEPTH <==>
            Render(Climb(dirs, d, GETCWD_DEPTH).value) == Render(Climb(dirs, d, depth[d]).value)
  {
    hide Tree, Climb;
    var n := depth[d];
    ClimbReaches(dirs, depth, d, n);
    ClimbReaches(dirs, depth, d, GETCWD_DEPTH);
    if n <= GETCWD_DEPTH {
      ClimbPrefix(dirs, depth, d, n, GETCWD_DEPTH);
      assert Climb(dirs, d, n).value == Climb(dirs, d, GETCWD_DEPTH).value;
    } else {
      ClimbPrefix(dirs, depth, d, GETCWD_DEPTH, n);
      RenderShorter(Climb(dirs, d, GETCWD_DEPTH).value, Climb(dirs, d, n).value);
    }
  }

  // ---------------------------------------------------------------------
  // The loops
  // ---------------------------------------------------------------------

  method TakeComponent(p: seq<Byte>) returns (name: seq<Byte>)
    ensures name == Component(p, COMPONENT_MAX)
  {
    var n := 0;
    while n < |p| && p[n] != SLASH && n < COMPONENT_MAX
      invariant n <= |p| && n <= COMPONENT_MAX && forall k :: 0 <= k < n ==> p[k] != SLASH
    {
      n := n + 1;
    }
    ComponentLength(p, n);
    return p[..n];
  }

  lemma ComponentLength(p: seq<Byte>, n: nat)
    requires n <= |p| && n <= COMPONENT_MAX && forall k :: 0 <= k < n ==> p[k] != SLASH
    requires n == |p| || n == COMPONENT_MAX || p[n] == SLASH
    ensures Component(p, COMPONENT_MAX) == p[..n]
  {
  }

  method SkipAll(p: seq<Byte>) returns (r: seq<Byte>)
    ensures r == SkipSlashes(p)
  {
    r := p;
    while r != [] && r[0] == SLASH
      invariant SkipSlashes(r) == SkipSlashes(p)
    {
      r := r[1..];
    }
  }

  // namei
  method Resolve(dirs: Dirs, may: set<nat>, root: nat, pwd: nat, path: seq<Byte>) returns (r: Option<nat>)
    ensures r == Namei(dirs, may, root, pwd, path)
  {
    var inode, p := pwd, path;
    if path != [] && path[0] == SLASH {
      inode, p := root, path[1..];
    }
    if p == [] {
      return Some(inode);
    }
    while true
      invariant p != [] && Namei(dirs, may, root, pwd, path) == Walk(dirs, may, inode, p)
      decreases |p|
    {
      var name := TakeComponent(p);
      var rest := SkipAll(p[|name|..]);
      if name == SELF {
        if rest == [] {
          return Some(inode);
        }
        if inode !in may {
          return None;
        }
      } else {
        var next := Search(dirs, inode, name);
        if next.None? {
          return None;
        }
        inode := next.value;
        if rest == [] {
          return Some(inode);
        }
        if inode !in dirs || inode !in may {
          return None;
        }
      }
      p := rest;
    }
  }

  lemma {:induction false} RenderGrows(names: seq<Name>, i: nat)
    requires i <= |names|
    ensures |Render(names[i..])| <= |Render(names)|
  {
    if i == 0 {
      assert names[0..] == names;
    } else {
      RenderGrows(names[1..], i - 1);
      assert names[1..][i - 1..] == names[i..];
    }
  }

  // getcwd: the walk up, then the names written outermost first.
  method Getcwd(dirs: Dirs, pwd: nat, size: int) returns (r: Option<seq<Byte>>)
    ensures r == Cwd(dirs, pwd, size)
  {
    var names := ClimbUp(dirs, pwd, GETCWD_DEPTH);
    if names.None? {
      return None;
    }
    if names.value == [] {
      return if size < 2 then None else Some([SLASH]);
    }
    r := Assemble(names.value, size);
  }

  method ClimbUp(dirs: Dirs, pwd: nat, limit: nat) returns (r: Option<seq<Name>>)
    ensures r == Climb(dirs, pwd, limit)
  {
    var cwd, names := pwd, [];
    ghost var all := Climb(dirs, pwd, limit);
    assert all.Some? ==> [] + all.value == all.value;
    while cwd != ROOT && |names| < limit
      invariant |names| <= limit
      invariant var rest := Climb(dirs, cwd, limit - |names|);
                all == if rest.None? then None else Some(names + rest.value)
      decreases limit - |names|
    {
      var up := Search(dirs, cwd, UP);
      if up.None? || up.value !in dirs {
        return None;
      }
      var name := EntryName(dirs[up.value], cwd);
      if name.None? {
        return None;
      }
      ghost var rest := Climb(dirs, up.value, limit - |names| - 1);
      assert rest.Some? ==> names + ([name.value] + rest.value) == (names + [name.value]) + rest.value;
      cwd, names := up.value, names + [name.value];
    }
    ClimbEnds(dirs, cwd, limit - |names|);
    assert names + [] == names;
    return Some(names);
  }

  method Assemble(names: seq<Name>, size: int) returns (r: Option<seq<Byte>>)
    requires names != []
    ensures r == if |Render(names)| + 1 <= size then Some(Render(names)) else None
  {
    var buf, i: nat := [], |names|;
    assert names[|names|..] == [];
    while i > 0
      invariant i <= |names| && buf == Render(names[i..])
      invariant i < |names| ==> |buf| + 1 <= size
    {
      i := i - 1;
      assert names[i..][1..] == names[i + 1..];
      RenderGrows(names, i);
      if |buf| + |names[i]| + 2 > size {
        return None;
      }
      buf := buf + [SLASH] + names[i];
    }
    assert names[0..] == names;
    return Some(buf);
  }
}
