/** File descriptors (kernel/sys.c, kernel/process.c, fs/pipe.c): each task has 64 descriptors
    that name entries of one table of 64 open files, and each entry holds one reference to an
    inode.  The console's entry is not in the table and is not counted. */
module Descriptors {
  import opened Layout

  const NR_OPEN: nat := 64
  const NR_FILE: nat := 64

  datatype Fd = Closed | Console | Names(file: nat)

  type Filp = s: seq<Fd> | |s| == NR_OPEN witness seq(NR_OPEN, _ => Closed)

  // An entry with count 0 is free; a device has no inode.
  datatype File = File(count: nat, inode: Option<nat>)

  // A pipe's page belongs to its inode while `pipe` is set.
  datatype Inode = Inode(count: nat, pipe: bool)

  // The inodes a task holds itself: its working directory, its root and its executable.
  datatype Own = Own(pwd: Option<nat>, root: Option<nat>, exe: Option<nat>)

  const NOTHING: Own := Own(None, None, None)

  // `others` are the references to each inode that are neither open files nor a task's own
  // (lookups under way); `made` and `freed` record the pipe pages handed out and given back.
  datatype State = State(tasks: seq<Option<Filp>>, files: seq<File>, inodes: seq<Inode>, owns: seq<Own>,
                         others: seq<nat>, made: multiset<nat>, freed: multiset<nat>)

  // ---------------------------------------------------------------------
  // Counting
  // ---------------------------------------------------------------------

  // How many descriptors of a list name file f.
  function CountIn(fds: seq<Fd>, f: nat): (n: nat)
    ensures n <= |fds|
  {
    if fds == [] then 0 else CountIn(fds[..|fds| - 1], f) + One(fds[|fds| - 1] == Names(f))
  }

  lemma {:induction false} CountInSet(fds: seq<Fd>, i: nat, x: Fd, f: nat)
    requires i < |fds|
    ensures CountIn(fds[i := x], f) + One(fds[i] == Names(f)) == CountIn(fds, f) + One(x == Names(f))
    decreases |fds|
  {
    var n := |fds| - 1;
    if i == n {
      assert fds[i := x][..n] == fds[..n];
    } else {
      CountInSet(fds[..n], i, x, f);
      assert fds[i := x][..n] == fds[..n][i := x];
    }
  }

  // ... and of all tasks.
  function Total(tasks: seq<Option<Filp>>, f: nat): (n: nat)
    ensures n <= |tasks| * NR_OPEN
  {
    if tasks == [] then 0
    else
      var last := tasks[|tasks| - 1];
      Total(tasks[..|tasks| - 1], f) + if last.Some? then CountIn(last.value, f) else 0
  }

  function InTask(t: Option<Filp>, f: nat): nat {
    if t.Some? then CountIn(t.value, f) else 0
  }

  lemma {:induction false} TotalSet(tasks: seq<Option<Filp>>, t: nat, x: Option<Filp>, f: nat)
    requires t < |tasks|
    ensures Total(tasks[t := x], f) + InTask(tasks[t], f) == Total(tasks, f) + InTask(x, f)
    decreases |tasks|
  {
    var n := |tasks| - 1;
    if t == n {
      assert tasks[t := x][..n] == tasks[..n];
    } else {
      TotalSet(tasks[..n], t, x, f);
      assert tasks[t := x][..n] == tasks[..n][t := x];
    }
  }

  // The open files that hold inode x.
  function Holding(files: seq<File>, x: nat): (n: nat) {
    if files == [] then 0
    else
      var last := files[|files| - 1];
      Holding(files[..|files| - 1], x) + One(Holds(last, x))
  }

  predicate Holds(f: File, x: nat) {
    f.count > 0 && f.inode == Some(x)
  }

  lemma {:induction false} HoldingSet(files: seq<File>, f: nat, y: File, x: nat)
    requires f < |files|
    ensures Holding(files[f := y], x) + One(Holds(files[f], x)) == Holding(files, x) + One(Holds(y, x))
    decreases |files|
  {
    var n := |files| - 1;
    if f == n {
      assert files[f := y][..n] == files[..n];
    } else {
      HoldingSet(files[..n], f, y, x);
      assert files[f := y][..n] == files[..n][f := y];
    }
  }

  // The tasks that hold inode x themselves, each as often as it does.
  function OwnCount(o: Own, x: nat): nat {
    One(o.pwd == Some(x)) + One(o.root == Some(x)) + One(o.exe == Some(x))
  }

  function Owned(owns: seq<Own>, x: nat): nat {
    if owns == [] then 0 else Owned(owns[..|owns| - 1], x) + OwnCount(owns[|owns| - 1], x)
  }

  lemma {:induction false} OwnedSet(owns: seq<Own>, t: nat, o: Own, x: nat)
    requires t < |owns|
    ensures Owned(owns[t := o], x) + OwnCount(owns[t], x) == Owned(owns, x) + OwnCount(o, x)
    decreases |owns|
  {
    var n := |owns| - 1;
    if t == n {
      assert owns[t := o][..n] == owns[..n];
    } else {
      OwnedSet(owns[..n], t, o, x);
      assert owns[t := o][..n] == owns[..n][t := o];
    }
  }

  // ---------------------------------------------------------------------
  // The invariant
  // ---------------------------------------------------------------------

  ghost predicate Shaped(s: State) {
    && |s.files| == NR_FILE && |s.tasks| <= NR_TASKS && |s.others| == |s.inodes| && |s.owns| == |s.tasks|
    && forall t: nat :: t < |s.tasks| && s.tasks[t].None? ==> s.owns[t] == NOTHING
  }

  predicate OwnOk(o: Own, inodes: nat) {
    && (o.pwd.Some? ==> o.pwd.value < inodes) && (o.root.Some? ==> o.root.value < inodes)
    && (o.exe.Some? ==> o.exe.value < inodes)
  }

  ghost predicate OwnsOk(owns: seq<Own>, inodes: nat) {
    forall t: nat :: t < |owns| ==> OwnOk(owns[t], inodes)
  }

  predicate FdOk(x: Fd, files: nat) {
    x.Names? ==> x.file < files
  }

  ghost predicate FdsOk(tasks: seq<Option<Filp>>, files: nat) {
    forall t: nat, i: nat :: t < |tasks| && tasks[t].Some? && i < NR_OPEN ==> FdOk(tasks[t].value[i], files)
  }

  // Every entry's count is the number of descriptors that name it.
  ghost predicate CountsExact(tasks: seq<Option<Filp>>, files: seq<File>) {
    forall f: nat :: f < |files| ==> files[f].count == Total(tasks, f)
  }

  // Every inode's count is the number of open files and of tasks that hold it and of its other
  // holders; a pipe is held by open files alone, and its page is out exactly while one does.
  ghost predicate InodeExact(s: State, x: nat)
    requires x < |s.inodes| == |s.others|
  {
    && s.inodes[x].count == Holding(s.files, x) + Owned(s.owns, x) + s.others[x]
    && (s.inodes[x].pipe ==> Owned(s.owns, x) + s.others[x] == 0 && s.inodes[x].count > 0)
    && s.made[x] == s.freed[x] + One(s.inodes[x].pipe)
  }

  ghost predicate InodesExact(s: State)
    requires |s.inodes| == |s.others|
  {
    forall x: nat :: x < |s.inodes| ==> InodeExact(s, x)
  }

  ghost predicate FilesOk(files: seq<File>, inodes: nat) {
    forall f: nat :: f < |files| && files[f].count > 0 && files[f].inode.Some? ==> files[f].inode.value < inodes
  }

  ghost predicate Inv(s: State) {
    && Shaped(s) && FdsOk(s.tasks, |s.files|) && CountsExact(s.tasks, s.files)
    && InodesExact(s) && FilesOk(s.files, |s.inodes|) && OwnsOk(s.owns, |s.inodes|)
  }

  // The sixteen-bit count of an entry never wraps.
  lemma CountFits(s: State, f: nat)
    requires Inv(s) && f < NR_FILE
    ensures s.files[f].count <= NR_TASKS * NR_OPEN < 65536
  {
  }

  // Nothing is open but consoles, and no pipe has been made.
  ghost predicate Boot(s: State) {
    && Shaped(s) && s.made == s.freed == multiset{}
    && (forall t: nat, i: nat :: t < |s.tasks| && s.tasks[t].Some? && i < NR_OPEN ==> !s.tasks[t].value[i].Names?)
    && (forall f: nat :: f < |s.files| ==> s.files[f].count == 0)
    && (forall t: nat :: t < |s.owns| ==> s.owns[t] == NOTHING)
    && forall x: nat :: x < |s.inodes| ==> s.inodes[x] == Inode(s.others[x], false)
  }

  lemma {:induction false} NoneCounted(fds: seq<Fd>, f: nat)
    requires forall i: nat :: i < |fds| ==> !fds[i].Names?
    ensures CountIn(fds, f) == 0
  {
    if fds != [] {
      NoneCounted(fds[..|fds| - 1], f);
    }
  }

  lemma {:induction false} NoneInTotal(tasks: seq<Option<Filp>>, f: nat)
    requires forall t: nat, i: nat :: t < |tasks| && tasks[t].Some? && i < NR_OPEN ==> !tasks[t].value[i].Names?
    ensures Total(tasks, f) == 0
  {
    if tasks != [] {
      var last := tasks[|tasks| - 1];
      if last.Some? {
        NoneCounted(last.value, f);
      }
      NoneInTotal(tasks[..|tasks| - 1], f);
    }
  }

  lemma {:induction false} NoneHolding(files: seq<File>, x: nat)
    requires forall f: nat :: f < |files| ==> files[f].count == 0
    ensures Holding(files, x) == 0
  {
    if files != [] {
      NoneHolding(files[..|files| - 1], x);
    }
  }

  lemma {:induction false} NoneOwned(owns: seq<Own>, x: nat)
    requires forall t: nat :: t < |owns| ==> owns[t] == NOTHING
    ensures Owned(owns, x) == 0
  {
    if owns != [] {
      NoneOwned(owns[..|owns| - 1], x);
    }
  }

  // The counts are exact to begin with.
  lemma BootInv(s: State)
    requires Boot(s)
    ensures Inv(s)
  {
    forall f: nat | f < |s.files| ensures s.files[f].count == Total(s.tasks, f) {
      NoneInTotal(s.tasks, f);
    }
    forall x: nat | x < |s.inodes| ensures InodeExact(s, x) {
      NoneHolding(s.files, x);
      NoneOwned(s.owns, x);
    }
  }

  // ---------------------------------------------------------------------
  // Elementary moves
  // ---------------------------------------------------------------------

  predicate Alive(s: State, t: nat) {
    t < |s.tasks| && s.tasks[t].Some?
  }

  function FdAt(s: State, t: nat, i: nat): Fd
    requires Alive(s, t) && i < NR_OPEN
  {
    s.tasks[t].value[i]
  }

  function SetFd(tasks: seq<Option<Filp>>, t: nat, i: nat, x: Fd): (r: seq<Option<Filp>>)
    requires t < |tasks| && tasks[t].Some? && i < NR_OPEN
    ensures |r| == |tasks|
  {
    tasks[t := Some(tasks[t].value[i := x])]
  }

  lemma SetFdTotal(tasks: seq<Option<Filp>>, t: nat, i: nat, x: Fd, f: nat)
    requires t < |tasks| && tasks[t].Some? && i < NR_OPEN
    ensures Total(SetFd(tasks, t, i, x), f) + One(tasks[t].value[i] == Names(f)) == Total(tasks, f) + One(x == Names(f))
  {
    CountInSet(tasks[t].value, i, x, f);
    TotalSet(tasks, t, Some(tasks[t].value[i := x]), f);
  }

  // A descriptor that names an entry is counted.
  lemma {:induction false} CountInPositive(fds: seq<Fd>, i: nat, f: nat)
    requires i < |fds| && fds[i] == Names(f)
    ensures CountIn(fds, f) > 0
    decreases |fds|
  {
    if i < |fds| - 1 {
      CountInPositive(fds[..|fds| - 1], i, f);
    }
  }

  lemma {:induction false} TotalPositive(tasks: seq<Option<Filp>>, t: nat, i: nat, f: nat)
    requires t < |tasks| && tasks[t].Some? && i < NR_OPEN && tasks[t].value[i] == Names(f)
    ensures Total(tasks, f) > 0
    decreases |tasks|
  {
    if t < |tasks| - 1 {
      TotalPositive(tasks[..|tasks| - 1], t, i, f);
    } else {
      CountInPositive(tasks[t].value, i, f);
    }
  }

  // One descriptor gives up entry f; the last one gives up the inode, and with a pipe's inode its
  // page.
  function Release(s: State, f: nat): (r: State)
    ensures r.tasks == s.tasks && r.owns == s.owns
  {
    if f >= |s.files| || s.files[f].count == 0 then s
    else
      var file := s.files[f];
      var s' := s.(files := s.files[f := file.(count := file.count - 1)]);
      if file.count > 1 || file.inode.None? || file.inode.value >= |s.inodes| then s'
      else Iput(s', file.inode.value)
  }

  function Iput(s: State, x: nat): (r: State)
    requires x < |s.inodes|
    ensures r.tasks == s.tasks && r.owns == s.owns
  {
    var n := if s.inodes[x].count > 0 then s.inodes[x].count - 1 else 0;
    if s.inodes[x].pipe && n == 0
    then s.(inodes := s.inodes[x := Inode(0, false)], freed := s.freed + multiset{x})
    else s.(inodes := s.inodes[x := s.inodes[x].(count := n)])
  }

  // sys_close
  function CloseOf(s: State, t: nat, i: nat): (r: State)
    requires Alive(s, t) && i < NR_OPEN
    ensures r.tasks == SetFd(s.tasks, t, i, Closed) && r.owns == s.owns
  {
    var s' := s.(tasks := SetFd(s.tasks, t, i, Closed));
    if FdAt(s, t, i).Names? then Release(s', FdAt(s, t, i).file) else s'
  }

  lemma NamedIsCounted(s: State, t: nat, i: nat)
    requires Inv(s) && Alive(s, t) && i < NR_OPEN && FdAt(s, t, i).Names?
    ensures FdAt(s, t, i).file < |s.files| && s.files[FdAt(s, t, i).file].count > 0
  {
    assert FdOk(s.tasks[t].value[i], |s.files|);
    TotalPositive(s.tasks, t, i, FdAt(s, t, i).file);
  }

  // Counts stay exact when one descriptor changes and the entries follow.
  lemma CountsFollow(tasks: seq<Option<Filp>>, t: nat, i: nat, x: Fd, files: seq<File>, files': seq<File>)
    requires CountsExact(tasks, files) && t < |tasks| && tasks[t].Some? && i < NR_OPEN
    requires |files'| == |files|
    requires forall f: nat :: f < |files| ==>
               files'[f].count + One(tasks[t].value[i] == Names(f)) == files[f].count + One(x == Names(f))
    ensures CountsExact(SetFd(tasks, t, i, x), files')
  {
    forall f: nat | f < |files| ensures files'[f].count == Total(SetFd(tasks, t, i, x), f) {
      SetFdTotal(tasks, t, i, x, f);
    }
  }

  lemma CloseKeepsInodes(s: State, f: nat)
    requires Shaped(s) && InodesExact(s) && FilesOk(s.files, |s.inodes|) && f < |s.files| && s.files[f].count > 0
    ensures var r := Release(s, f); Shaped(r) && InodesExact(r) && FilesOk(r.files, |r.inodes|)
  {
    var r := Release(s, f);
    var file := s.files[f].(count := s.files[f].count - 1);
    forall x: nat | x < |r.inodes| ensures InodeExact(r, x) {
      assert InodeExact(s, x);
      HoldingSet(s.files, f, file, x);
    }
  }

  lemma CloseKeepsInv(s: State, t: nat, i: nat)
    requires Inv(s) && Alive(s, t) && i < NR_OPEN
    ensures Inv(CloseOf(s, t, i))
  {
    var s' := s.(tasks := SetFd(s.tasks, t, i, Closed));
    forall x: nat | x < |s.inodes| ensures InodeExact(s', x) {
      assert InodeExact(s, x);
    }
    if FdAt(s, t, i).Names? {
      NamedIsCounted(s, t, i);
      CountsFollow(s.tasks, t, i, Closed, s.files, CloseOf(s, t, i).files);
      CloseKeepsInodes(s', FdAt(s, t, i).file);
    } else {
      CountsFollow(s.tasks, t, i, Closed, s.files, s.files);
    }
  }

  // A closed descriptor of t becomes a copy of an open one.
  function ShareOf(s: State, t: nat, i: nat, x: Fd): State
    requires Alive(s, t) && i < NR_OPEN && FdOk(x, |s.files|)
  {
    var s' := s.(tasks := SetFd(s.tasks, t, i, x));
    if x.Names?
    then s'.(files := s.files[x.file := s.files[x.file].(count := s.files[x.file].count + 1)])
    else s'
  }

  lemma ShareKeepsInv(s: State, t: nat, i: nat, x: Fd)
    requires Inv(s) && Alive(s, t) && i < NR_OPEN && FdAt(s, t, i).Closed?
    requires x.Names? ==> x.file < |s.files| && s.files[x.file].count > 0
    ensures Inv(ShareOf(s, t, i, x))
  {
    var r := ShareOf(s, t, i, x);
    CountsFollow(s.tasks, t, i, x, s.files, r.files);
    forall y: nat | y < |r.inodes| ensures InodeExact(r, y) {
      assert InodeExact(s, y);
      if x.Names? {
        HoldingSet(s.files, x.file, r.files[x.file], y);
      }
    }
  }

  // A free entry and a closed descriptor are given to an inode just looked up, whose reference
  // passes to the entry; a device has none.
  function TakeOf(s: State, t: nat, i: nat, f: nat, x: Option<nat>): State
    requires Alive(s, t) && i < NR_OPEN && f < |s.files| && (x.Some? ==> x.value < |s.inodes|)
  {
    var s' := s.(tasks := SetFd(s.tasks, t, i, Names(f)), files := s.files[f := File(1, x)]);
    if x.Some?
    then s'.(inodes := s.inodes[x.value := s.inodes[x.value].(count := s.inodes[x.value].count + 1)])
    else s'
  }

  lemma TakeKeepsInv(s: State, t: nat, i: nat, f: nat, x: Option<nat>)
    requires Inv(s) && Alive(s, t) && i < NR_OPEN && FdAt(s, t, i).Closed?
    requires f < |s.files| && s.files[f].count == 0 && (x.Some? ==> x.value < |s.inodes|)
    ensures Inv(TakeOf(s, t, i, f, x))
  {
    var r := TakeOf(s, t, i, f, x);
    CountsFollow(s.tasks, t, i, Names(f), s.files, r.files);
    forall y: nat | y < |r.inodes| ensures InodeExact(r, y) {
      assert InodeExact(s, y);
      HoldingSet(s.files, f, File(1, x), y);
    }
  }

  // Inode x, with its two entries, becomes a pipe with a page.
  function PipeMade(s: State, x: nat): State
    requires x < |s.inodes|
  {
    s.(inodes := s.inodes[x := s.inodes[x].(pipe := true)], made := s.made + multiset{x})
  }

  lemma PipeMadeKeepsInv(s: State, x: nat)
    requires Inv(s) && x < |s.inodes| && !s.inodes[x].pipe && s.inodes[x].count > 0
    requires Owned(s.owns, x) + s.others[x] == 0
    ensures Inv(PipeMade(s, x))
  {
    forall y: nat | y < |s.inodes| ensures InodeExact(PipeMade(s, x), y) {
      assert InodeExact(s, y);
    }
  }

  // sys_pipe, given the free entries, descriptors and inode slot it found.
  function PipeOf(s: State, t: nat, i: nat, j: nat, f: nat, g: nat, x: nat): State
    requires Alive(s, t) && i < NR_OPEN && j < NR_OPEN && f < |s.files| && g < |s.files| && x < |s.inodes|
  {
    PipeMade(TakeOf(TakeOf(s, t, i, f, Some(x)), t, j, g, Some(x)), x)
  }

  lemma PipeKeepsInv(s: State, t: nat, i: nat, j: nat, f: nat, g: nat, x: nat)
    requires Inv(s) && Alive(s, t) && i < NR_OPEN && j < NR_OPEN && f < |s.files| && g < |s.files| && x < |s.inodes|
    requires FdAt(s, t, i).Closed? && FdAt(s, t, j).Closed? && i != j
    requires s.files[f].count == 0 && s.files[g].count == 0 && f != g && s.inodes[x].count == 0
    ensures Inv(PipeOf(s, t, i, j, f, g, x)) && PipeOf(s, t, i, j, f, g, x).inodes[x] == Inode(2, true)
  {
    assert InodeExact(s, x);
    TakeKeepsInv(s, t, i, f, Some(x));
    var a := TakeOf(s, t, i, f, Some(x));
    TakeKeepsInv(a, t, j, g, Some(x));
    PipeMadeKeepsInv(TakeOf(a, t, j, g, Some(x)), x);
  }

  // sys_fork: a free slot gets a copy of the descriptors and every entry named is counted again.
  ghost predicate Counted(files: seq<File>, fds: seq<Fd>, files': seq<File>) {
    && |files'| == |files|
    && forall f: nat :: f < |files| ==> files'[f] == files[f].(count := files[f].count + CountIn(fds, f))
  }

  // One more reference to an inode, if there is one, and one less.
  function Grab(inodes: seq<Inode>, x: Option<nat>): (r: seq<Inode>)
    ensures |r| == |inodes|
    ensures forall y: nat :: y < |r| ==> r[y] == inodes[y].(count := inodes[y].count + One(x == Some(y)))
  {
    if x.Some? && x.value < |inodes|
    then inodes[x.value := inodes[x.value].(count := inodes[x.value].count + 1)] else inodes
  }

  function GrabAll(inodes: seq<Inode>, o: Own): (r: seq<Inode>)
    ensures |r| == |inodes|
    ensures forall y: nat :: y < |r| ==> r[y] == inodes[y].(count := inodes[y].count + OwnCount(o, y))
  {
    Grab(Grab(Grab(inodes, o.pwd), o.root), o.exe)
  }

  function Ungrab(inodes: seq<Inode>, x: Option<nat>): (r: seq<Inode>)
    requires x.Some? ==> x.value < |inodes| && inodes[x.value].count > 0
    ensures |r| == |inodes|
    ensures forall y: nat :: y < |r| ==>
                r[y].pipe == inodes[y].pipe && r[y].count + One(x == Some(y)) == inodes[y].count
  {
    if x.Some? then inodes[x.value := inodes[x.value].(count := inodes[x.value].count - 1)] else inodes
  }

  lemma UngrabLeaves(inodes: seq<Inode>, o: Own)
    requires OwnOk(o, |inodes|)
    ensures var a := GrabAll(inodes, o);
            && (o.pwd.Some? ==> a[o.pwd.value].count > 0)
            && var b := Ungrab(a, o.pwd);
               (o.root.Some? ==> b[o.root.value].count > 0) && Ungrab(b, o.root) == Grab(inodes, o.exe)
  {
    var a := GrabAll(inodes, o);
    var b := Ungrab(a, o.pwd);
    assert forall y: nat :: y < |inodes| ==> Ungrab(b, o.root)[y] == Grab(inodes, o.exe)[y];
  }

  function Forked(s: State, t: nat, k: nat, files': seq<File>): State
    requires t < |s.tasks| == |s.owns| && k < |s.tasks|
  {
    s.(tasks := s.tasks[k := s.tasks[t]], files := files', owns := s.owns[k := s.owns[t]],
       inodes := GrabAll(s.inodes, s.owns[t]))
  }

  lemma ForkKeepsInv(s: State, t: nat, k: nat, files': seq<File>)
    requires Inv(s) && Alive(s, t) && k < |s.tasks| && s.tasks[k].None?
    requires Counted(s.files, s.tasks[t].value, files')
    ensures Inv(Forked(s, t, k, files'))
  {
    var r := Forked(s, t, k, files');
    forall f: nat | f < |files'| ensures files'[f].count == Total(r.tasks, f) {
      TotalSet(s.tasks, k, s.tasks[t], f);
    }
    SameHolders(s, t, files');
    assert OwnsOk(r.owns, |r.inodes|);
    forall x: nat | x < |s.inodes| ensures InodeExact(r, x) {
      assert InodeExact(s, x);
      SameHolding(s.files, files', x);
      OwnedSet(s.owns, k, s.owns[t], x);
      NotOwnedIfPipe(s, t, x);
    }
  }

  // Counting again changes no entry but those in use.
  lemma SameHolders(s: State, t: nat, files': seq<File>)
    requires CountsExact(s.tasks, s.files) && Alive(s, t) && Counted(s.files, s.tasks[t].value, files')
    ensures forall f: nat :: f < |files'| ==>
              files'[f].inode == s.files[f].inode && (files'[f].count > 0 <==> s.files[f].count > 0)
  {
    forall f: nat | f < |files'|
      ensures files'[f].inode == s.files[f].inode && (files'[f].count > 0 <==> s.files[f].count > 0)
    {
      if CountIn(s.tasks[t].value, f) > 0 {
        var i := NamedAt(s.tasks[t].value, f);
        TotalPositive(s.tasks, t, i, f);
      }
    }
  }

  lemma {:induction false} OwnedCovers(owns: seq<Own>, t: nat, x: nat)
    requires t < |owns|
    ensures OwnCount(owns[t], x) <= Owned(owns, x)
    decreases |owns|
  {
    if t < |owns| - 1 {
      OwnedCovers(owns[..|owns| - 1], t, x);
    }
  }

  lemma NotOwnedIfPipe(s: State, t: nat, x: nat)
    requires Inv(s) && t < |s.owns| && x < |s.inodes|
    ensures s.inodes[x].pipe ==> OwnCount(s.owns[t], x) == 0
  {
    OwnedCovers(s.owns, t, x);
    assert InodeExact(s, x);
  }

  // What a fork that fails late leaves: the references of working directory and root are dropped,
  // those of the open files and of the executable are not.
  function Unforked(s: State, t: nat, files': seq<File>): State
    requires t < |s.owns|
  {
    s.(files := files', inodes := Grab(s.inodes, s.owns[t].exe))
  }

  // Its counts are exact exactly when the parent has no file open and no executable.
  lemma FailedForkKeepsInvIff(s: State, t: nat, files': seq<File>)
    requires Inv(s) && Alive(s, t) && Counted(s.files, s.tasks[t].value, files')
    ensures Inv(Unforked(s, t, files')) <==>
            s.owns[t].exe.None? && forall i: nat :: i < NR_OPEN ==> !s.tasks[t].value[i].Names?
  {
    var fds, r := s.tasks[t].value, Unforked(s, t, files');
    if i: nat :| i < NR_OPEN && fds[i].Names? {
      var f := fds[i].file;
      CountInSet(fds, i, Closed, f);
      assert FdOk(fds[i], |s.files|) && files'[f].count > Total(s.tasks, f);
    } else {
      forall f: nat | f < |files'| ensures files'[f] == s.files[f] {
        NoneCounted(fds, f);
      }
      assert files' == s.files;
      if s.owns[t].exe.Some? {
        var x := s.owns[t].exe.value;
        assert OwnOk(s.owns[t], |s.inodes|) && InodeExact(s, x);
        assert !InodeExact(r, x);
      } else {
        assert r == s;
      }
    }
  }

  lemma {:induction false} NamedAt(fds: seq<Fd>, f: nat) returns (i: nat)
    requires CountIn(fds, f) > 0
    ensures i < |fds| && fds[i] == Names(f)
    decreases |fds|
  {
    var n := |fds| - 1;
    if fds[n] == Names(f) {
      i := n;
    } else {
      i := NamedAt(fds[..n], f);
    }
  }

  lemma {:induction false} SameHolding(a: seq<File>, b: seq<File>, x: nat)
    requires |a| == |b| && forall f :: 0 <= f < |a| ==> Holds(a[f], x) == Holds(b[f], x)
    ensures Holding(a, x) == Holding(b, x)
  {
    if a != [] {
      SameHolding(a[..|a| - 1], b[..|b| - 1], x);
    }
  }

  // ---------------------------------------------------------------------
  // The system calls
  // ---------------------------------------------------------------------

  // The first closed descriptor from i on, NR_OPEN if there is none.
  function FirstClosed(fds: Filp, i: nat): (r: nat)
    requires i <= NR_OPEN
    ensures i <= r <= NR_OPEN && (r < NR_OPEN ==> fds[r].Closed?)
    ensures forall k :: i <= k < r ==> !fds[k].Closed?
    decreases NR_OPEN - i
  {
    if i == NR_OPEN || fds[i].Closed? then i else FirstClosed(fds, i + 1)
  }

  // The first free entry from f on, |files| if there is none.
  function FirstFree(files: seq<File>, f: nat): (r: nat)
    requires f <= |files|
    ensures f <= r <= |files| && (r < |files| ==> files[r].count == 0)
    ensures forall k :: f <= k < r ==> files[k].count != 0
    decreases |files| - f
  {
    if f == |files| || files[f].count == 0 then f else FirstFree(files, f + 1)
  }

  // The first inode slot in no use, |inodes| if there is none.
  function FirstIdle(inodes: seq<Inode>, x: nat): (r: nat)
    requires x <= |inodes|
    ensures x <= r <= |inodes| && (r < |inodes| ==> inodes[r].count == 0)
    decreases |inodes| - x
  {
    if x == |inodes| || inodes[x].count == 0 then x else FirstIdle(inodes, x + 1)
  }

  // The descriptors below n closed one after the other.
  function CloseAll(s: State, t: nat, n: nat): (r: State)
    requires Alive(s, t) && n <= NR_OPEN
    ensures Alive(r, t) && r.owns == s.owns
    ensures forall k: nat :: k < NR_OPEN ==> FdAt(r, t, k) == if k < n then Closed else FdAt(s, t, k)
  {
    if n == 0 then s
    else
      var m := CloseAll(s, t, n - 1);
      var r := CloseOf(m, t, n - 1);
      assert forall k: nat :: k < NR_OPEN ==> FdAt(r, t, k) == if k == n - 1 then Closed else FdAt(m, t, k);
      r
  }

  // iput of one of the task's own, which then has o.
  function PutOf(s: State, t: nat, o: Own, x: Option<nat>): State {
    if t < |s.owns| && x.Some? && x.value < |s.inodes| then Iput(s, x.value).(owns := s.owns[t := o]) else s
  }

  function OwnOf(s: State, t: nat): Own {
    if t < |s.owns| then s.owns[t] else NOTHING
  }

  // sys_exit once every descriptor is closed: working directory, root and executable go.
  function LetGoAll(s: State, t: nat): State {
    var a := PutOf(s, t, OwnOf(s, t).(pwd := None), OwnOf(s, t).pwd);
    var b := PutOf(a, t, OwnOf(a, t).(root := None), OwnOf(a, t).root);
    PutOf(b, t, OwnOf(b, t).(exe := None), OwnOf(b, t).exe)
  }

  lemma LetGoKeepsInv(s: State, t: nat, o: Own, x: nat)
    requires Inv(s) && Alive(s, t) && OwnOk(o, |s.inodes|) && x < |s.inodes|
    requires forall y: nat :: OwnCount(o, y) + One(x == y) == OwnCount(s.owns[t], y)
    ensures Inv(Iput(s, x).(owns := s.owns[t := o]))
  {
    var r := Iput(s, x).(owns := s.owns[t := o]);
    NotOwnedIfPipe(s, t, x);
    assert OwnCount(o, x) + One(x == x) == OwnCount(s.owns[t], x);
    OwnedCovers(s.owns, t, x);
    forall y: nat | y < |r.inodes| ensures InodeExact(r, y) {
      assert InodeExact(s, y);
      OwnedSet(s.owns, t, o, y);
      assert OwnCount(o, y) + One(x == y) == OwnCount(s.owns[t], y);
    }
  }

  class Tables {
    var tasks: seq<Option<Filp>>
    var files: seq<File>
    var inodes: seq<Inode>
    var owns: seq<Own>
    ghost var others: seq<nat>
    ghost var made: multiset<nat>
    ghost var freed: multiset<nat>

    ghost function St(): State
      reads this
    {
      State(tasks, files, inodes, owns, others, made, freed)
    }

    ghost predicate Valid()
      reads this
    {
      Inv(St())
    }

    // The tables at boot: no task yet, and inodes that only others hold.
    constructor (held: seq<nat>)
      ensures Boot(St()) && Valid() && tasks == seq(NR_TASKS, _ => None) && others == held
    {
      tasks := seq(NR_TASKS, _ => None);
      files := seq(NR_FILE, _ => File(0, None));
      inodes := seq(|held|, x requires 0 <= x < |held| => Inode(held[x], false));
      owns := seq(NR_TASKS, _ => NOTHING);
      others, made, freed := held, multiset{}, multiset{};
      new;
      BootInv(St());
    }

    // One reference to entry f is dropped.
    method Drop(f: nat)
      requires f < |files| && files[f].count > 0
      requires files[f].inode.Some? ==> files[f].inode.value < |inodes| && inodes[files[f].inode.value].count > 0
      modifies `files, `inodes, `freed
      ensures St() == old(Release(St(), f))
    {
      files := files[f := files[f].(count := files[f].count - 1)];
      if files[f].count == 0 && files[f].inode.Some? {
        var x := files[f].inode.value;
        var n := inodes[x].count - 1;
        if inodes[x].pipe && n == 0 {
          inodes := inodes[x := Inode(0, false)];
          freed := freed + multiset{x};
        } else {
          inodes := inodes[x := inodes[x].(count := n)];
        }
      }
    }

    method CloseFd(t: nat, i: nat)
      requires Valid() && Alive(St(), t) && i < NR_OPEN
      modifies `tasks, `files, `inodes, `freed
      ensures Valid() && St() == old(CloseOf(St(), t, i))
    {
      CloseKeepsInv(St(), t, i);
      ghost var was := St();
      var x := tasks[t].value[i];
      if x.Names? {
        NamedIsCounted(was, t, i);
        InodeIsCounted(was, x.file);
      }
      hide Inv;
      tasks := tasks[t := Some(tasks[t].value[i := Closed])];
      if x.Names? {
        Drop(x.file);
      }
    }

    // sys_close
    method Close(t: nat, i: nat) returns (ok: bool)
      requires Valid() && Alive(St(), t)
      modifies `tasks, `files, `inodes, `freed
      ensures Valid()
      ensures ok <==> i < NR_OPEN && !old(FdAt(St(), t, i).Closed?)
      ensures !ok ==> St() == old(St())
      ensures ok ==> St() == old(CloseOf(St(), t, i))
    {
      if i >= NR_OPEN || tasks[t].value[i].Closed? {
        return false;
      }
      CloseFd(t, i);
      return true;
    }

    method Share(t: nat, i: nat, x: Fd)
      requires Valid() && Alive(St(), t) && i < NR_OPEN && FdAt(St(), t, i).Closed?
      requires x.Names? ==> x.file < |files| && files[x.file].count > 0
      modifies `tasks, `files
      ensures Valid() && St() == old(ShareOf(St(), t, i, x))
    {
      ShareKeepsInv(St(), t, i, x);
      hide Inv;
      tasks := tasks[t := Some(tasks[t].value[i := x])];
      if x.Names? {
        files := files[x.file := files[x.file].(count := files[x.file].count + 1)];
      }
    }

    method FindClosed(t: nat, from: nat) returns (i: nat)
      requires Alive(St(), t) && from <= NR_OPEN
      ensures i == FirstClosed(tasks[t].value, from)
    {
      i := from;
      while i < NR_OPEN && !tasks[t].value[i].Closed?
        invariant from <= i <= NR_OPEN && FirstClosed(tasks[t].value, from) == FirstClosed(tasks[t].value, i)
      {
        i := i + 1;
      }
    }

    // dup and F_DUPFD: the lowest closed descriptor from `from` on.
    method DupFrom(t: nat, i: nat, from: nat) returns (r: Option<nat>)
      requires Valid() && Alive(St(), t)
      modifies `tasks, `files
      ensures Valid()
      ensures r.Some? <==> i < NR_OPEN && !old(FdAt(St(), t, i)).Closed? && from < NR_OPEN &&
                           FirstClosed(old(tasks[t].value), from) < NR_OPEN
      ensures r.None? ==> St() == old(St())
      ensures r.Some? ==> r.value == FirstClosed(old(tasks[t].value), from) &&
                          FdOk(old(FdAt(St(), t, i)), |old(files)|) &&
                          St() == ShareOf(old(St()), t, r.value, old(FdAt(St(), t, i)))
    {
      if i >= NR_OPEN || tasks[t].value[i].Closed? || from >= NR_OPEN {
        return None;
      }
      var n := FindClosed(t, from);
      if n == NR_OPEN {
        return None;
      }
      if tasks[t].value[i].Names? {
        NamedIsCounted(St(), t, i);
      }
      hide Inv;
      Share(t, n, tasks[t].value[i]);
      return Some(n);
    }

    // sys_dup2
    method Dup2(t: nat, i: nat, n: nat) returns (r: Option<nat>)
      requires Valid() && Alive(St(), t)
      modifies `tasks, `files, `inodes, `freed
      ensures Valid() && Alive(St(), t)
      ensures r == if i < NR_OPEN && !old(FdAt(St(), t, i)).Closed? && n < NR_OPEN then Some(n) else None
      ensures r.None? || i == n ==> St() == old(St())
      ensures r.Some? ==> FdAt(St(), t, n) == FdAt(St(), t, i) == old(FdAt(St(), t, i))
      ensures r.Some? ==> forall k :: 0 <= k < NR_OPEN && k != n ==> FdAt(St(), t, k) == old(FdAt(St(), t, k))
    {
      if i >= NR_OPEN || tasks[t].value[i].Closed? || n >= NR_OPEN {
        return None;
      }
      if i == n {
        return Some(n);
      }
      hide Inv, CloseOf;
      CloseFd(t, n);
      if tasks[t].value[i].Names? {
        NamedIsCounted(St(), t, i);
      }
      Share(t, n, tasks[t].value[i]);
      return Some(n);
    }

    method FindFree(from: nat) returns (f: nat)
      requires from <= |files|
      ensures f == FirstFree(files, from)
    {
      f := from;
      while f < |files| && files[f].count != 0
        invariant from <= f <= |files| && FirstFree(files, from) == FirstFree(files, f)
      {
        f := f + 1;
      }
    }

    method Take(t: nat, i: nat, f: nat, x: Option<nat>)
      requires Valid() && Alive(St(), t) && i < NR_OPEN && FdAt(St(), t, i).Closed?
      requires f < |files| && files[f].count == 0 && (x.Some? ==> x.value < |inodes|)
      modifies `tasks, `files, `inodes
      ensures Valid() && St() == old(TakeOf(St(), t, i, f, x))
    {
      TakeKeepsInv(St(), t, i, f, x);
      hide Inv;
      files := files[f := File(1, x)];
      if x.Some? {
        inodes := inodes[x.value := inodes[x.value].(count := inodes[x.value].count + 1)];
      }
      tasks := tasks[t := Some(tasks[t].value[i := Names(f)])];
    }

    // sys_open once the name is resolved: inode x, or a device.
    method Open(t: nat, x: Option<nat>) returns (r: Option<nat>)
      requires Valid() && Alive(St(), t) && (x.Some? ==> x.value < |inodes|)
      modifies `tasks, `files, `inodes
      ensures Valid()
      ensures r.Some? <==> FirstClosed(old(tasks[t].value), 3) < NR_OPEN && FirstFree(old(files), 0) < NR_FILE
      ensures r.None? ==> St() == old(St())
      ensures r.Some? ==> r.value == FirstClosed(old(tasks[t].value), 3) && FirstFree(old(files), 0) < |old(files)| &&
                          St() == TakeOf(old(St()), t, r.value, FirstFree(old(files), 0), x)
    {
      var i := FindClosed(t, 3);
      if i == NR_OPEN {
        return None;
      }
      var f := FindFree(0);
      if f == NR_FILE {
        return None;
      }
      Take(t, i, f, x);
      return Some(i);
    }

    // sys_pipe; `room` says whether a page is to be had.
    method MakePipe(t: nat, room: bool) returns (r: Option<(nat, nat)>)
      requires Valid() && Alive(St(), t)
      modifies this
      ensures Valid()
      ensures r.None? ==> St() == old(St())
      ensures r.Some? ==>
                var i := FirstClosed(old(tasks[t].value), 3);
                var f, x := FirstFree(old(files), 0), FirstIdle(old(inodes), 0);
                && i < NR_OPEN && f < |old(files)| && x < |old(inodes)|
                && var j, g := FirstClosed(old(tasks[t].value), i + 1), FirstFree(old(files), f + 1);
                && j < NR_OPEN && g < |old(files)| && r.value == (i, j)
                && St() == PipeOf(old(St()), t, i, j, f, g, x) && inodes[x] == Inode(2, true)
    {
      var f := FindFree(0);
      if f == NR_FILE {
        return None;
      }
      var g := FindFree(f + 1);
      if g == NR_FILE {
        return None;
      }
      var i := FindClosed(t, 3);
      if i == NR_OPEN {
        return None;
      }
      var j := FindClosed(t, i + 1);
      if j == NR_OPEN {
        return None;
      }
      var x := FindIdle();
      if x == |inodes| || !room {
        return None;
      }
      hide Inv, PipeOf;
      FillPipe(t, i, j, f, g, x);
      return Some((i, j));
    }

    method FillPipe(t: nat, i: nat, j: nat, f: nat, g: nat, x: nat)
      requires Valid() && Alive(St(), t) && i < NR_OPEN && j < NR_OPEN && f < |files| && g < |files| && x < |inodes|
      requires FdAt(St(), t, i).Closed? && FdAt(St(), t, j).Closed? && i != j
      requires files[f].count == 0 && files[g].count == 0 && f != g && inodes[x].count == 0
      modifies this
      ensures Valid() && St() == old(PipeOf(St(), t, i, j, f, g, x)) && x < |inodes| && inodes[x] == Inode(2, true)
    {
      PipeKeepsInv(St(), t, i, j, f, g, x);
      hide Inv;
      Take(t, i, f, Some(x));
      Take(t, j, g, Some(x));
      inodes := inodes[x := inodes[x].(pipe := true)];
      made := made + multiset{x};
    }

    method FindIdle() returns (x: nat)
      ensures x == FirstIdle(inodes, 0)
    {
      x := 0;
      while x < |inodes| && inodes[x].count != 0
        invariant x <= |inodes| && FirstIdle(inodes, 0) == FirstIdle(inodes, x)
      {
        x := x + 1;
      }
    }

    // The child in slot k shares every open file of task t and holds what it holds.
    // `fits` says whether the child's kernel stack and address space can be made.
    method Fork(t: nat, k: nat, fits: bool)
      requires Valid() && Alive(St(), t) && k < |tasks| && tasks[k].None?
      modifies `tasks, `files, `owns, `inodes
      ensures Valid() <==>
              fits || (old(owns[t]).exe.None? && forall i: nat :: i < NR_OPEN ==> !old(tasks[t]).value[i].Names?)
      ensures Counted(old(files), old(tasks[t]).value, files)
      ensures St() == if fits then Forked(old(St()), t, k, files) else Unforked(old(St()), t, files)
    {
      ghost var was := St();
      var o := owns[t];
      TaskFacts(was, t, k);
      hide Inv;
      CountChild(t, k);
      if fits {
        ForkKeepsInv(was, t, k, files);
      } else {
        UndoChild(k, o, was.inodes);
        assert tasks == was.tasks && owns == was.owns;
        FailedForkKeepsInvIff(was, t, files);
      }
    }

    // Everything the child shares is counted once more.
    method CountChild(t: nat, k: nat)
      requires Alive(St(), t) && k < |tasks| == |owns| && OwnOk(owns[t], |inodes|)
      requires forall i :: 0 <= i < NR_OPEN ==> FdOk(tasks[t].value[i], |files|)
      modifies `tasks, `files, `owns, `inodes
      ensures Counted(old(files), old(tasks[t]).value, files) && St() == Forked(old(St()), t, k, files)
    {
      var fds, o := tasks[t].value, owns[t];
      tasks, owns := tasks[k := tasks[t]], owns[k := o];
      Raise(o.pwd);
      Raise(o.root);
      Raise(o.exe);
      CountAgain(fds);
    }

    // The fail path of sys_fork: slot, working directory and root.
    method UndoChild(k: nat, o: Own, ghost before: seq<Inode>)
      requires k < |tasks| == |owns| && OwnOk(o, |inodes|) && inodes == GrabAll(before, o)
      modifies `tasks, `owns, `inodes
      ensures tasks == old(tasks)[k := None] && owns == old(owns)[k := NOTHING] && inodes == Grab(before, o.exe)
    {
      UngrabLeaves(before, o);
      hide Grab, Ungrab, GrabAll;
      Lower(o.pwd);
      Lower(o.root);
      tasks, owns := tasks[k := None], owns[k := NOTHING];
    }

    // i_count++ and i_count--, without a look at what the count becomes.
    method Raise(x: Option<nat>)
      requires x.Some? ==> x.value < |inodes|
      modifies `inodes
      ensures inodes == Grab(old(inodes), x)
    {
      if x.Some? {
        inodes := inodes[x.value := inodes[x.value].(count := inodes[x.value].count + 1)];
      }
    }

    method Lower(x: Option<nat>)
      requires x.Some? ==> x.value < |inodes| && inodes[x.value].count > 0
      modifies `inodes
      ensures inodes == old(Ungrab(inodes, x))
    {
      if x.Some? {
        inodes := inodes[x.value := inodes[x.value].(count := inodes[x.value].count - 1)];
      }
    }

    method CountAgain(fds: Filp)
      requires forall i :: 0 <= i < NR_OPEN ==> FdOk(fds[i], |files|)
      modifies `files
      ensures Counted(old(files), fds, files)
    {
      assert Counted(files, fds[..0], files);
      for i := 0 to NR_OPEN
        invariant |files| == |old(files)| && Counted(old(files), fds[..i], files)
      {
        assert fds[..i + 1][..i] == fds[..i];
        if fds[i].Names? {
          var f := fds[i].file;
          files := files[f := files[f].(count := files[f].count + 1)];
        }
      }
      assert fds[..NR_OPEN] == fds;
    }

    // sys_exit closes everything and lets go of what the task holds.
    method Exit(t: nat)
      requires Valid() && Alive(St(), t)
      modifies `tasks, `files, `inodes, `owns, `freed
      ensures Valid() && Alive(St(), t) && St() == old(LetGoAll(CloseAll(St(), t, NR_OPEN), t))
      ensures t < |owns| && owns[t] == NOTHING
    {
      CloseEverything(t);
      LetEverythingGo(t);
    }

    method LetEverythingGo(t: nat)
      requires Valid() && Alive(St(), t) && t < |owns|
      modifies `inodes, `owns, `freed
      ensures Valid() && Alive(St(), t) && St() == old(LetGoAll(St(), t))
      ensures t < |owns| && owns[t] == NOTHING
    {
      hide Inv;
      PutInode(t, owns[t].(pwd := None), owns[t].pwd);
      PutInode(t, owns[t].(root := None), owns[t].root);
      PutInode(t, owns[t].(exe := None), owns[t].exe);
    }

    method CloseEverything(t: nat)
      requires Valid() && Alive(St(), t)
      modifies `tasks, `files, `inodes, `freed
      ensures Valid() && Alive(St(), t) && St() == old(CloseAll(St(), t, NR_OPEN)) && owns == old(owns)
    {
      hide Inv, CloseOf;
      ghost var was := St();
      for i := 0 to NR_OPEN
        invariant Valid() && Alive(St(), t) && St() == CloseAll(was, t, i)
      {
        if !tasks[t].value[i].Closed? {
          CloseFd(t, i);
        } else {
          CloseClosed(St(), t, i);
        }
      }
    }

    // iput of one of the task's own, if there is one, which then has o.
    method PutInode(t: nat, o: Own, x: Option<nat>)
      requires Valid() && Alive(St(), t) && t < |owns|
      requires forall y: nat :: OwnCount(o, y) + One(x == Some(y)) == OwnCount(owns[t], y)
      modifies `inodes, `owns, `freed
      ensures Valid() && Alive(St(), t) && t < |owns| && St() == old(PutOf(St(), t, o, x))
      ensures x.None? || owns == old(owns)[t := o]
    {
      if x.None? {
        return;
      }
      OwnInRange(St(), t, o, x.value);
      LetGoKeepsInv(St(), t, o, x.value);
      HeldCount(St(), t, x.value);
      hide Inv;
      var n := inodes[x.value].count - 1;
      if inodes[x.value].pipe && n == 0 {
        inodes := inodes[x.value := Inode(0, false)];
        freed := freed + multiset{x.value};
      } else {
        inodes := inodes[x.value := inodes[x.value].(count := n)];
      }
      owns := owns[t := o];
    }
  }

  lemma OwnInRange(s: State, t: nat, o: Own, x: nat)
    requires Inv(s) && t < |s.owns|
    requires forall y: nat :: OwnCount(o, y) + One(x == y) == OwnCount(s.owns[t], y)
    ensures x < |s.inodes| && OwnOk(o, |s.inodes|)
  {
    var w := s.owns[t];
    assert OwnOk(w, |s.inodes|);
    assert OwnCount(o, x) + One(x == x) == OwnCount(w, x);
    if o.pwd.Some? {
      assert OwnCount(o, o.pwd.value) + One(x == o.pwd.value) == OwnCount(w, o.pwd.value);
    }
    if o.root.Some? {
      assert OwnCount(o, o.root.value) + One(x == o.root.value) == OwnCount(w, o.root.value);
    }
    if o.exe.Some? {
      assert OwnCount(o, o.exe.value) + One(x == o.exe.value) == OwnCount(w, o.exe.value);
    }
  }

  lemma TaskFacts(s: State, t: nat, k: nat)
    requires Inv(s) && Alive(s, t) && k < |s.tasks| && s.tasks[k].None?
    ensures |s.owns| == |s.tasks| && s.owns[k] == NOTHING && OwnOk(s.owns[t], |s.inodes|)
    ensures forall i :: 0 <= i < NR_OPEN ==> FdOk(s.tasks[t].value[i], |s.files|)
  {
  }

  // An inode a task holds is counted.
  lemma HeldCount(s: State, t: nat, x: nat)
    requires Inv(s) && t < |s.owns| && x < |s.inodes|
    ensures s.inodes[x].count >= OwnCount(s.owns[t], x)
  {
    OwnedCovers(s.owns, t, x);
    assert InodeExact(s, x);
  }

  lemma InodeIsCounted(s: State, f: nat)
    requires Inv(s) && f < |s.files|
    ensures s.files[f].count > 0 && s.files[f].inode.Some? ==>
              s.files[f].inode.value < |s.inodes| && s.inodes[s.files[f].inode.value].count > 0
  {
    if s.files[f].count > 0 && s.files[f].inode.Some? {
      var x := s.files[f].inode.value;
      assert InodeExact(s, x);
      HoldingPositive(s.files, f, x);
    }
  }

  lemma {:induction false} HoldingPositive(files: seq<File>, f: nat, x: nat)
    requires f < |files| && Holds(files[f], x)
    ensures Holding(files, x) > 0
    decreases |files|
  {
    if f < |files| - 1 {
      HoldingPositive(files[..|files| - 1], f, x);
    }
  }

  lemma CloseClosed(s: State, t: nat, i: nat)
    requires Alive(s, t) && i < NR_OPEN && FdAt(s, t, i).Closed?
    ensures CloseOf(s, t, i) == s
  {
    assert s.tasks[t].value[i := Closed] == s.tasks[t].value;
    assert SetFd(s.tasks, t, i, Closed) == s.tasks;
  }

  // ---------------------------------------------------------------------
  // What exact counts mean
  // ---------------------------------------------------------------------

  ghost predicate Named(s: State, f: nat) {
    exists t: nat, i: nat :: Alive(s, t) && i < NR_OPEN && FdAt(s, t, i) == Names(f)
  }

  // An entry is free, and so can be given out, exactly when no descriptor of any task names it.
  lemma FreeIffUnnamed(s: State, f: nat)
    requires Inv(s) && f < NR_FILE
    ensures s.files[f].count == 0 <==> !Named(s, f)
  {
    if Named(s, f) {
      var t: nat, i: nat :| Alive(s, t) && i < NR_OPEN && FdAt(s, t, i) == Names(f);
      TotalPositive(s.tasks, t, i, f);
    }
    if s.files[f].count > 0 {
      var t, i := NamedBySome(s.tasks, f);
      assert FdAt(s, t, i) == Names(f);
    }
  }

  lemma {:induction false} NamedBySome(tasks: seq<Option<Filp>>, f: nat) returns (t: nat, i: nat)
    requires Total(tasks, f) > 0
    ensures t < |tasks| && tasks[t].Some? && i < NR_OPEN && tasks[t].value[i] == Names(f)
    decreases |tasks|
  {
    t := |tasks| - 1;
    if InTask(tasks[t], f) > 0 {
      i := NamedAt(tasks[t].value, f);
    } else {
      t, i := NamedBySome(tasks[..t], f);
    }
  }

  // A pipe's page is out exactly while a descriptor of some task names one of its ends: it was
  // given back once for every time it was handed out, less the one that is out.
  lemma PageOutIffNamed(s: State, x: nat)
    requires Inv(s) && x < |s.inodes| && s.others[x] == 0 && (s.inodes[x].pipe || s.inodes[x].count == 0)
    ensures s.made[x] == s.freed[x] + 1 <==>
            exists f: nat :: f < NR_FILE && s.files[f].inode == Some(x) && Named(s, f)
    ensures s.made[x] == s.freed[x] || s.made[x] == s.freed[x] + 1
  {
    assert InodeExact(s, x);
    if s.inodes[x].pipe {
      var f := HolderOf(s.files, x);
      FreeIffUnnamed(s, f);
    }
    if f: nat :| f < NR_FILE && s.files[f].inode == Some(x) && Named(s, f) {
      FreeIffUnnamed(s, f);
      HoldingPositive(s.files, f, x);
    }
  }

  lemma {:induction false} HolderOf(files: seq<File>, x: nat) returns (f: nat)
    requires Holding(files, x) > 0
    ensures f < |files| && Holds(files[f], x)
    decreases |files|
  {
    f := |files| - 1;
    if !Holds(files[f], x) {
      f := HolderOf(files[..f], x);
    }
  }
}
