/** The buffer cache (fs/buffer.c) and the write-back of inodes through it (fs/inode.c):
    256 buffer heads on one ring and 256 hash chains, over a disk of 1024-byte blocks.
    Heads are numbered 0..255; a link is a number, NULL is None.  All blocks belong to one
    device.  `ok` says whether the disk performs the transfers of a call; a transfer that
    fails leaves the disk as it was. */
module BufferCache {
  import opened Layout
  import opened Links

  const NR_BUFFERS: nat := 256
  const BLOCK_SIZE: nat := 1024

  // The device; 0 marks a head that never held a block.
  const DEV: nat := 0x301

  type Block = b: seq<Byte> | |b| == BLOCK_SIZE witness seq(BLOCK_SIZE, _ => 0)

  function ZeroBlock(): (b: Block)
    ensures forall k :: 0 <= k < BLOCK_SIZE ==> b[k] == 0
  {
    seq(BLOCK_SIZE, _ => 0)
  }

  type Disk = map<nat, Block>

  // A block the disk was never given is blank.
  function DiskAt(disk: Disk, b: nat): Block {
    if b in disk then disk[b] else ZeroBlock()
  }

  datatype Buf = Buf(dev: nat, block: nat, uptodate: bool, dirt: bool, count: nat, data: Block)

  // The heads as buffer_init leaves them.
  function FreshHeads(): (s: seq<Buf>)
    ensures |s| == NR_BUFFERS
  {
    seq(NR_BUFFERS, _ => Buf(0, 0, false, false, 0, ZeroBlock()))
  }

  type Bufs = s: seq<Buf> | |s| == NR_BUFFERS witness FreshHeads()

  // The low `bits` bits of a ^ b.
  function XorLow(a: nat, b: nat, bits: nat): (r: nat)
    ensures r < Pow2(bits)
  {
    if bits == 0 then 0
    else (if a % 2 == b % 2 then 0 else 1) + 2 * XorLow(a / 2, b / 2, bits - 1)
  }

  function Pow2(n: nat): (r: nat)
    ensures r > 0
  {
    if n == 0 then 1 else 2 * Pow2(n - 1)
  }

  // (dev ^ block) & (NR_BUFFERS - 1)
  function Hash(dev: nat, block: nat): (r: nat)
    ensures r < NR_BUFFERS
  {
    assert Pow2(8) == NR_BUFFERS by {
      assert Pow2(2) == 4;
      assert Pow2(4) == 16;
      assert Pow2(6) == 64;
    }
    XorLow(dev, block, 8)
  }

  // ---------------------------------------------------------------------
  // The hash chains
  // ---------------------------------------------------------------------

  predicate Holds(b: Buf, block: nat) {
    b.dev == DEV && b.block == block
  }

  // Head i belongs on chain h.
  predicate Belongs(heads: Bufs, i: nat, h: nat) {
    i < NR_BUFFERS && heads[i].dev == DEV && Hash(DEV, heads[i].block) == h
  }

  // Every chain is a proper list of exactly the heads that hash to it.
  ghost predicate Chained(heads: Bufs, next: seq<Option<nat>>, prev: seq<Option<nat>>,
                          hash: seq<Option<nat>>, chains: seq<seq<nat>>)
  {
    && |next| == |prev| == |hash| == |chains| == NR_BUFFERS
    && (forall h: nat :: h < NR_BUFFERS ==> Spells(next, prev, chains[h]) && hash[h] == First(chains[h]))
    && (forall h: nat, i: nat :: h < NR_BUFFERS ==> (i in chains[h] <==> Belongs(heads, i, h)))
  }

  // A head that never held a block is on no chain and has no links.
  predicate Blank(b: Buf, next: Option<nat>, prev: Option<nat>) {
    b.dev != DEV ==> b.dev == 0 && b.block == 0 && !b.dirt && next == None && prev == None
  }

  ghost predicate Blanks(heads: Bufs, next: seq<Option<nat>>, prev: seq<Option<nat>>) {
    |next| == |prev| == NR_BUFFERS && forall i :: 0 <= i < NR_BUFFERS ==> Blank(heads[i], next[i], prev[i])
  }

  ghost predicate BlanksBut(heads: Bufs, next: seq<Option<nat>>, prev: seq<Option<nat>>, b: nat) {
    |next| == |prev| == NR_BUFFERS && forall i :: 0 <= i < NR_BUFFERS && i != b ==> Blank(heads[i], next[i], prev[i])
  }

  // No block is held twice.
  predicate Unique(heads: Bufs) {
    forall i, j :: 0 <= i < j < NR_BUFFERS && heads[i].dev == DEV && heads[j].dev == DEV ==>
      heads[i].block != heads[j].block
  }

  function UnlinkHash(heads: Bufs, next: seq<Option<nat>>, prev: seq<Option<nat>>,
                      hash: seq<Option<nat>>, b: nat): seq<Option<nat>>
    requires b < NR_BUFFERS == |next| == |prev| == |hash|
  {
    var h := Hash(heads[b].dev, heads[b].block);
    if prev[b].None? && hash[h] == Some(b) then hash[h := next[b]] else hash
  }

  function Position(c: seq<nat>, b: nat): (i: nat)
    requires b in c
    ensures i < |c| && c[i] == b
  {
    if c[0] == b then 0 else 1 + Position(c[1..], b)
  }

  ghost function Removed(heads: Bufs, chains: seq<seq<nat>>, b: nat): (r: seq<seq<nat>>)
    requires b < NR_BUFFERS == |chains|
    requires heads[b].dev == DEV ==> b in chains[Hash(DEV, heads[b].block)]
    ensures |r| == |chains|
  {
    if heads[b].dev != DEV then chains
    else
      var h := Hash(DEV, heads[b].block);
      chains[h := Without(chains[h], Position(chains[h], b))]
  }

  // Taking a head off its chain leaves every other head on its chain.
  lemma Detach(heads: Bufs, next: seq<Option<nat>>, prev: seq<Option<nat>>,
               hash: seq<Option<nat>>, chains: seq<seq<nat>>, b: nat)
    requires Chained(heads, next, prev, hash, chains) && Blanks(heads, next, prev) && b < NR_BUFFERS
    ensures heads[b].dev == DEV ==> b in chains[Hash(DEV, heads[b].block)]
    ensures Chained(heads[b := heads[b].(dev := 0)], UnlinkNext(next, prev, b), UnlinkPrev(next, prev, b),
                    UnlinkHash(heads, next, prev, hash, b), Removed(heads, chains, b))
  {
    var h := Hash(heads[b].dev, heads[b].block);
    var heads', chains' := heads[b := heads[b].(dev := 0)], Removed(heads, chains, b);
    var n, p, hs := UnlinkNext(next, prev, b), UnlinkPrev(next, prev, b), UnlinkHash(heads, next, prev, hash, b);
    if heads[b].dev == DEV {
      assert Belongs(heads, b, h);
      var c := chains[h];
      var k := Position(c, b);
      WithoutMembers(c, k);
      UnlinkSpells(next, prev, c, k);
      assert Joined(next, prev, c, k);
      assert hs[h] == First(chains'[h]);
      forall g: nat | g < NR_BUFFERS && g != h
        ensures Spells(n, p, chains'[g]) && hs[g] == First(chains'[g])
      {
        assert forall x :: x in c && x in chains[g] ==> Belongs(heads, x, h) && Belongs(heads, x, g);
        UnlinkElsewhere(next, prev, c, k, chains[g]);
      }
      forall g: nat, i: nat | g < NR_BUFFERS ensures i in chains'[g] <==> Belongs(heads', i, g) {
        assert i in chains[g] <==> Belongs(heads, i, g);
      }
    } else {
      assert b in chains[h] <==> Belongs(heads, b, h);
      assert n == next && p == prev && hs == hash && chains' == chains;
      forall g: nat, i: nat | g < NR_BUFFERS ensures i in chains'[g] <==> Belongs(heads', i, g) {
        assert i in chains[g] <==> Belongs(heads, i, g);
      }
    }
  }

  // Putting a detached head in front of the chain of its new block.
  lemma Attach(heads: Bufs, next: seq<Option<nat>>, prev: seq<Option<nat>>,
               hash: seq<Option<nat>>, chains: seq<seq<nat>>, b: nat, buf: Buf)
    requires Chained(heads, next, prev, hash, chains) && b < NR_BUFFERS
    requires heads[b].dev != DEV && buf.dev == DEV
    ensures var h := Hash(DEV, buf.block);
            Chained(heads[b := buf], PushNext(next, b, hash[h]), PushPrev(prev, b, hash[h]),
                    hash[h := Some(b)], chains[h := [b] + chains[h]])
  {
    var h := Hash(DEV, buf.block);
    var c := chains[h];
    var n, p := PushNext(next, b, hash[h]), PushPrev(prev, b, hash[h]);
    assert forall g: nat :: g < NR_BUFFERS ==> (b in chains[g] <==> Belongs(heads, b, g));
    PushSpells(next, prev, c, b);
    forall g: nat | g < NR_BUFFERS && g != h ensures Spells(n, p, chains[g]) {
      assert forall x :: x in c && x in chains[g] ==> Belongs(heads, x, h) && Belongs(heads, x, g);
      PushElsewhere(next, prev, c, b, chains[g]);
    }
    var chains' := chains[h := [b] + c];
    forall g: nat, i: nat | g < NR_BUFFERS ensures i in chains'[g] <==> Belongs(heads[b := buf], i, g) {
      assert i in chains[g] <==> Belongs(heads, i, g);
    }
  }

  // The surgery touches no other blank head.
  lemma DetachBlanks(heads: Bufs, next: seq<Option<nat>>, prev: seq<Option<nat>>,
                     hash: seq<Option<nat>>, chains: seq<seq<nat>>, b: nat)
    requires Chained(heads, next, prev, hash, chains) && Blanks(heads, next, prev) && b < NR_BUFFERS
    ensures BlanksBut(heads, UnlinkNext(next, prev, b), UnlinkPrev(next, prev, b), b)
  {
    if heads[b].dev == DEV {
      var h := Hash(DEV, heads[b].block);
      assert Belongs(heads, b, h);
      var c := chains[h];
      var k := Position(c, b);
      assert Joined(next, prev, c, k);
      assert forall m :: 0 <= m < |c| ==> c[m] in c && Belongs(heads, c[m], h);
    }
  }

  lemma LinksInRange(heads: Bufs, next: seq<Option<nat>>, prev: seq<Option<nat>>,
                     hash: seq<Option<nat>>, chains: seq<seq<nat>>, b: nat)
    requires Chained(heads, next, prev, hash, chains) && Blanks(heads, next, prev) && b < NR_BUFFERS
    ensures next[b].Some? ==> next[b].value < NR_BUFFERS
    ensures prev[b].Some? ==> prev[b].value < NR_BUFFERS && prev[b].value != b
  {
    if heads[b].dev == DEV {
      var h := Hash(DEV, heads[b].block);
      assert Belongs(heads, b, h);
      var k := Position(chains[h], b);
      assert Joined(next, prev, chains[h], k);
    }
  }

  lemma AttachBlanks(heads: Bufs, next: seq<Option<nat>>, prev: seq<Option<nat>>,
                     hash: seq<Option<nat>>, chains: seq<seq<nat>>, b: nat, buf: Buf)
    requires Chained(heads, next, prev, hash, chains) && BlanksBut(heads, next, prev, b) && b < NR_BUFFERS
    requires buf.dev == DEV
    ensures var h := Hash(DEV, buf.block);
            Blanks(heads[b := buf], PushNext(next, b, hash[h]), PushPrev(prev, b, hash[h]))
  {
    var h := Hash(DEV, buf.block);
    var c := chains[h];
    assert Spells(next, prev, c);
    assert c != [] ==> c[0] in c && Belongs(heads, c[0], h);
  }

  // Changes of a head that leave its block alone leave the chains alone.
  lemma SameBlockKeepsChains(heads: Bufs, next: seq<Option<nat>>, prev: seq<Option<nat>>,
                             hash: seq<Option<nat>>, chains: seq<seq<nat>>, b: nat, buf: Buf)
    requires Chained(heads, next, prev, hash, chains) && b < NR_BUFFERS
    requires buf.dev == heads[b].dev && buf.block == heads[b].block
    ensures Chained(heads[b := buf], next, prev, hash, chains)
  {
    forall h: nat, i: nat | h < NR_BUFFERS ensures i in chains[h] <==> Belongs(heads[b := buf], i, h) {
      assert i in chains[h] <==> Belongs(heads, i, h);
    }
  }

  // ---------------------------------------------------------------------
  // The contents
  // ---------------------------------------------------------------------

  // What every block of the device holds, as readers and writers see it.
  type Contents = imap<nat, Block>

  predicate Cached(heads: Bufs, block: nat) {
    exists i :: 0 <= i < NR_BUFFERS && Holds(heads[i], block)
  }

  ghost predicate BufAgrees(b: Buf, disk: Disk, logical: Contents) {
    b.dev == DEV && b.block in logical ==>
      && (b.uptodate ==> b.data == logical[b.block])
      && (!b.uptodate ==> !b.dirt)
      && (!b.dirt ==> DiskAt(disk, b.block) == logical[b.block])
  }

  // An up-to-date buffer has its block's contents; a clean or absent one leaves them to the disk.
  ghost predicate Agrees(heads: Bufs, disk: Disk, logical: Contents) {
    && (forall block: nat :: block in logical)
    && (forall i :: 0 <= i < NR_BUFFERS ==> BufAgrees(heads[i], disk, logical))
    && (forall block: nat :: !Cached(heads, block) ==> DiskAt(disk, block) == logical[block])
  }

  predicate AllClean(heads: Bufs) {
    forall i :: 0 <= i < NR_BUFFERS ==> !heads[i].dirt
  }

  // Once no buffer is dirty the disk has everything.
  lemma CleanMeansOnDisk(heads: Bufs, disk: Disk, logical: Contents)
    requires Agrees(heads, disk, logical) && AllClean(heads)
    ensures forall block: nat :: DiskAt(disk, block) == logical[block]
  {
    forall block: nat ensures DiskAt(disk, block) == logical[block] {
      if Cached(heads, block) {
        var i :| 0 <= i < NR_BUFFERS && Holds(heads[i], block);
        assert BufAgrees(heads[i], disk, logical);
      }
    }
  }

  // Replacing one head that keeps its block changes the contents of that block alone.
  lemma SameBlockAgrees(heads: Bufs, disk: Disk, diskAfter: Disk,
                        logical: Contents, logicalAfter: Contents, b: nat, buf: Buf)
    requires Agrees(heads, disk, logical) && Unique(heads) && b < NR_BUFFERS
    requires buf.dev == heads[b].dev && buf.block == heads[b].block
    requires forall x: nat :: x in logicalAfter
    requires forall x: nat :: !Holds(heads[b], x) ==>
               DiskAt(diskAfter, x) == DiskAt(disk, x) && logicalAfter[x] == logical[x]
    requires BufAgrees(buf, diskAfter, logicalAfter)
    ensures Agrees(heads[b := buf], diskAfter, logicalAfter) && Unique(heads[b := buf])
  {
    var heads' := heads[b := buf];
    forall i | 0 <= i < NR_BUFFERS ensures BufAgrees(heads'[i], diskAfter, logicalAfter) {
      assert BufAgrees(heads[i], disk, logical);
      assert i != b ==> heads'[i] == heads[i] && !(heads[i].dev == DEV && Holds(heads[b], heads[i].block));
    }
    forall x: nat | Cached(heads, x) ensures Cached(heads', x) {
      var i :| 0 <= i < NR_BUFFERS && Holds(heads[i], x);
      assert Holds(heads'[i], x);
    }
    assert forall x: nat :: Holds(heads[b], x) ==> Cached(heads, x);
  }

  // Giving a clean head to another block loses nothing.
  lemma RelabelAgrees(heads: Bufs, disk: Disk, logical: Contents, b: nat, buf: Buf)
    requires Agrees(heads, disk, logical) && Unique(heads) && b < NR_BUFFERS
    requires !heads[b].dirt && !buf.uptodate && !buf.dirt && buf.dev == DEV
    requires !Cached(heads, buf.block)
    ensures Agrees(heads[b := buf], disk, logical) && Unique(heads[b := buf])
  {
    var heads' := heads[b := buf];
    forall i, j | 0 <= i < j < NR_BUFFERS && heads'[i].dev == DEV && heads'[j].dev == DEV
      ensures heads'[i].block != heads'[j].block
    {
      assert !Holds(heads[i], buf.block) && !Holds(heads[j], buf.block);
    }
    assert BufAgrees(heads[b], disk, logical);
    forall x: nat | Cached(heads, x) && !Holds(heads[b], x) ensures Cached(heads', x) {
      var i :| 0 <= i < NR_BUFFERS && Holds(heads[i], x);
      assert Holds(heads'[i], x);
    }
  }

  // ---------------------------------------------------------------------
  // The choice of a buffer to recycle
  // ---------------------------------------------------------------------

  // The first idle head from the head of the ring on.
  function FirstIdle(heads: Bufs, ring: seq<nat>): (r: Option<nat>)
    requires Within(ring, NR_BUFFERS)
    ensures r.Some? ==> r.value in ring && heads[r.value].count == 0
    ensures r.None? ==> forall i :: 0 <= i < |ring| ==> heads[ring[i]].count > 0
  {
    if ring == [] then None
    else if heads[ring[0]].count == 0 then Some(ring[0])
    else
      var r := FirstIdle(heads, ring[1..]);
      assert r.None? ==> forall i :: 0 < i < |ring| ==> heads[ring[i]].count > 0 by {
        assert r.None? ==> forall i :: 0 < i < |ring| ==> ring[i] == ring[1..][i - 1];
      }
      r
  }

  lemma {:induction false} FirstIdleAt(heads: Bufs, ring: seq<nat>, k: nat)
    requires Within(ring, NR_BUFFERS) && k < |ring|
    requires forall i :: 0 <= i < k ==> heads[ring[i]].count > 0
    requires heads[ring[k]].count == 0
    ensures FirstIdle(heads, ring) == Some(ring[k])
  {
    if k > 0 {
      FirstIdleAt(heads, ring[1..], k - 1);
    }
  }

  // Forgetting what a head holds leaves its block with what the disk has.
  lemma ForgetAgrees(heads: Bufs, disk: Disk, logical: Contents, b: nat)
    requires Agrees(heads, disk, logical) && Unique(heads) && b < NR_BUFFERS && heads[b].dev == DEV
    ensures var heads' := heads[b := heads[b].(uptodate := false, dirt := false)];
            var block := heads[b].block;
            Agrees(heads', disk, logical[block := DiskAt(disk, block)]) && Unique(heads')
  {
    var block := heads[b].block;
    SameBlockAgrees(heads, disk, disk, logical, logical[block := DiskAt(disk, block)], b,
                    heads[b].(uptodate := false, dirt := false));
  }

  // The contents a recycled head leaves behind.
  ghost function Left(heads: Bufs, disk: Disk, logical: Contents, b: nat, ok: bool): (r: Contents)
    requires b < NR_BUFFERS
  {
    if heads[b].dirt && !ok then logical[heads[b].block := DiskAt(disk, heads[b].block)] else logical
  }

  // Relabelling a head forgets what it had not written.
  lemma RelabelContents(heads: Bufs, disk: Disk, logical: Contents, b: nat, buf: Buf)
    requires Agrees(heads, disk, logical) && Unique(heads) && b < NR_BUFFERS && !Cached(heads, buf.block)
    requires (heads[b].dirt ==> heads[b].dev == DEV) && buf.dev == DEV && !buf.uptodate && !buf.dirt
    ensures Agrees(heads[b := buf], disk, Left(heads, disk, logical, b, false)) && Unique(heads[b := buf])
  {
    if heads[b].dirt {
      ForgetAgrees(heads, disk, logical, b);
      var clean := heads[b := heads[b].(uptodate := false, dirt := false)];
      assert forall i :: 0 <= i < NR_BUFFERS ==> Holds(clean[i], buf.block) == Holds(heads[i], buf.block);
      RelabelAgrees(clean, disk, Left(heads, disk, logical, b, false), b, buf);
      assert clean[b := buf] == heads[b := buf];
    } else {
      RelabelAgrees(heads, disk, logical, b, buf);
    }
  }

  // ---------------------------------------------------------------------
  // Inodes in their blocks
  // ---------------------------------------------------------------------

  const DINODE_SIZE: nat := 32

  // BLOCK_SIZE / DINODE_SIZE
  const PER_BLOCK: nat := 32

  // The 32 bytes an inode has on disk.
  type Dinode = d: seq<Byte> | |d| == DINODE_SIZE witness seq(DINODE_SIZE, _ => 0)

  datatype INode = INode(dev: nat, num: nat, dirt: bool, body: Dinode)

  // `start` is the first block of the inode table.
  function InodeBlock(start: nat, num: nat): nat
    requires num > 0
  {
    start + (num - 1) / PER_BLOCK
  }

  function InodeOffset(num: nat): (r: nat)
    requires num > 0
    ensures r + DINODE_SIZE <= BLOCK_SIZE
  {
    (num - 1) % PER_BLOCK * DINODE_SIZE
  }

  function Splice(b: Block, offset: nat, body: Dinode): (r: Block)
    requires offset + DINODE_SIZE <= BLOCK_SIZE
    ensures r[offset..offset + DINODE_SIZE] == body
    ensures forall k :: 0 <= k < BLOCK_SIZE && !(offset <= k < offset + DINODE_SIZE) ==> r[k] == b[k]
  {
    b[..offset] + body + b[offset + DINODE_SIZE..]
  }

  ghost predicate Total(logical: Contents) {
    forall block: nat :: block in logical
  }

  // The bytes the device holds for inode `num`.
  ghost function OnDevice(logical: Contents, start: nat, num: nat): Dinode
    requires Total(logical) && num > 0
  {
    logical[InodeBlock(start, num)][InodeOffset(num)..InodeOffset(num) + DINODE_SIZE]
  }

  predicate NeedsWrite(inode: INode) {
    inode.dev == DEV && inode.dirt
  }

  // The contents after write_inode.
  ghost function WithInode(logical: Contents, start: nat, inode: INode): (r: Contents)
    requires Total(logical) && inode.num > 0
    ensures Total(r)
  {
    var block := InodeBlock(start, inode.num);
    if NeedsWrite(inode)
    then logical[block := Splice(logical[block], InodeOffset(inode.num), inode.body)]
    else logical
  }

  predicate Numbered(inodes: seq<INode>) {
    forall i :: 0 <= i < |inodes| ==> inodes[i].num > 0
  }

  // The contents after the first n entries of the inode table have been written.
  ghost function WithInodes(logical: Contents, start: nat, inodes: seq<INode>, n: nat): (r: Contents)
    requires Total(logical) && Numbered(inodes) && n <= |inodes|
    ensures Total(r)
  {
    if n == 0 then logical else WithInode(WithInodes(logical, start, inodes, n - 1), start, inodes[n - 1])
  }

  // Writing one inode leaves every other inode's bytes alone.
  lemma WithInodeElsewhere(logical: Contents, start: nat, inode: INode, num: nat)
    requires Total(logical) && inode.num > 0 && num > 0 && num != inode.num
    ensures OnDevice(WithInode(logical, start, inode), start, num) == OnDevice(logical, start, num)
  {
    SlotsApart(num - 1, inode.num - 1);
  }

  // Two inodes of one block are at least one slot apart.
  lemma SlotsApart(a: nat, b: nat)
    requires a != b
    ensures a / PER_BLOCK == b / PER_BLOCK ==>
              a % PER_BLOCK * DINODE_SIZE + DINODE_SIZE <= b % PER_BLOCK * DINODE_SIZE ||
              b % PER_BLOCK * DINODE_SIZE + DINODE_SIZE <= a % PER_BLOCK * DINODE_SIZE
  {
    assert a == a / PER_BLOCK * PER_BLOCK + a % PER_BLOCK;
    assert b == b / PER_BLOCK * PER_BLOCK + b % PER_BLOCK;
  }

  // Every inode that was dirty is on the device afterwards, and every other one is as it was,
  // however many share a block.
  lemma {:induction false} WithInodesDelivers(logical: Contents, start: nat, inodes: seq<INode>, n: nat, num: nat)
    requires Total(logical) && Numbered(inodes) && n <= |inodes| && num > 0
    requires forall i, j :: 0 <= i < j < |inodes| && NeedsWrite(inodes[i]) && NeedsWrite(inodes[j]) ==>
               inodes[i].num != inodes[j].num
    ensures forall i :: 0 <= i < n && NeedsWrite(inodes[i]) && inodes[i].num == num ==>
              OnDevice(WithInodes(logical, start, inodes, n), start, num) == inodes[i].body
    ensures (forall i :: 0 <= i < n && NeedsWrite(inodes[i]) ==> inodes[i].num != num) ==>
              OnDevice(WithInodes(logical, start, inodes, n), start, num) == OnDevice(logical, start, num)
  {
    if n > 0 {
      WithInodesDelivers(logical, start, inodes, n - 1, num);
      var before := WithInodes(logical, start, inodes, n - 1);
      if inodes[n - 1].num != num {
        WithInodeElsewhere(before, start, inodes[n - 1], num);
      }
    }
  }

  predicate SomeIdle(heads: Bufs) {
    exists i :: 0 <= i < NR_BUFFERS && heads[i].count == 0
  }

  // Every head is in use as often as before.
  predicate SameCounts(a: Bufs, b: Bufs) {
    forall i :: 0 <= i < NR_BUFFERS ==> a[i].count == b[i].count
  }

  // The inodes of a table are as before but for dirty marks taken off.
  predicate Cleaned(r: seq<INode>, table: seq<INode>) {
    |r| <= |table| && forall i :: 0 <= i < |r| ==> r[i] == table[i] || r[i] == table[i].(dirt := false)
  }

  predicate NoneNeedsWrite(r: seq<INode>) {
    forall i :: 0 <= i < |r| ==> !NeedsWrite(r[i])
  }

  // After the inodes of r have been written, starting from the heads h0 and the contents l0.
  ghost predicate SyncedTo(h0: Bufs, l0: Contents, start: nat, table: seq<INode>, ok: bool,
                           r: seq<INode>, heads: Bufs, logical: Contents)
    requires Total(l0) && Numbered(table)
  {
    && Cleaned(r, table) && SameCounts(heads, h0)
    && (ok && SomeIdle(h0) ==> NoneNeedsWrite(r) && logical == WithInodes(l0, start, table, |r|))
    && (ok && AllClean(h0) ==> AllClean(heads))
  }

  lemma SyncStarts(h0: Bufs, l0: Contents, start: nat, table: seq<INode>, ok: bool)
    requires Total(l0) && Numbered(table)
    ensures SyncedTo(h0, l0, start, table, ok, [], h0, l0)
  {
  }

  lemma IdleStill(h0: Bufs, l0: Contents, start: nat, table: seq<INode>, ok: bool,
                  r: seq<INode>, heads: Bufs, logical: Contents)
    requires Total(l0) && Numbered(table) && SyncedTo(h0, l0, start, table, ok, r, heads, logical)
    ensures SomeIdle(h0) ==> SomeIdle(heads)
    ensures ok && AllClean(h0) ==> AllClean(heads)
  {
    SameCountsIdle(heads, h0);
  }

  lemma SyncedMore(h0: Bufs, l0: Contents, start: nat, table: seq<INode>, ok: bool,
                   r: seq<INode>, h: Bufs, l: Contents, inode: INode, heads: Bufs, logical: Contents)
    requires Total(l0) && Numbered(table) && SyncedTo(h0, l0, start, table, ok, r, h, l) && |r| < |table|
    requires SameCounts(heads, h) && (inode == table[|r|] || inode == table[|r|].(dirt := false))
    requires ok && SomeIdle(h) ==> !NeedsWrite(inode) && Total(l) && logical == WithInode(l, start, table[|r|])
    requires ok && AllClean(h) ==> AllClean(heads)
    ensures SyncedTo(h0, l0, start, table, ok, r + [inode], heads, logical)
  {
    SameCountsIdle(h, h0);
    SameCountsTwice(heads, h, h0);
    hide SameCounts, SomeIdle, AllClean, WithInode, NeedsWrite;
    assert forall i :: 0 <= i < |r| ==> (r + [inode])[i] == r[i];
  }

  lemma SyncedAll(h0: Bufs, l0: Contents, start: nat, table: seq<INode>, ok: bool,
                  r: seq<INode>, heads: Bufs, logical: Contents)
    requires Total(l0) && Numbered(table) && |r| == |table| && SyncedTo(h0, l0, start, table, ok, r, heads, logical)
    ensures Cleaned(r, table) && SameCounts(heads, h0)
    ensures ok && SomeIdle(h0) ==> NoneNeedsWrite(r) && logical == WithInodes(l0, start, table, |table|)
    ensures ok && AllClean(h0) ==> AllClean(heads)
  {
  }

  lemma SameCountsTwice(a: Bufs, b: Bufs, c: Bufs)
    requires SameCounts(a, b) && SameCounts(b, c)
    ensures SameCounts(a, c)
  {
  }

  lemma SameCountsIdle(a: Bufs, b: Bufs)
    requires SameCounts(a, b)
    ensures SomeIdle(b) ==> SomeIdle(a)
  {
  }

  // The number of dirty heads among the first n of the ring.
  function CountDirty(heads: Bufs, ring: seq<nat>, n: nat): nat
    requires Within(ring, NR_BUFFERS) && n <= |ring|
  {
    if n == 0 then 0
    else CountDirty(heads, ring, n - 1) + if heads[ring[n - 1]].dirt then 1 else 0
  }

  predicate Clear(links: seq<Option<nat>>) {
    forall i :: 0 <= i < |links| ==> links[i].None?
  }

  class Cache {
    var heads: Bufs
    var next: seq<Option<nat>>
    var prev: seq<Option<nat>>
    var hash: seq<Option<nat>>
    var nextFree: seq<nat>
    var prevFree: seq<nat>
    var freeList: nat
    var disk: Disk
    ghost var ring: seq<nat>
    ghost var chains: seq<seq<nat>>
    ghost var logical: Contents

    ghost predicate Valid()
      reads this
    {
      && Chained(heads, next, prev, hash, chains) && Blanks(heads, next, prev) && Unique(heads)
      && |ring| == NR_BUFFERS && Circles(nextFree, prevFree, ring) && freeList == ring[0]
      && Agrees(heads, disk, logical)
    }

    // buffer_init never writes the hash links of the heads: `next0` and `prev0` are what the
    // memory holds.  The cache is valid from the start exactly when that memory is clear.
    constructor (d: Disk, next0: seq<Option<nat>>, prev0: seq<Option<nat>>)
      requires |next0| == |prev0| == NR_BUFFERS
      ensures Valid() <==> Clear(next0) && Clear(prev0)
      ensures disk == d && next == next0 && prev == prev0
      ensures forall b: nat :: b in logical && logical[b] == DiskAt(d, b)
      ensures forall i :: 0 <= i < NR_BUFFERS ==> heads[i].count == 0 && heads[i].dev == 0
    {
      heads := FreshHeads();
      next, prev := next0, prev0;
      hash := seq(NR_BUFFERS, _ => None);
      nextFree := seq(NR_BUFFERS, i requires 0 <= i < NR_BUFFERS => After(NR_BUFFERS, i));
      prevFree := seq(NR_BUFFERS, i requires 0 <= i < NR_BUFFERS => if i == 0 then NR_BUFFERS - 1 else i - 1);
      freeList := 0;
      disk := d;
      ring := seq(NR_BUFFERS, i requires 0 <= i < NR_BUFFERS => i);
      chains := seq(NR_BUFFERS, _ => []);
      logical := imap b: nat | true :: DiskAt(d, b);
    }

    // The walk along one hash chain finds the block if any head holds it.
    method Find(block: nat) returns (r: Option<nat>)
      requires Valid()
      ensures r.Some? ==> r.value < NR_BUFFERS && Holds(heads[r.value], block)
      ensures r.None? ==> !Cached(heads, block)
    {
      var h := Hash(DEV, block);
      ghost var c := chains[h];
      ghost var j: nat := 0;
      assert Spells(next, prev, c);
      r := hash[h];
      while r.Some?
        invariant j <= |c| && r == (if j < |c| then Some(c[j]) else None)
        invariant forall k :: 0 <= k < j ==> !Holds(heads[c[k]], block)
        decreases |c| - j
      {
        if heads[r.value].dev == DEV && heads[r.value].block == block {
          return;
        }
        assert Joined(next, prev, c, j);
        r := next[r.value];
        j := j + 1;
      }
      forall i: nat | i < NR_BUFFERS ensures !Holds(heads[i], block) {
        assert i in c <==> Belongs(heads, i, h);
      }
    }

    // The walk round the ring from its head finds the first idle head.
    method FindIdle() returns (r: Option<nat>)
      requires Valid()
      ensures r == FirstIdle(heads, ring)
      ensures r.None? ==> forall i :: 0 <= i < NR_BUFFERS ==> heads[i].count > 0
    {
      var b := freeList;
      ghost var j: nat := 0;
      while true
        invariant j < NR_BUFFERS && b == ring[j]
        invariant forall k :: 0 <= k < j ==> heads[ring[k]].count > 0
        decreases NR_BUFFERS - j
      {
        if heads[b].count == 0 {
          FirstIdleAt(heads, ring, j);
          return Some(b);
        }
        assert Coupled(nextFree, prevFree, ring, j);
        b := nextFree[b];
        if b == freeList {
          break;
        }
        j := j + 1;
      }
      forall i: nat | i < NR_BUFFERS ensures heads[i].count > 0 {
        AllInRing(ring, NR_BUFFERS, i);
      }
      r := None;
    }

    // ll_rw_block(WRITE, ...) on a dirty buffer.
    method WriteBlock(b: nat, ok: bool)
      requires Valid() && b < NR_BUFFERS && heads[b].dev == DEV && heads[b].dirt
      modifies `heads, `disk
      ensures Valid()
      ensures heads == if ok then old(heads)[b := old(heads[b]).(dirt := false)] else old(heads)
      ensures disk == if ok then old(disk)[heads[b].block := heads[b].data] else old(disk)
    {
      assert BufAgrees(heads[b], disk, logical);
      if ok {
        var buf := heads[b].(dirt := false, uptodate := true);
        SameBlockKeepsChains(heads, next, prev, hash, chains, b, buf);
        SameBlockAgrees(heads, disk, disk[buf.block := buf.data], logical, logical, b, buf);
        hide Chained, Blanks, Unique, Agrees, Circles;
        assert Blanks(heads[b := buf], next, prev);
        disk := disk[buf.block := buf.data];
        heads := heads[b := buf];
      }
    }

    // A change of the reference count.
    method SetCount(b: nat, n: nat)
      requires Valid() && b < NR_BUFFERS
      modifies `heads
      ensures Valid() && heads == old(heads)[b := old(heads[b]).(count := n)]
    {
      var buf := heads[b].(count := n);
      assert BufAgrees(heads[b], disk, logical);
      SameBlockKeepsChains(heads, next, prev, hash, chains, b, buf);
      SameBlockAgrees(heads, disk, disk, logical, logical, b, buf);
      heads := heads[b := buf];
    }

    // A holder of the block changes its bytes and marks it dirty.
    method Modify(b: nat, data: Block)
      requires Valid() && b < NR_BUFFERS && heads[b].dev == DEV && heads[b].uptodate && heads[b].count > 0
      modifies `heads, `logical
      ensures Valid() && heads == old(heads)[b := old(heads[b]).(data := data, dirt := true)]
      ensures logical == old(logical)[heads[b].block := data]
    {
      var buf := heads[b].(data := data, dirt := true);
      SameBlockKeepsChains(heads, next, prev, hash, chains, b, buf);
      SameBlockAgrees(heads, disk, disk, logical, logical[buf.block := data], b, buf);
      logical := logical[buf.block := data];
      heads := heads[b := buf];
    }

    // The head leaves its chain.
    method Unlink(b: nat)
      requires Chained(heads, next, prev, hash, chains) && Blanks(heads, next, prev) && b < NR_BUFFERS
      modifies `next, `prev, `hash, `chains
      ensures Chained(heads[b := heads[b].(dev := 0)], next, prev, hash, chains)
      ensures BlanksBut(heads, next, prev, b)
    {
      Detach(heads, next, prev, hash, chains, b);
      DetachBlanks(heads, next, prev, hash, chains, b);
      ghost var n, p, hs, cs := UnlinkNext(next, prev, b), UnlinkPrev(next, prev, b),
        UnlinkHash(heads, next, prev, hash, b), Removed(heads, chains, b);
      LinksInRange(heads, next, prev, hash, chains, b);
      hide Chained, Blanks, BlanksBut, Removed, Hash;
      var h := Hash(heads[b].dev, heads[b].block);
      if prev[b].Some? {
        next := next[prev[b].value := next[b]];
      } else if hash[h] == Some(b) {
        hash := hash[h := next[b]];
      }
      if next[b].Some? {
        prev := prev[next[b].value := prev[b]];
      }
      assert next == n && prev == p && hash == hs;
      chains := cs;
    }

    // A detached head becomes the first of the chain of its new block.
    method Insert(b: nat, buf: Buf)
      requires b < NR_BUFFERS && buf.dev == DEV
      requires Chained(heads[b := heads[b].(dev := 0)], next, prev, hash, chains)
      requires BlanksBut(heads, next, prev, b)
      modifies `heads, `next, `prev, `hash, `chains
      ensures heads == old(heads)[b := buf]
      ensures Chained(heads, next, prev, hash, chains) && Blanks(heads, next, prev)
    {
      var h := Hash(DEV, buf.block);
      ghost var bare := heads[b := heads[b].(dev := 0)];
      Attach(bare, next, prev, hash, chains, b, buf);
      AttachBlanks(bare, next, prev, hash, chains, b, buf);
      assert bare[b := buf] == heads[b := buf];
      assert Spells(next, prev, chains[h]);
      ghost var n, p := PushNext(next, b, hash[h]), PushPrev(prev, b, hash[h]);
      heads := heads[b := buf];
      prev := prev[b := None];
      next := next[b := hash[h]];
      if hash[h].Some? {
        prev := prev[hash[h].value := Some(b)];
      }
      assert next == n && prev == p;
      hash := hash[h := Some(b)];
      chains := chains[h := [b] + chains[h]];
    }

    // An idle head is written back if need be, unlinked, relabelled and put on its new chain.
    // Nothing is lost unless it was dirty and the disk failed.
    method Recycle(b: nat, block: nat, ok: bool)
      requires Valid() && b < NR_BUFFERS && heads[b].count == 0 && !Cached(heads, block)
      modifies `heads, `next, `prev, `hash, `disk, `chains, `logical
      ensures Valid()
      ensures heads == old(heads)[b := Buf(DEV, block, false, false, 1, old(heads[b].data))]
      ensures logical == old(Left(heads, disk, logical, b, ok))
      ensures disk == if ok && old(heads[b].dirt) then old(disk[heads[b].block := heads[b].data]) else old(disk)
    {
      assert Blank(heads[b], next[b], prev[b]) && BufAgrees(heads[b], disk, logical);
      hide Chained, Blanks, Unique, Agrees, Circles, BufAgrees;
      if heads[b].dirt {
        WriteBlock(b, ok);
      }
      Relabel(b, Buf(DEV, block, false, false, 1, heads[b].data));
    }

    // The head changes chains.
    method Relabel(b: nat, buf: Buf)
      requires Valid() && b < NR_BUFFERS && !Cached(heads, buf.block)
      requires buf.dev == DEV && !buf.uptodate && !buf.dirt
      modifies `heads, `next, `prev, `hash, `chains, `logical
      ensures Valid()
      ensures heads == old(heads)[b := buf] && logical == old(Left(heads, disk, logical, b, false))
    {
      assert Blank(heads[b], next[b], prev[b]);
      RelabelContents(heads, disk, logical, b, buf);
      hide *;
      logical := Left(heads, disk, logical, b, false);
      Unlink(b);
      Insert(b, buf);
    }

    // The buffer of the block, referenced once more.  None: every buffer is in use, and the
    // caller sleeps before it tries again.
    method GetBlk(block: nat, ok: bool) returns (r: Option<nat>)
      requires Valid()
      modifies `heads, `next, `prev, `hash, `disk, `chains, `logical
      ensures Valid()
      ensures r.None? ==> unchanged(this) && forall i :: 0 <= i < NR_BUFFERS ==> heads[i].count > 0
      ensures r.Some? ==> r.value < NR_BUFFERS && Holds(heads[r.value], block)
      ensures r.Some? && old(Cached(heads, block)) ==>
                && Holds(old(heads[r.value]), block) && logical == old(logical) && disk == old(disk)
                && heads == old(heads)[r.value := old(heads[r.value]).(count := old(heads[r.value].count) + 1)]
      ensures r.Some? && !old(Cached(heads, block)) ==>
                && r == old(FirstIdle(heads, ring)) && logical == old(Left(heads, disk, logical, r.value, ok))
                && heads == old(heads)[r.value := Buf(DEV, block, false, false, 1, old(heads[r.value].data))]
      ensures r.Some? ==> forall b: nat :: DiskAt(disk, b) == old(DiskAt(disk, b)) || DiskAt(disk, b) == old(logical[b])
    {
      r := Find(block);
      if r.Some? {
        SetCount(r.value, heads[r.value].count + 1);
        return;
      }
      r := FindIdle();
      if r.Some? {
        assert BufAgrees(heads[r.value], disk, logical) && Blank(heads[r.value], next[r.value], prev[r.value]);
        Recycle(r.value, block, ok);
      }
    }

    // The buffer of the block with the block's contents.  A read the disk refuses gives the
    // reference back.
    method Bread(block: nat, ok: bool) returns (r: Option<nat>)
      requires Valid()
      modifies this
      ensures Valid()
      ensures r.Some? ==> r.value < NR_BUFFERS && Holds(heads[r.value], block)
      ensures r.Some? ==> heads[r.value].uptodate && heads[r.value].data == logical[block]
      ensures ok ==> logical == old(logical)
      ensures r.Some? ==> heads[r.value].count == old(heads[r.value].count) + 1
      ensures r.Some? ==> (heads[r.value].dirt ==> old(heads[r.value].dirt))
      ensures r.Some? ==> heads == old(heads)[r.value := heads[r.value]]
      ensures r.None? ==> SameCounts(heads, old(heads))
      ensures r.None? && ok ==> heads == old(heads) && !SomeIdle(heads)
    {
      hide Chained, Blanks, Unique, Circles;
      r := GetBlk(block, ok);
      if r.None? {
        return;
      }
      assert BufAgrees(heads[r.value], disk, logical);
      hide Agrees;
      if heads[r.value].uptodate {
        return;
      }
      if ok {
        Fetch(r.value);
      } else {
        Brelse(r);
        r := None;
      }
    }

    // ll_rw_block(READ, ...)
    method Fetch(b: nat)
      requires Valid() && b < NR_BUFFERS && heads[b].dev == DEV && !heads[b].uptodate
      modifies `heads
      ensures Valid()
      ensures heads == old(heads)[b := old(heads[b]).(data := DiskAt(disk, old(heads[b].block)), uptodate := true)]
      ensures heads[b].data == logical[heads[b].block]
    {
      assert BufAgrees(heads[b], disk, logical);
      var buf := heads[b].(data := DiskAt(disk, heads[b].block), uptodate := true);
      SameBlockKeepsChains(heads, next, prev, hash, chains, b, buf);
      SameBlockAgrees(heads, disk, disk, logical, logical, b, buf);
      heads := heads[b := buf];
    }

    // A reference is given back; the last one moves the head to the front of the ring, where
    // the next miss recycles it before any other.
    method Brelse(b: Option<nat>)
      requires Valid() && (b.Some? ==> b.value < NR_BUFFERS && heads[b.value].count > 0)
      modifies `heads, `nextFree, `prevFree, `freeList, `ring
      ensures Valid()
      ensures b.None? ==> heads == old(heads) && ring == old(ring)
      ensures b.Some? ==> heads == old(heads)[b.value := old(heads[b.value]).(count := old(heads[b.value].count) - 1)]
      ensures b.Some? && heads[b.value].count > 0 ==> ring == old(ring)
      ensures b.Some? && heads[b.value].count == 0 ==> FirstIdle(heads, ring) == b
    {
      if b.None? {
        return;
      }
      var i := b.value;
      hide Chained, Blanks, Unique, Agrees, AllCoupled;
      SetCount(i, heads[i].count - 1);
      if heads[i].count == 0 {
        if i != freeList {
          Front(i);
        }
        FirstIdleAt(heads, ring, 0);
      }
    }

    method Front(b: nat)
      requires Valid() && b < NR_BUFFERS && b != freeList
      modifies `nextFree, `prevFree, `freeList, `ring
      ensures Valid() && freeList == b
      ensures exists k :: 0 < k < NR_BUFFERS && old(ring)[k] == b && ring == Rotate(old(ring), k)
    {
      AllInRing(ring, NR_BUFFERS, b);
      ghost var k := Position(ring, b);
      CutCouples(nextFree, prevFree, ring, k);
      ghost var n, p := CutNext(nextFree, prevFree, b), CutPrev(nextFree, prevFree, b);
      PasteCircles(n, p, ring, k);
      hide Circles, AllCoupled, Chained, Blanks, Unique, Agrees;
      nextFree := nextFree[prevFree[b] := nextFree[b]];
      prevFree := prevFree[nextFree[b] := prevFree[b]];
      prevFree := prevFree[b := freeList];
      nextFree := nextFree[b := nextFree[freeList]];
      prevFree := prevFree[nextFree[freeList] := b];
      nextFree := nextFree[freeList := b];
      freeList := b;
      ring := Rotate(ring, k);
    }

    // A dirty inode is spliced into its block and the block written.
    method WriteInode(start: nat, inode: INode, ok: bool) returns (r: INode)
      requires Valid() && inode.num > 0
      modifies this
      ensures Valid() && Total(logical) && SameCounts(heads, old(heads))
      ensures r == inode || r == inode.(dirt := false)
      ensures NeedsWrite(inode) && !r.dirt ==> OnDevice(logical, start, inode.num) == inode.body
      ensures ok && old(SomeIdle(heads)) ==>
                !NeedsWrite(r) && old(Total(logical)) && logical == WithInode(old(logical), start, inode)
      ensures ok && old(AllClean(heads)) ==> AllClean(heads)
    {
      hide Chained, Blanks, Unique, Circles;
      r := inode;
      if !(inode.dev == DEV && inode.dirt) {
        return;
      }
      var block := InodeBlock(start, inode.num);
      var b := Bread(block, ok);
      if b.None? {
        return;
      }
      hide Agrees;
      PutBody(b.value, InodeOffset(inode.num), inode.body, ok);
      r := inode.(dirt := false);
    }

    // The bytes are spliced into a block just read, which is written and released.
    method PutBody(b: nat, offset: nat, body: Dinode, ok: bool)
      requires Valid() && b < NR_BUFFERS && heads[b].dev == DEV && heads[b].uptodate && heads[b].count > 0
      requires offset + DINODE_SIZE <= BLOCK_SIZE
      modifies this
      ensures Valid()
      ensures heads == old(heads)[b := heads[b]] && heads[b].count == old(heads[b].count) - 1 && (ok ==> !heads[b].dirt)
      ensures logical == old(logical)[old(heads[b].block) := Splice(old(heads[b].data), offset, body)]
    {
      hide Chained, Blanks, Unique, Circles, Agrees;
      Modify(b, Splice(heads[b].data, offset, body));
      WriteBlock(b, ok);
      Brelse(Some(b));
    }

    // Every dirty inode of the table is written; the new table.
    method SyncInodes(start: nat, table: seq<INode>, ok: bool) returns (r: seq<INode>)
      requires Valid() && Numbered(table)
      modifies this
      ensures Valid() && SameCounts(heads, old(heads)) && |r| == |table| && Cleaned(r, table)
      ensures ok && old(SomeIdle(heads)) ==>
                && NoneNeedsWrite(r)
                && old(Total(logical)) && logical == WithInodes(old(logical), start, table, |table|)
      ensures ok && old(AllClean(heads)) ==> AllClean(heads)
    {
      assert Total(logical);
      SyncStarts(heads, logical, start, table, ok);
      hide Chained, Blanks, Unique, Circles, Agrees, SomeIdle, AllClean, SyncedTo, Total;
      r := [];
      while |r| < |table|
        invariant |r| <= |table| && Valid() && SyncedTo(old(heads), old(logical), start, table, ok, r, heads, logical)
        decreases |table| - |r|
      {
        ghost var h, l := heads, logical;
        IdleStill(old(heads), old(logical), start, table, ok, r, h, l);
        var inode := WriteInode(start, table[|r|], ok);
        SyncedMore(old(heads), old(logical), start, table, ok, r, h, l, inode, heads, logical);
        r := r + [inode];
      }
      SyncedAll(old(heads), old(logical), start, table, ok, r, heads, logical);
    }

    method SyncOne(b: nat, ok: bool) returns (written: nat)
      requires Valid() && b < NR_BUFFERS
      modifies `heads, `disk
      ensures Valid() && heads == old(heads)[b := old(heads[b]).(dirt := old(heads[b]).dirt && !ok)]
      ensures written == if old(heads[b].dirt) then 1 else 0
    {
      assert Blank(heads[b], next[b], prev[b]);
      hide Chained, Blanks, Unique, Agrees, Circles;
      written := 0;
      if heads[b].dev == DEV && heads[b].dirt {
        WriteBlock(b, ok);
        written := 1;
      }
    }

    // One walk round the ring writes every dirty buffer.
    method SyncBuffers(ok: bool) returns (written: nat)
      requires Valid()
      modifies `heads, `disk
      ensures Valid() && SameCounts(heads, old(heads))
      ensures written == CountDirty(old(heads), ring, NR_BUFFERS)
      ensures ok ==> AllClean(heads)
    {
      hide Chained, Blanks, Unique, Agrees;
      ghost var was := heads;
      var b, i := freeList, 0;
      written := 0;
      while i < NR_BUFFERS
        invariant i <= NR_BUFFERS && b == ring[if i == NR_BUFFERS then 0 else i]
        invariant Valid() && SameCounts(heads, was)
        invariant written == CountDirty(was, ring, i)
        invariant forall k :: i <= k < NR_BUFFERS ==> heads[ring[k]] == was[ring[k]]
        invariant ok ==> forall k :: 0 <= k < i ==> !heads[ring[k]].dirt
      {
        var n := SyncOne(b, ok);
        written := written + n;
        assert Coupled(nextFree, prevFree, ring, i);
        b := nextFree[b];
        i := i + 1;
      }
      if ok {
        forall k: nat | k < NR_BUFFERS ensures !heads[k].dirt {
          AllInRing(ring, NR_BUFFERS, k);
        }
      }
    }

    // sync_dev: afterwards the disk has everything, dirty inodes included.
    method SyncDev(start: nat, table: seq<INode>, ok: bool) returns (written: nat, r: seq<INode>)
      requires Valid() && Numbered(table)
      modifies this
      ensures Valid() && SameCounts(heads, old(heads)) && |r| == |table| && Cleaned(r, table)
      ensures written == CountDirty(old(heads), old(ring), NR_BUFFERS)
      ensures ok && old(SomeIdle(heads)) ==>
                && NoneNeedsWrite(r) && AllClean(heads)
                && (forall block: nat :: DiskAt(disk, block) == logical[block])
                && old(Total(logical)) && logical == WithInodes(old(logical), start, table, |table|)
    {
      assert Within(ring, NR_BUFFERS);
      ghost var was := heads;
      written := SyncBuffers(ok);
      SameCountsIdle(heads, was);
      ghost var mid := heads;
      r := SyncInodes(start, table, ok);
      SameCountsTwice(heads, mid, was);
      if ok {
        CleanMeansOnDisk(heads, disk, logical);
      }
    }
  }
}
