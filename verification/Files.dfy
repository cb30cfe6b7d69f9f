/** Regular files on zones (fs/file_dev.c, fs/bitmap.c, truncate_inode in fs/inode.c): seven direct
    zones, then one indirect block of 512 sixteen-bit zone numbers.  Blocks are what the buffer
    cache shows of the device; zone numbers fit sixteen bits. */
module Files {
  import opened Layout
  import opened BufferCache

  const DIRECT: nat := 7
  const PER_INDIRECT: nat := 512
  const MAX_ZONES: nat := DIRECT + PER_INDIRECT
  const MAX_BYTES: nat := MAX_ZONES * BLOCK_SIZE

  // The references of an inode: its zones in order, then the indirect block itself.
  const INDIRECT: nat := MAX_ZONES
  const SLOTS: nat := MAX_ZONES + 1

  type Zones = z: seq<nat> | |z| == DIRECT + 1 witness seq(DIRECT + 1, _ => 0)

  datatype Inode = Inode(zones: Zones, size: nat)

  // Entry i of an indirect block, low byte first.
  function Entry(b: Block, i: nat): (r: nat)
    requires i < PER_INDIRECT
    ensures r < 65536
  {
    b[2 * i] as int + 256 * (b[2 * i + 1] as int)
  }

  function SetEntry(b: Block, i: nat, z: nat): (r: Block)
    requires i < PER_INDIRECT && z < 65536
    ensures Entry(r, i) == z
    ensures forall k: nat :: k < PER_INDIRECT && k != i ==> Entry(r, k) == Entry(b, k)
  {
    b[2 * i := z % 256][2 * i + 1 := z / 256]
  }

  function Ref(blocks: seq<Block>, zs: Zones, s: nat): nat {
    if s < DIRECT then zs[s]
    else if s == INDIRECT then zs[DIRECT]
    else if s < MAX_ZONES && 0 < zs[DIRECT] < |blocks| then Entry(blocks[zs[DIRECT]], s - DIRECT)
    else 0
  }

  // Zone 0 stands for none; the data zones start at `first`.
  datatype Fs = Fs(blocks: seq<Block>, used: seq<bool>, first: nat, inodes: seq<Inode>)

  function RefOf(fs: Fs, i: nat, s: nat): nat {
    if i < |fs.inodes| then Ref(fs.blocks, fs.inodes[i].zones, s) else 0
  }

  ghost predicate Shaped(fs: Fs) {
    0 < fs.first <= |fs.blocks| == |fs.used| <= 65536
  }

  // A zone in use by a file is a data zone marked in the bitmap.
  ghost predicate Marked(fs: Fs) {
    forall i: nat, s: nat :: RefOf(fs, i, s) != 0 ==>
      fs.first <= RefOf(fs, i, s) < |fs.blocks| && RefOf(fs, i, s) < |fs.used| && fs.used[RefOf(fs, i, s)]
  }

  // No zone is referenced twice, within a file or between files.
  ghost predicate Separate(fs: Fs) {
    forall i: nat, s: nat, i': nat, s': nat ::
      RefOf(fs, i, s) == RefOf(fs, i', s') != 0 ==> i == i' && s == s'
  }

  ghost predicate FreeAreZero(fs: Fs) {
    forall z :: fs.first <= z < |fs.blocks| && z < |fs.used| && !fs.used[z] ==> fs.blocks[z] == ZeroBlock()
  }

  // Byte p of file i: a missing zone reads as zeros.
  function ByteAt(fs: Fs, i: nat, p: nat): Byte {
    var k := p / BLOCK_SIZE;
    var z := if k < MAX_ZONES then RefOf(fs, i, k) else 0;
    if 0 < z < |fs.blocks| then fs.blocks[z][p % BLOCK_SIZE] else 0
  }

  ghost predicate TailIsZero(fs: Fs) {
    forall i: nat, p: nat :: i < |fs.inodes| && p >= fs.inodes[i].size ==> ByteAt(fs, i, p) == 0
  }

  // What every disk must have; free zones may hold anything.
  ghost predicate Tidy(fs: Fs) {
    Shaped(fs) && Marked(fs) && Separate(fs)
  }

  ghost predicate Sound(fs: Fs) {
    Tidy(fs) && FreeAreZero(fs) && TailIsZero(fs)
  }

  // ---------------------------------------------------------------------
  // Taking a zone
  // ---------------------------------------------------------------------

  // The first data zone from z on whose bit is clear; None: the disk is full.
  function FirstClear(fs: Fs, z: nat): (r: Option<nat>)
    requires Shaped(fs) && z <= |fs.used|
    ensures r.Some? ==> z <= r.value < |fs.used| && !fs.used[r.value]
    ensures r.None? ==> forall k :: z <= k < |fs.used| ==> fs.used[k]
    decreases |fs.used| - z
  {
    if z == |fs.used| then None else if !fs.used[z] then Some(z) else FirstClear(fs, z + 1)
  }

  // The two states agree on every reference but one, which was none and is now the fresh zone z.
  ghost predicate Hooked(a: Fs, b: Fs, i: nat, s: nat, z: nat) {
    && |a.inodes| == |b.inodes| && |a.blocks| == |b.blocks| && a.first == b.first
    && a.first <= z < |a.used| && !a.used[z] && b.used == a.used[z := true]
    && RefOf(a, i, s) == 0 && RefOf(b, i, s) == z
    && forall j: nat, t: nat :: !(j == i && t == s) ==> RefOf(b, j, t) == RefOf(a, j, t)
  }

  lemma HookedKeepsRefs(a: Fs, b: Fs, i: nat, s: nat, z: nat)
    requires Shaped(a) && Marked(a) && Separate(a) && Hooked(a, b, i, s, z)
    ensures Shaped(b) && Marked(b) && Separate(b)
  {
  }

  // The inode's own reference k is set to the zone just marked.
  function HookInode(fs: Fs, i: nat, k: nat, z: nat): Fs
    requires i < |fs.inodes| && k <= DIRECT && z < |fs.used|
  {
    fs.(used := fs.used[z := true],
        inodes := fs.inodes[i := fs.inodes[i].(zones := fs.inodes[i].zones[k := z])])
  }

  // Entry k of the indirect block is set to the zone just marked.
  function HookEntry(fs: Fs, i: nat, k: nat, z: nat): Fs
    requires i < |fs.inodes| && k < PER_INDIRECT && z < |fs.used| && z < 65536
    requires fs.inodes[i].zones[DIRECT] < |fs.blocks|
  {
    var ib := fs.inodes[i].zones[DIRECT];
    fs.(used := fs.used[z := true], blocks := fs.blocks[ib := SetEntry(fs.blocks[ib], k, z)])
  }

  ghost predicate FreeZone(fs: Fs, z: nat) {
    Shaped(fs) && fs.first <= z < |fs.used| && !fs.used[z]
  }

  lemma DirectIsHooked(fs: Fs, i: nat, k: nat, z: nat)
    requires FreeZone(fs, z) && i < |fs.inodes| && k < DIRECT && fs.inodes[i].zones[k] == 0
    ensures Hooked(fs, HookInode(fs, i, k, z), i, k, z)
  {
  }

  lemma IndirectIsHooked(fs: Fs, i: nat, z: nat)
    requires FreeZone(fs, z) && FreeAreZero(fs) && i < |fs.inodes| && fs.inodes[i].zones[DIRECT] == 0
    ensures Hooked(fs, HookInode(fs, i, DIRECT, z), i, INDIRECT, z)
  {
  }

  lemma EntryIsHooked(fs: Fs, i: nat, k: nat, z: nat)
    requires FreeZone(fs, z) && Marked(fs) && Separate(fs) && i < |fs.inodes| && k < PER_INDIRECT
    requires 0 < fs.inodes[i].zones[DIRECT] < |fs.blocks| && RefOf(fs, i, DIRECT + k) == 0
    ensures Hooked(fs, HookEntry(fs, i, k, z), i, DIRECT + k, z)
  {
    var b := HookEntry(fs, i, k, z);
    forall j: nat, t: nat | !(j == i && t == DIRECT + k) ensures RefOf(b, j, t) == RefOf(fs, j, t) {
      assert j < |fs.inodes| ==> fs.inodes[j].zones[DIRECT] == RefOf(fs, j, INDIRECT);
      assert RefOf(fs, i, INDIRECT) == fs.inodes[i].zones[DIRECT];
    }
  }

  // The data of every zone that holds file bytes is the same.
  ghost predicate SameData(a: Fs, b: Fs) {
    forall j: nat, t: nat :: t < MAX_ZONES && 0 < RefOf(a, j, t) < |a.blocks| == |b.blocks| ==>
      b.blocks[RefOf(a, j, t)] == a.blocks[RefOf(a, j, t)]
  }

  predicate SameSizes(a: Fs, b: Fs) {
    |a.inodes| == |b.inodes| && forall j :: 0 <= j < |a.inodes| ==> a.inodes[j].size == b.inodes[j].size
  }

  // A fresh zone full of zeros changes no byte of any file.
  lemma HookedKeepsByte(a: Fs, b: Fs, i: nat, s: nat, z: nat, j: nat, p: nat)
    requires Hooked(a, b, i, s, z) && Marked(a) && SameData(a, b) && a.first > 0
    requires |a.used| == |a.blocks| && b.blocks[z] == ZeroBlock()
    ensures ByteAt(b, j, p) == ByteAt(a, j, p)
  {
  }

  // ---------------------------------------------------------------------
  // Writing into a zone
  // ---------------------------------------------------------------------

  function Overlay(b: Block, off: nat, bytes: seq<Byte>): (r: Block)
    requires off + |bytes| <= BLOCK_SIZE
    ensures forall k :: 0 <= k < BLOCK_SIZE ==> r[k] == if off <= k < off + |bytes| then bytes[k - off] else b[k]
  {
    b[..off] + bytes + b[off + |bytes|..]
  }

  // The bytes go to position pos of file i, within one block, and the size grows to cover them.
  function Poke(fs: Fs, i: nat, pos: nat, bytes: seq<Byte>): Fs
    requires i < |fs.inodes| && pos % BLOCK_SIZE + |bytes| <= BLOCK_SIZE
    requires RefOf(fs, i, pos / BLOCK_SIZE) < |fs.blocks|
  {
    var z := RefOf(fs, i, pos / BLOCK_SIZE);
    var end := pos + |bytes|;
    var inode := fs.inodes[i];
    fs.(blocks := fs.blocks[z := Overlay(fs.blocks[z], pos % BLOCK_SIZE, bytes)],
        inodes := fs.inodes[i := inode.(size := if end > inode.size then end else inode.size)])
  }

  lemma PokeKeepsRefs(fs: Fs, i: nat, pos: nat, bytes: seq<Byte>)
    requires Marked(fs) && Separate(fs) && i < |fs.inodes| && pos % BLOCK_SIZE + |bytes| <= BLOCK_SIZE
    requires pos / BLOCK_SIZE < MAX_ZONES && RefOf(fs, i, pos / BLOCK_SIZE) != 0
    ensures RefOf(fs, i, pos / BLOCK_SIZE) < |fs.blocks|
    ensures forall j: nat, t: nat :: RefOf(Poke(fs, i, pos, bytes), j, t) == RefOf(fs, j, t)
  {
    var b := Poke(fs, i, pos, bytes);
    forall j: nat, t: nat ensures RefOf(b, j, t) == RefOf(fs, j, t) {
      assert j < |fs.inodes| ==> fs.inodes[j].zones[DIRECT] == RefOf(fs, j, INDIRECT);
    }
  }

  lemma PokeByte(fs: Fs, i: nat, pos: nat, bytes: seq<Byte>, j: nat, p: nat)
    requires Marked(fs) && Separate(fs) && i < |fs.inodes| && pos % BLOCK_SIZE + |bytes| <= BLOCK_SIZE
    requires pos / BLOCK_SIZE < MAX_ZONES && RefOf(fs, i, pos / BLOCK_SIZE) != 0
    ensures RefOf(fs, i, pos / BLOCK_SIZE) < |fs.blocks|
    ensures ByteAt(Poke(fs, i, pos, bytes), j, p) ==
            if j == i && pos <= p < pos + |bytes| then bytes[p - pos] else ByteAt(fs, j, p)
  {
    PokeKeepsRefs(fs, i, pos, bytes);
    var b := Poke(fs, i, pos, bytes);
    var k, t := pos / BLOCK_SIZE, p / BLOCK_SIZE;
    assert RefOf(b, j, t) == RefOf(fs, j, t);
    SameBlock(pos, p, |bytes|);
    if t < MAX_ZONES && RefOf(fs, j, t) == RefOf(fs, i, k) {
      assert j == i && t == k;
    }
  }

  // Positions within a stretch that stays in one block are in that block.
  lemma SameBlock(pos: nat, p: nat, n: nat)
    requires pos % BLOCK_SIZE + n <= BLOCK_SIZE
    ensures pos <= p < pos + n ==> p / BLOCK_SIZE == pos / BLOCK_SIZE
    ensures p / BLOCK_SIZE == pos / BLOCK_SIZE ==> p - pos == p % BLOCK_SIZE - pos % BLOCK_SIZE
  {
  }

  // ---------------------------------------------------------------------
  // Files as byte strings
  // ---------------------------------------------------------------------

  // What a reader of file i sees.
  function FileOf(fs: Fs, i: nat): (f: seq<Byte>)
    requires i < |fs.inodes|
    ensures |f| == fs.inodes[i].size && forall p :: 0 <= p < |f| ==> f[p] == ByteAt(fs, i, p)
  {
    seq(fs.inodes[i].size, p requires p >= 0 => ByteAt(fs, i, p))
  }

  // Writing to a byte string: gaps are zeros.
  function WriteTo(f: seq<Byte>, pos: nat, data: seq<Byte>): (g: seq<Byte>) {
    if data == [] then f
    else
      var head := if pos <= |f| then f[..pos] else f + seq(pos - |f|, _ => 0);
      var tail := if pos + |data| < |f| then f[pos + |data|..] else [];
      head + data + tail
  }

  function ReadFrom(f: seq<Byte>, pos: nat, count: nat): (r: seq<Byte>) {
    if pos >= |f| then [] else if pos + count <= |f| then f[pos..pos + count] else f[pos..]
  }

  lemma WriteToIs(f: seq<Byte>, pos: nat, data: seq<Byte>)
    ensures var g := WriteTo(f, pos, data);
            && |g| == (if data != [] && pos + |data| > |f| then pos + |data| else |f|)
            && forall p :: 0 <= p < |g| ==>
                 g[p] == if pos <= p < pos + |data| then data[p - pos] else if p < |f| then f[p] else 0
  {
  }

  // What was written is read back.
  lemma ReadBack(f: seq<Byte>, pos: nat, data: seq<Byte>)
    ensures ReadFrom(WriteTo(f, pos, data), pos, |data|) == data
  {
  }

  // What lies beside it is unchanged, or zero past the old end.
  lemma ReadBeside(f: seq<Byte>, pos: nat, data: seq<Byte>, at: nat, count: nat)
    requires data != [] && (at + count <= pos || pos + |data| <= at)
    ensures at + count <= |f| ==> ReadFrom(WriteTo(f, pos, data), at, count) == ReadFrom(f, at, count)
    ensures |f| <= at && at + count <= pos ==> ReadFrom(WriteTo(f, pos, data), at, count) == seq(count, _ => 0)
  {
  }

  lemma FileIsSame(a: Fs, b: Fs, j: nat)
    requires j < |a.inodes| == |b.inodes| && a.inodes[j].size == b.inodes[j].size
    requires forall p: nat :: ByteAt(b, j, p) == ByteAt(a, j, p)
    ensures FileOf(b, j) == FileOf(a, j)
  {
  }

  ghost predicate OthersSame(a: Fs, b: Fs, i: nat) {
    |a.inodes| == |b.inodes| && forall j: nat :: j < |a.inodes| && j != i ==> FileOf(b, j) == FileOf(a, j)
  }

  // r is what f has from pos on, as far as r goes.
  ghost predicate Matches(r: seq<Byte>, f: seq<Byte>, pos: nat) {
    r != [] ==> pos + |r| <= |f| && r == f[pos..pos + |r|]
  }

  lemma MatchesNone(f: seq<Byte>, pos: nat)
    ensures Matches([], f, pos)
  {
  }

  lemma MatchesOn(r: seq<Byte>, piece: seq<Byte>, f: seq<Byte>, pos: nat)
    requires Matches(r, f, pos) && pos + |r| + |piece| <= |f|
    requires forall k :: 0 <= k < |piece| ==> piece[k] == f[pos + |r| + k]
    ensures Matches(r + piece, f, pos)
  {
  }

  lemma MatchesAll(r: seq<Byte>, f: seq<Byte>, pos: nat, count: nat)
    requires Matches(r, f, pos) && |r| <= count && (|r| == count || pos + |r| >= |f|)
    ensures r == ReadFrom(f, pos, count)
  {
  }

  // As much of the next `left` bytes as fits in the block of p.
  function ChunkSize(p: nat, left: nat): (r: nat)
    ensures r <= left && p % BLOCK_SIZE + r <= BLOCK_SIZE && (left > 0 ==> r > 0)
    ensures p + left <= MAX_BYTES && left > 0 ==> p / BLOCK_SIZE < MAX_ZONES
  {
    var size := BLOCK_SIZE - p % BLOCK_SIZE;
    if size > left then left else size
  }

  // ---------------------------------------------------------------------
  // What a write does to a disk
  // ---------------------------------------------------------------------

  // Block k of file i has got a zone.
  predicate NewlyZoned(a: Fs, b: Fs, i: nat, k: nat) {
    k < MAX_ZONES && RefOf(a, i, k) == 0 && 0 < RefOf(b, i, k) < |a.blocks|
  }

  // What a reader of the file finds at p where nothing has been written: what was there, or the
  // old contents of a zone just taken.
  function LeftAt(a: Fs, b: Fs, i: nat, p: nat): Byte {
    if NewlyZoned(a, b, i, p / BLOCK_SIZE) then a.blocks[RefOf(b, i, p / BLOCK_SIZE)][p % BLOCK_SIZE]
    else ByteAt(a, i, p)
  }

  // The references of file i are kept; those it has got were free.  No other file's change.
  ghost predicate RefsGrow(a: Fs, b: Fs, i: nat) {
    && |a.inodes| == |b.inodes| && a.first == b.first && |a.blocks| == |b.blocks| && |a.used| == |b.used|
    && (forall j: nat, s: nat :: RefOf(a, j, s) != 0 || j != i ==> RefOf(b, j, s) == RefOf(a, j, s))
    && (forall s: nat :: RefOf(a, i, s) == 0 && RefOf(b, i, s) != 0 ==>
          a.first <= RefOf(b, i, s) < |a.used| && !a.used[RefOf(b, i, s)])
  }

  // Zones stay marked, and those that are free still hold what they held.
  ghost predicate FreeUntouched(a: Fs, b: Fs) {
    && |a.blocks| == |b.blocks| && |a.used| == |b.used|
    && (forall z: nat :: z < |a.used| && a.used[z] ==> b.used[z])
    && (forall z: nat :: z < |a.used| && z < |a.blocks| && !b.used[z] ==> b.blocks[z] == a.blocks[z])
  }

  // The bytes written are there and every other byte of every file is what was left there.
  ghost predicate BytesWritten(a: Fs, b: Fs, i: nat, pos: nat, data: seq<Byte>) {
    && (forall p: nat :: pos <= p < pos + |data| ==> p / BLOCK_SIZE < MAX_ZONES && RefOf(b, i, p / BLOCK_SIZE) != 0)
    && (forall j: nat, p: nat :: j != i ==> ByteAt(b, j, p) == ByteAt(a, j, p))
    && (forall p: nat :: ByteAt(b, i, p) == if pos <= p < pos + |data| then data[p - pos] else LeftAt(a, b, i, p))
  }

  predicate Resized(a: Fs, b: Fs, i: nat, end: nat) {
    && |a.inodes| == |b.inodes| && i < |a.inodes|
    && (forall j :: 0 <= j < |a.inodes| && j != i ==> b.inodes[j].size == a.inodes[j].size)
    && b.inodes[i].size == if end > a.inodes[i].size then end else a.inodes[i].size
  }

  ghost predicate Wrote(a: Fs, b: Fs, i: nat, pos: nat, data: seq<Byte>) {
    && RefsGrow(a, b, i) && FreeUntouched(a, b) && BytesWritten(a, b, i, pos, data)
    && Resized(a, b, i, if data == [] then 0 else pos + |data|)
  }

  // Taking a zone is writing nothing.
  lemma HookedWrote(a: Fs, b: Fs, i: nat, s: nat, z: nat, pos: nat)
    requires Tidy(a) && i < |a.inodes| && Hooked(a, b, i, s, z) && SameData(a, b) && SameSizes(a, b)
    requires forall x :: 0 <= x < |a.blocks| && !a.used[x] ==> b.blocks[x] == a.blocks[x]
    ensures Tidy(b) && Wrote(a, b, i, pos, [])
  {
    HookedKeepsRefs(a, b, i, s, z);
    forall j: nat, p: nat
      ensures ByteAt(b, j, p) == if j == i then LeftAt(a, b, i, p) else ByteAt(a, j, p)
    {
      HookedLeaves(a, b, i, s, z, j, p);
    }
  }

  lemma HookedLeaves(a: Fs, b: Fs, i: nat, s: nat, z: nat, j: nat, p: nat)
    requires Tidy(a) && Hooked(a, b, i, s, z) && SameData(a, b) && b.blocks[z] == a.blocks[z]
    ensures ByteAt(b, j, p) == if j == i then LeftAt(a, b, i, p) else ByteAt(a, j, p)
  {
  }

  lemma PokeWrote(fs: Fs, i: nat, pos: nat, bytes: seq<Byte>)
    requires Tidy(fs) && i < |fs.inodes| && bytes != [] && pos % BLOCK_SIZE + |bytes| <= BLOCK_SIZE
    requires pos / BLOCK_SIZE < MAX_ZONES && RefOf(fs, i, pos / BLOCK_SIZE) != 0
    ensures RefOf(fs, i, pos / BLOCK_SIZE) < |fs.blocks|
    ensures Tidy(Poke(fs, i, pos, bytes)) && Wrote(fs, Poke(fs, i, pos, bytes), i, pos, bytes)
  {
    PokeKeepsRefs(fs, i, pos, bytes);
    var b := Poke(fs, i, pos, bytes);
    forall j: nat, p: nat
      ensures ByteAt(b, j, p) == if j == i && pos <= p < pos + |bytes| then bytes[p - pos] else ByteAt(fs, j, p)
    {
      PokeByte(fs, i, pos, bytes, j, p);
    }
    forall p: nat | pos <= p < pos + |bytes| ensures p / BLOCK_SIZE == pos / BLOCK_SIZE {
      SameBlock(pos, p, |bytes|);
    }
    assert Marked(b) && Separate(b);
    assert BytesWritten(fs, b, i, pos, bytes);
  }

  // Two writes that follow on are one.
  lemma WroteTwice(a: Fs, b: Fs, c: Fs, i: nat, pos: nat, first: seq<Byte>, more: seq<Byte>)
    requires Wrote(a, b, i, pos, first) && Wrote(b, c, i, pos + |first|, more) && |a.used| == |a.blocks|
    ensures Wrote(a, c, i, pos, first + more)
  {
  }

  lemma WroteOthers(a: Fs, b: Fs, i: nat, pos: nat, data: seq<Byte>)
    requires Wrote(a, b, i, pos, data)
    ensures OthersSame(a, b, i)
  {
  }

  // What has been written is read back, whatever the free zones held.
  lemma WroteReadsBack(a: Fs, b: Fs, i: nat, pos: nat, data: seq<Byte>)
    requires Wrote(a, b, i, pos, data)
    ensures i < |b.inodes| && ReadFrom(FileOf(b, i), pos, |data|) == data
  {
  }

  // The file is the old one overwritten, with zeros in the gap, exactly when the old contents of
  // the zones taken are zero beside the bytes written, and what lies behind the old end is zero.
  lemma WroteFileIff(a: Fs, b: Fs, i: nat, pos: nat, data: seq<Byte>)
    requires Wrote(a, b, i, pos, data)
    ensures i < |a.inodes| && i < |b.inodes|
    ensures FileOf(b, i) == WriteTo(FileOf(a, i), pos, data) <==>
            forall p: nat :: p < b.inodes[i].size && !(pos <= p < pos + |data|) ==>
              LeftAt(a, b, i, p) == if p < a.inodes[i].size then ByteAt(a, i, p) else 0
  {
    hide WriteTo, ByteAt, LeftAt;
    WriteToIs(FileOf(a, i), pos, data);
    var g, h := FileOf(b, i), WriteTo(FileOf(a, i), pos, data);
    assert |g| == |h| == b.inodes[i].size;
    assert forall p: nat :: p < |g| ==> g[p] == if pos <= p < pos + |data| then data[p - pos] else LeftAt(a, b, i, p);
    assert forall p: nat :: p < |g| ==>
             h[p] == if pos <= p < pos + |data| then data[p - pos]
                     else if p < a.inodes[i].size then ByteAt(a, i, p) else 0;
    if forall p: nat :: p < |g| && !(pos <= p < pos + |data|) ==>
         LeftAt(a, b, i, p) == if p < a.inodes[i].size then ByteAt(a, i, p) else 0
    {
      assert g == h;
    } else {
      var p: nat :| p < |g| && !(pos <= p < pos + |data|) &&
                    LeftAt(a, b, i, p) != if p < a.inodes[i].size then ByteAt(a, i, p) else 0;
      assert g[p] != h[p];
    }
  }

  lemma LeftIsZero(a: Fs, b: Fs, i: nat, p: nat)
    requires RefsGrow(a, b, i) && FreeAreZero(a)
    ensures LeftAt(a, b, i, p) == ByteAt(a, i, p)
  {
  }

  // On a disk whose free zones are zero-filled it always is, and they stay so.
  lemma WroteSound(a: Fs, b: Fs, i: nat, pos: nat, data: seq<Byte>)
    requires Sound(a) && Tidy(b) && Wrote(a, b, i, pos, data)
    ensures Sound(b) && FileOf(b, i) == WriteTo(FileOf(a, i), pos, data)
  {
    forall p: nat ensures LeftAt(a, b, i, p) == ByteAt(a, i, p) {
      LeftIsZero(a, b, i, p);
    }
    WroteFileIff(a, b, i, pos, data);
    StaysZero(a, b);
    TailStaysZero(a, b, i, pos, data);
  }

  lemma StaysZero(a: Fs, b: Fs)
    requires FreeAreZero(a) && FreeUntouched(a, b) && a.first == b.first
    ensures FreeAreZero(b)
  {
  }

  lemma TailStaysZero(a: Fs, b: Fs, i: nat, pos: nat, data: seq<Byte>)
    requires TailIsZero(a) && Wrote(a, b, i, pos, data) && forall p: nat :: LeftAt(a, b, i, p) == ByteAt(a, i, p)
    ensures TailIsZero(b)
  {
  }

  // The indirect block of file i, if a write up to `end` needs one, is there or will be clear.
  ghost predicate Ready(fs: Fs, i: nat, end: nat) {
    i < |fs.inodes| && (fs.inodes[i].zones[DIRECT] != 0 || end <= DIRECT * BLOCK_SIZE || FreeAreZero(fs))
  }

  ghost predicate BlockReady(fs: Fs, i: nat, k: nat) {
    i < |fs.inodes| && (k < DIRECT || fs.inodes[i].zones[DIRECT] != 0 || FreeAreZero(fs))
  }

  lemma ReadyFile(fs: Fs, i: nat, end: nat)
    requires Ready(fs, i, end)
    ensures i < |fs.inodes|
  {
  }

  lemma ReadyPart(fs: Fs, i: nat, m: nat, end: nat)
    requires Ready(fs, i, end) && m <= end
    ensures Ready(fs, i, m)
  {
  }

  lemma ReadyFor(fs: Fs, i: nat, pos: nat, n: nat)
    requires Ready(fs, i, pos + n) && n > 0
    ensures BlockReady(fs, i, pos / BLOCK_SIZE)
  {
  }

  lemma StaysReady(a: Fs, b: Fs, i: nat, end: nat, pos: nat, data: seq<Byte>)
    requires Ready(a, i, end) && Wrote(a, b, i, pos, data)
    ensures Ready(b, i, end)
  {
    assert RefOf(a, i, INDIRECT) == a.inodes[i].zones[DIRECT] && RefOf(b, i, INDIRECT) == b.inodes[i].zones[DIRECT];
    if FreeAreZero(a) {
      StaysZero(a, b);
    }
  }

  // Bytes n up to m of buf have gone to the file.
  ghost predicate WrotePart(a: Fs, b: Fs, i: nat, pos: nat, buf: seq<Byte>, n: nat, m: nat) {
    n <= m <= |buf| && Wrote(a, b, i, pos + n, buf[n..m])
  }

  lemma NothingYet(fs: Fs, i: nat, pos: nat, buf: seq<Byte>)
    requires i < |fs.inodes|
    ensures WrotePart(fs, fs, i, pos, buf, 0, 0)
  {
  }

  lemma WroteOn(a: Fs, b: Fs, c: Fs, i: nat, pos: nat, buf: seq<Byte>, n: nat, m: nat)
    requires Tidy(a) && WrotePart(a, b, i, pos, buf, 0, n) && WrotePart(b, c, i, pos, buf, n, m)
    requires Ready(b, i, pos + |buf|)
    ensures WrotePart(a, c, i, pos, buf, 0, m) && Ready(c, i, pos + |buf|)
  {
    StaysReady(b, c, i, pos + |buf|, pos + n, buf[n..m]);
    hide Wrote;
    SameLengths(a);
    WroteTwice(a, b, c, i, pos, buf[0..n], buf[n..m]);
    assert buf[0..n] + buf[n..m] == buf[0..m];
  }

  lemma SameLengths(fs: Fs)
    requires Tidy(fs)
    ensures Shaped(fs)
  {
  }

  lemma NothingWrote(fs: Fs, i: nat, pos: nat)
    requires i < |fs.inodes|
    ensures Wrote(fs, fs, i, pos, [])
  {
  }

  // ---------------------------------------------------------------------
  // Which zones a write takes
  // ---------------------------------------------------------------------

  // The n-th clear bit from z on, |used| if there are fewer.
  function NthClear(used: seq<bool>, z: nat, n: nat): (r: nat)
    requires z <= |used|
    ensures z <= r <= |used| && (r < |used| ==> !used[r])
    decreases |used| - z
  {
    if z == |used| then z
    else if used[z] then NthClear(used, z + 1, n)
    else if n == 0 then z else NthClear(used, z + 1, n - 1)
  }

  // The zones of a that were clear below c are taken in b.
  ghost predicate TakenBelow(first: nat, a: seq<bool>, b: seq<bool>, c: nat) {
    |a| == |b| && forall z: nat :: first <= z < |a| ==> b[z] == (a[z] || z < c)
  }

  lemma {:induction false} NextClear(a: seq<bool>, z: nat, n: nat)
    requires z <= |a|
    ensures var c, d := NthClear(a, z, n), NthClear(a, z, n + 1);
            c <= d && (c < |a| ==> c < d) && forall x :: c < x < d ==> a[x]
    decreases |a| - z
  {
    if z < |a| {
      if a[z] {
        NextClear(a, z + 1, n);
      } else if n == 0 {
        FirstIsNext(a, z + 1);
      } else {
        NextClear(a, z + 1, n - 1);
      }
    }
  }

  lemma {:induction false} FirstIsNext(a: seq<bool>, z: nat)
    requires z <= |a|
    ensures forall x :: z <= x < NthClear(a, z, 0) ==> a[x]
    decreases |a| - z
  {
    if z < |a| && a[z] {
      FirstIsNext(a, z + 1);
    }
  }

  // With n zones taken new_block gives the n-th.
  lemma {:induction false} GivesNth(fs: Fs, a: seq<bool>, c: nat, z: nat)
    requires Shaped(fs) && TakenBelow(z, a, fs.used, c) && z <= c <= |a| && (c < |a| ==> !a[c])
    ensures FirstClear(fs, z) == if c < |a| then Some(c) else None
    decreases |a| - z
  {
    if z < c {
      GivesNth(fs, a, c, z + 1);
    }
  }

  // References ts of file i have got zones, in that order.
  ghost predicate Took(a: Fs, b: Fs, i: nat, ts: seq<nat>) {
    && a.first == b.first <= |a.used|
    && TakenBelow(a.first, a.used, b.used, NthClear(a.used, a.first, |ts|))
    && (forall j: nat :: j < |ts| ==> RefOf(b, i, ts[j]) == NthClear(a.used, a.first, j))
    && forall s: nat :: s !in ts ==> RefOf(b, i, s) == RefOf(a, i, s)
  }

  lemma TookNothing(a: Fs, i: nat)
    requires Shaped(a)
    ensures Took(a, a, i, [])
  {
    FirstIsNext(a.used, a.first);
  }

  // The next one gets the next clear zone.
  lemma TookOne(a: Fs, b: Fs, c: Fs, i: nat, ts: seq<nat>, s: nat, z: nat)
    requires Shaped(b) && Took(a, b, i, ts) && s !in ts && FirstClear(b, b.first) == Some(z) && Hooked(b, c, i, s, z)
    ensures Took(a, c, i, ts + [s])
  {
    var m := NthClear(a.used, a.first, |ts|);
    GivesNth(b, a.used, m, a.first);
    NextClear(a.used, a.first, |ts|);
    var all := ts + [s];
    forall j: nat | j < |all| ensures RefOf(c, i, all[j]) == NthClear(a.used, a.first, j) {
      assert j < |ts| ==> all[j] == ts[j] && ts[j] in ts;
    }
  }

  // Writing into a zone takes none.
  lemma TookSame(a: Fs, b: Fs, c: Fs, i: nat, ts: seq<nat>)
    requires Took(a, b, i, ts) && c.used == b.used && c.first == b.first
    requires forall s: nat :: RefOf(c, i, s) == RefOf(b, i, s)
    ensures Took(a, c, i, ts)
  {
  }

  // What block k needs in a write that starts at block lo, and what the blocks before `hi` need.
  function BlockNeeds(a: Fs, i: nat, lo: nat, k: nat): seq<nat>
    requires i < |a.inodes|
  {
    (if k >= DIRECT && a.inodes[i].zones[DIRECT] == 0 && (k == lo || k == DIRECT) then [INDIRECT] else []) +
    (if RefOf(a, i, k) == 0 then [k] else [])
  }

  function Needs(a: Fs, i: nat, lo: nat, hi: nat): seq<nat>
    requires i < |a.inodes|
  {
    if hi <= lo then [] else Needs(a, i, lo, hi - 1) + BlockNeeds(a, i, lo, hi - 1)
  }

  // Those are the blocks without a zone, and the indirect block if there is none and it is come to.
  lemma {:induction false} NeedsWhat(a: Fs, i: nat, lo: nat, hi: nat, s: nat)
    requires i < |a.inodes| && hi <= MAX_ZONES
    ensures s in Needs(a, i, lo, hi) <==>
            if s == INDIRECT then lo < hi && DIRECT < hi && a.inodes[i].zones[DIRECT] == 0
            else lo <= s < hi && RefOf(a, i, s) == 0
    decreases hi
  {
    if lo < hi {
      NeedsWhat(a, i, lo, hi - 1, s);
    }
  }

  // What has been taken since a is what the blocks of file i from lo to k need.
  ghost predicate TookTo(a: Fs, b: Fs, i: nat, lo: nat, k: nat) {
    i < |a.inodes| && i < |b.inodes| && lo <= k && Took(a, b, i, Needs(a, i, lo, k))
  }

  // The zone that block k of a write starting at block lo gets, if it has none.
  function ZoneFor(a: Fs, i: nat, lo: nat, k: nat): nat
    requires i < |a.inodes| && a.first <= |a.used|
  {
    var n := |Needs(a, i, lo, k + 1)|;
    NthClear(a.used, a.first, if n == 0 then 0 else n - 1)
  }

  // What lies at p, of a file that is written from pos on up to `end`, where nothing is written.
  function LeftFor(a: Fs, i: nat, pos: nat, end: nat, p: nat): Byte
    requires i < |a.inodes| && a.first <= |a.used|
  {
    var lo, k := pos / BLOCK_SIZE, p / BLOCK_SIZE;
    if pos < end && lo <= k && k <= (end - 1) / BLOCK_SIZE && k < MAX_ZONES && RefOf(a, i, k) == 0
    then (var z := ZoneFor(a, i, lo, k); if z < |a.blocks| then a.blocks[z][p % BLOCK_SIZE] else 0)
    else ByteAt(a, i, p)
  }

  lemma {:induction false} NeedsLast(a: Fs, b: Fs, i: nat, lo: nat, hi: nat, k: nat)
    requires TookTo(a, b, i, lo, hi) && lo <= k < hi <= MAX_ZONES && RefOf(a, i, k) == 0
    ensures RefOf(b, i, k) == ZoneFor(a, i, lo, k)
  {
    var ts, part := Needs(a, i, lo, hi), Needs(a, i, lo, k + 1);
    NeedsPrefix(a, i, lo, k + 1, hi);
    NeedsEnd(a, i, lo, k);
    hide Needs, RefOf, NthClear, TakenBelow;
    var n: nat := |part| - 1;
    assert ts[n] == part[n];
  }

  lemma NeedsEnd(a: Fs, i: nat, lo: nat, k: nat)
    requires i < |a.inodes| && lo <= k && RefOf(a, i, k) == 0
    ensures var r := Needs(a, i, lo, k + 1); r != [] && r[|r| - 1] == k
  {
  }

  lemma {:induction false} NeedsPrefix(a: Fs, i: nat, lo: nat, m: nat, hi: nat)
    requires i < |a.inodes| && m <= hi
    ensures Needs(a, i, lo, m) <= Needs(a, i, lo, hi)
    decreases hi
  {
    if m < hi && lo < hi {
      NeedsPrefix(a, i, lo, m, hi - 1);
    }
  }

  // The blocks a write up to `end` has got to.
  function Reached(pos: nat, end: nat): nat {
    if pos < end then (end - 1) / BLOCK_SIZE + 1 else pos / BLOCK_SIZE
  }

  // What a write from pos up to `end` has taken so far.
  ghost predicate TookUpTo(a: Fs, b: Fs, i: nat, pos: nat, end: nat) {
    TookTo(a, b, i, pos / BLOCK_SIZE, Reached(pos, end))
  }

  lemma LeftIsFor(a: Fs, b: Fs, i: nat, pos: nat, end: nat, p: nat)
    requires Tidy(a) && Tidy(b) && end <= MAX_BYTES && pos <= end && |a.blocks| == |b.blocks|
    requires i < |a.inodes| && TookUpTo(a, b, i, pos, end)
    ensures LeftAt(a, b, i, p) == LeftFor(a, i, pos, end, p)
  {
    var lo, hi, k := pos / BLOCK_SIZE, Reached(pos, end), p / BLOCK_SIZE;
    if k < MAX_ZONES && RefOf(a, i, k) == 0 {
      NeedsWhat(a, i, lo, hi, k);
      if lo <= k < hi {
        NeedsLast(a, b, i, lo, hi, k);
      }
    }
  }

  function SizeAfter(a: Fs, i: nat, pos: nat, data: seq<Byte>): nat
    requires i < |a.inodes|
  {
    var size := a.inodes[i].size;
    if data == [] || pos + |data| < size then size else pos + |data|
  }

  lemma WroteSize(a: Fs, b: Fs, i: nat, pos: nat, data: seq<Byte>)
    requires Wrote(a, b, i, pos, data)
    ensures i < |a.inodes| == |b.inodes| && |a.blocks| == |b.blocks|
    ensures b.inodes[i].size == SizeAfter(a, i, pos, data)
  {
  }

  /** Known before the write: the file becomes the old one overwritten, with zeros in the gaps, if and
      only if the clear zones it is going to take hold zeros beside the bytes written, and what lies
      behind the old end is zero. */
  lemma WriteFileIff(a: Fs, b: Fs, i: nat, pos: nat, data: seq<Byte>)
    requires Tidy(a) && Tidy(b) && Wrote(a, b, i, pos, data) && pos + |data| <= MAX_BYTES
    requires i < |a.inodes| && TookUpTo(a, b, i, pos, pos + |data|)
    ensures i < |b.inodes|
    ensures FileOf(b, i) == WriteTo(FileOf(a, i), pos, data) <==>
            forall p: nat :: p < SizeAfter(a, i, pos, data) && !(pos <= p < pos + |data|) ==>
              LeftFor(a, i, pos, pos + |data|, p) == if p < a.inodes[i].size then ByteAt(a, i, p) else 0
  {
    hide Tidy, Wrote, TookUpTo, FileOf, WriteTo, LeftAt, LeftFor, ByteAt, SizeAfter;
    SameLengths(a);
    WroteSize(a, b, i, pos, data);
    WroteFileIff(a, b, i, pos, data);
    forall p: nat ensures LeftAt(a, b, i, p) == LeftFor(a, i, pos, pos + |data|, p) {
      LeftIsFor(a, b, i, pos, pos + |data|, p);
    }
  }

  // ---------------------------------------------------------------------
  // Giving zones back
  // ---------------------------------------------------------------------

  // z is one of the first n references of file i.
  ghost predicate Among(fs: Fs, i: nat, n: nat, z: nat) {
    z != 0 && exists s: nat :: s < n && RefOf(fs, i, s) == z
  }

  // The bitmap once the first n references of file i are given back.
  ghost predicate Freed(fs: Fs, i: nat, n: nat, used: seq<bool>) {
    |used| == |fs.used| && forall z: nat :: z < |used| ==> used[z] == (fs.used[z] && !Among(fs, i, n, z))
  }

  lemma FreedNone(fs: Fs, i: nat)
    ensures Freed(fs, i, 0, fs.used)
  {
  }

  lemma InRange(fs: Fs, i: nat)
    requires Shaped(fs) && Marked(fs) && i < |fs.inodes|
    ensures fs.inodes[i].zones[DIRECT] < |fs.blocks|
  {
    assert RefOf(fs, i, INDIRECT) == fs.inodes[i].zones[DIRECT];
  }

  lemma FreedOneMore(fs: Fs, i: nat, n: nat, used: seq<bool>)
    requires Shaped(fs) && Marked(fs) && Freed(fs, i, n, used)
    ensures var z := RefOf(fs, i, n);
            z < |used| && Freed(fs, i, n + 1, if z == 0 then used else used[z := false])
  {
  }

  ghost function Truncated(fs: Fs, i: nat, used: seq<bool>): Fs
    requires i < |fs.inodes|
  {
    fs.(used := used, inodes := fs.inodes[i := Inode(seq(DIRECT + 1, _ => 0), 0)])
  }

  // Truncation takes the zones of that file and nothing else.  The free zones are zero-filled
  // afterwards exactly when they were and all its zones are: free_block does not clear them.
  lemma TruncateKeeps(fs: Fs, i: nat, used: seq<bool>)
    requires Tidy(fs) && i < |fs.inodes| && Freed(fs, i, SLOTS, used)
    ensures var b := Truncated(fs, i, used);
            && Tidy(b) && OthersSame(fs, b, i) && FileOf(b, i) == [] && (TailIsZero(fs) ==> TailIsZero(b))
            && (FreeAreZero(b) <==> FreeAreZero(fs) && ZonesAreZero(fs, i))
  {
    var b := Truncated(fs, i, used);
    assert forall j: nat, s: nat :: RefOf(b, j, s) == if j == i then 0 else RefOf(fs, j, s);
    assert forall j: nat, p: nat :: ByteAt(b, j, p) == if j == i then 0 else ByteAt(fs, j, p);
    assert Marked(b);
    forall j: nat | j < |fs.inodes| && j != i ensures FileOf(b, j) == FileOf(fs, j) {
      FileIsSame(fs, b, j);
    }
    TruncateFreeIff(fs, i, used);
  }

  ghost predicate ZonesAreZero(fs: Fs, i: nat) {
    forall s: nat :: s < SLOTS && 0 < RefOf(fs, i, s) < |fs.blocks| ==> fs.blocks[RefOf(fs, i, s)] == ZeroBlock()
  }

  lemma TruncateFreeIff(fs: Fs, i: nat, used: seq<bool>)
    requires Shaped(fs) && Marked(fs) && i < |fs.inodes| && Freed(fs, i, SLOTS, used)
    ensures FreeAreZero(Truncated(fs, i, used)) <==> FreeAreZero(fs) && ZonesAreZero(fs, i)
  {
  }

  // ---------------------------------------------------------------------
  // Zones that were not cleared
  // ---------------------------------------------------------------------

  // A zone given to a data reference shows its old bytes: no byte of any file changes exactly
  // when it is full of zeros.
  lemma HookedShowsIff(a: Fs, b: Fs, i: nat, s: nat, z: nat)
    requires Shaped(a) && Marked(a) && Hooked(a, b, i, s, z) && SameData(a, b) && s < MAX_ZONES
    requires b.blocks[z] == a.blocks[z]
    ensures (forall j: nat, p: nat :: ByteAt(b, j, p) == ByteAt(a, j, p)) <==> a.blocks[z] == ZeroBlock()
  {
    if a.blocks[z] == ZeroBlock() {
      forall j: nat, p: nat ensures ByteAt(b, j, p) == ByteAt(a, j, p) {
        HookedKeepsByte(a, b, i, s, z, j, p);
      }
    } else {
      var m :| 0 <= m < BLOCK_SIZE && a.blocks[z][m] != 0;
      var p := s * BLOCK_SIZE + m;
      assert p / BLOCK_SIZE == s && p % BLOCK_SIZE == m;
      assert ByteAt(b, i, p) != ByteAt(a, i, p);
    }
  }

  lemma StaleDirectShowsIff(fs: Fs, i: nat, k: nat, z: nat)
    requires Marked(fs) && Separate(fs) && FreeZone(fs, z)
    requires i < |fs.inodes| && k < DIRECT && fs.inodes[i].zones[k] == 0
    ensures (forall j: nat, p: nat :: ByteAt(HookInode(fs, i, k, z), j, p) == ByteAt(fs, j, p)) <==>
            fs.blocks[z] == ZeroBlock()
  {
    DirectIsHooked(fs, i, k, z);
    HookedShowsIff(fs, HookInode(fs, i, k, z), i, k, z);
  }

  lemma StaleEntryShowsIff(fs: Fs, i: nat, k: nat, z: nat)
    requires FreeZone(fs, z) && Marked(fs) && Separate(fs) && i < |fs.inodes| && k < PER_INDIRECT
    requires 0 < fs.inodes[i].zones[DIRECT] < |fs.blocks| && RefOf(fs, i, DIRECT + k) == 0
    ensures (forall j: nat, p: nat :: ByteAt(HookEntry(fs, i, k, z), j, p) == ByteAt(fs, j, p)) <==>
            fs.blocks[z] == ZeroBlock()
  {
    EntryIsHooked(fs, i, k, z);
    assert RefOf(fs, i, INDIRECT) == fs.inodes[i].zones[DIRECT];
    HookedShowsIff(fs, HookEntry(fs, i, k, z), i, DIRECT + k, z);
  }

  // Taken as indirect block, its old bytes are zone numbers.
  lemma StaleIndirectRefs(fs: Fs, i: nat, z: nat, j: nat, s: nat)
    requires FreeZone(fs, z) && i < |fs.inodes| && fs.inodes[i].zones[DIRECT] == 0
    ensures RefOf(HookInode(fs, i, DIRECT, z), j, s) ==
            if j == i && s == INDIRECT then z
            else if j == i && DIRECT <= s < MAX_ZONES then Entry(fs.blocks[z], s - DIRECT)
            else RefOf(fs, j, s)
  {
  }

  // A zone number that reads as a hole.
  predicate ReadsAsHole(fs: Fs, y: nat) {
    y == 0 || y >= |fs.blocks| || fs.blocks[y] == ZeroBlock()
  }

  // No byte changes exactly when each of those numbers reads as a hole.
  lemma StaleIndirectShowsIff(fs: Fs, i: nat, z: nat)
    requires FreeZone(fs, z) && i < |fs.inodes| && fs.inodes[i].zones[DIRECT] == 0
    ensures (forall j: nat, p: nat :: ByteAt(HookInode(fs, i, DIRECT, z), j, p) == ByteAt(fs, j, p)) <==>
            (forall e: nat :: e < PER_INDIRECT ==> ReadsAsHole(fs, Entry(fs.blocks[z], e)))
  {
    var b := HookInode(fs, i, DIRECT, z);
    if forall e: nat :: e < PER_INDIRECT ==> ReadsAsHole(fs, Entry(fs.blocks[z], e)) {
      forall j: nat, p: nat ensures ByteAt(b, j, p) == ByteAt(fs, j, p) {
        var t := p / BLOCK_SIZE;
        StaleIndirectRefs(fs, i, z, j, t);
        if j == i && DIRECT <= t < MAX_ZONES {
          assert ReadsAsHole(fs, Entry(fs.blocks[z], t - DIRECT));
        }
      }
    } else {
      var e: nat :| e < PER_INDIRECT && !ReadsAsHole(fs, Entry(fs.blocks[z], e));
      var y := Entry(fs.blocks[z], e);
      var m :| 0 <= m < BLOCK_SIZE && fs.blocks[y][m] != 0;
      var p := (DIRECT + e) * BLOCK_SIZE + m;
      assert p / BLOCK_SIZE == DIRECT + e && p % BLOCK_SIZE == m;
      StaleIndirectRefs(fs, i, z, i, DIRECT + e);
      assert ByteAt(b, i, p) != ByteAt(fs, i, p);
    }
  }

  // Entry e of the zone is none, or a marked zone that nothing else refers to.
  ghost predicate OwnEntry(fs: Fs, z: nat, e: nat)
    requires z < |fs.blocks| && e < PER_INDIRECT
  {
    var y := Entry(fs.blocks[z], e);
    y != 0 ==>
      && fs.first <= y < |fs.blocks| && y < |fs.used| && fs.used[y] && y != z
      && (forall j: nat, s: nat :: RefOf(fs, j, s) != y)
      && (forall x: nat :: x < PER_INDIRECT && x != e ==> Entry(fs.blocks[z], x) != y)
  }

  // The references stay marked and distinct exactly when all its entries are such.
  lemma StaleIndirectKeepsRefsIff(fs: Fs, i: nat, z: nat)
    requires FreeZone(fs, z) && Marked(fs) && Separate(fs) && i < |fs.inodes| && fs.inodes[i].zones[DIRECT] == 0
    ensures var b := HookInode(fs, i, DIRECT, z);
            (Marked(b) && Separate(b)) <==> forall e: nat :: e < PER_INDIRECT ==> OwnEntry(fs, z, e)
  {
    var b := HookInode(fs, i, DIRECT, z);
    if Marked(b) && Separate(b) {
      forall e: nat | e < PER_INDIRECT ensures OwnEntry(fs, z, e) {
        StaleEntryIsOwn(fs, i, z, e);
      }
    }
    if forall e: nat :: e < PER_INDIRECT ==> OwnEntry(fs, z, e) {
      forall j: nat, s: nat | RefOf(b, j, s) != 0
        ensures fs.first <= RefOf(b, j, s) < |b.blocks| && b.used[RefOf(b, j, s)]
      {
        StaleIndirectRefs(fs, i, z, j, s);
        assert j == i && DIRECT <= s < MAX_ZONES ==> OwnEntry(fs, z, s - DIRECT);
      }
      forall j: nat, s: nat, j': nat, s': nat | RefOf(b, j, s) == RefOf(b, j', s') != 0 ensures j == j' && s == s' {
        OwnEntriesSeparate(fs, i, z, j, s, j', s');
      }
    }
  }

  lemma StaleEntryIsOwn(fs: Fs, i: nat, z: nat, e: nat)
    requires FreeZone(fs, z) && i < |fs.inodes| && fs.inodes[i].zones[DIRECT] == 0 && e < PER_INDIRECT
    requires Marked(HookInode(fs, i, DIRECT, z)) && Separate(HookInode(fs, i, DIRECT, z))
    ensures OwnEntry(fs, z, e)
  {
    var b, y := HookInode(fs, i, DIRECT, z), Entry(fs.blocks[z], e);
    StaleIndirectRefs(fs, i, z, i, DIRECT + e);
    StaleIndirectRefs(fs, i, z, i, INDIRECT);
    if y != 0 {
      forall j: nat, s: nat ensures RefOf(fs, j, s) != y {
        StaleIndirectRefs(fs, i, z, j, s);
      }
      forall x: nat | x < PER_INDIRECT && x != e ensures Entry(fs.blocks[z], x) != y {
        StaleIndirectRefs(fs, i, z, i, DIRECT + x);
      }
    }
  }

  lemma OwnEntriesSeparate(fs: Fs, i: nat, z: nat, j: nat, s: nat, j': nat, s': nat)
    requires FreeZone(fs, z) && Marked(fs) && Separate(fs) && i < |fs.inodes| && fs.inodes[i].zones[DIRECT] == 0
    requires forall e: nat :: e < PER_INDIRECT ==> OwnEntry(fs, z, e)
    requires var b := HookInode(fs, i, DIRECT, z); RefOf(b, j, s) == RefOf(b, j', s') != 0
    ensures j == j' && s == s'
  {
    StaleIndirectRefs(fs, i, z, j, s);
    StaleIndirectRefs(fs, i, z, j', s');
    assert j == i && DIRECT <= s < MAX_ZONES ==> OwnEntry(fs, z, s - DIRECT);
    assert j' == i && DIRECT <= s' < MAX_ZONES ==> OwnEntry(fs, z, s' - DIRECT);
  }

  // When an old byte pair is the number of a zone of file j, two files share that zone, and a
  // write to the one changes the other.
  lemma StaleIndirectOverwrites(fs: Fs, i: nat, z: nat, e: nat, j: nat, s: nat, off: nat, v: Byte)
    requires FreeZone(fs, z) && Marked(fs) && Separate(fs) && i < |fs.inodes| && fs.inodes[i].zones[DIRECT] == 0
    requires e < PER_INDIRECT && s < MAX_ZONES && off < BLOCK_SIZE
    requires RefOf(fs, j, s) == Entry(fs.blocks[z], e) != 0
    ensures var b := HookInode(fs, i, DIRECT, z);
            var pos := (DIRECT + e) * BLOCK_SIZE + off;
            && RefOf(b, i, DIRECT + e) == RefOf(b, j, s) && !Separate(b)
            && pos % BLOCK_SIZE == off && pos / BLOCK_SIZE == DIRECT + e && RefOf(b, i, DIRECT + e) < |b.blocks|
            && ByteAt(Poke(b, i, pos, [v]), j, s * BLOCK_SIZE + off) == v
  {
    var b, y := HookInode(fs, i, DIRECT, z), RefOf(fs, j, s);
    var pos, q := (DIRECT + e) * BLOCK_SIZE + off, s * BLOCK_SIZE + off;
    assert pos % BLOCK_SIZE == off && pos / BLOCK_SIZE == DIRECT + e;
    assert q % BLOCK_SIZE == off && q / BLOCK_SIZE == s;
    StaleIndirectRefs(fs, i, z, i, DIRECT + e);
    StaleIndirectRefs(fs, i, z, j, s);
    assert !(j == i && s >= DIRECT);
    assert y != z && fs.used[y];
    var c := Poke(b, i, pos, [v]);
    assert j < |fs.inodes| ==> fs.inodes[j].zones[DIRECT] == RefOf(fs, j, INDIRECT);
    assert RefOf(c, j, s) == y;
    assert c.blocks[y][off] == v;
  }

  function BlockOf(p: nat): nat {
    p / BLOCK_SIZE
  }

  // The bytes have room in the block of p, and p in the file.
  predicate Fits(p: nat, bytes: seq<Byte>) {
    bytes != [] && p % BLOCK_SIZE + |bytes| <= BLOCK_SIZE && p / BLOCK_SIZE < MAX_ZONES
  }

  lemma PokeTook(a: Fs, fs: Fs, i: nat, pos: nat, bytes: seq<Byte>, lo: nat, k: nat)
    requires Tidy(fs) && i < |fs.inodes| && Fits(pos, bytes) && TookTo(a, fs, i, lo, k)
    requires 0 < RefOf(fs, i, pos / BLOCK_SIZE) < |fs.blocks|
    ensures TookTo(a, Poke(fs, i, pos, bytes), i, lo, k)
  {
    PokeKeepsRefs(fs, i, pos, bytes);
    TookSame(a, fs, Poke(fs, i, pos, bytes), i, Needs(a, i, lo, k));
  }

  // Once the zone is there, the bytes of a chunk can go in.
  lemma ChunkWrote(was: Fs, mid: Fs, i: nat, pos: nat, bytes: seq<Byte>)
    requires Tidy(was) && Tidy(mid) && Wrote(was, mid, i, pos, []) && Fits(pos, bytes)
    requires RefOf(mid, i, BlockOf(pos)) != 0
    ensures i < |mid.inodes| && RefOf(mid, i, pos / BLOCK_SIZE) < |mid.blocks|
    ensures Tidy(Poke(mid, i, pos, bytes)) && Wrote(was, Poke(mid, i, pos, bytes), i, pos, bytes)
  {
    hide Wrote, Tidy, RefOf, Poke;
    SameLengths(was);
    WroteSize(was, mid, i, pos, []);
    PokeWrote(mid, i, pos, bytes);
    var none: seq<Byte> := [];
    WroteTwice(was, mid, Poke(mid, i, pos, bytes), i, pos, none, bytes);
    assert none + bytes == bytes;
  }

  lemma TookToNothing(a: Fs, i: nat, pos: nat, len: nat)
    requires Tidy(a) && i < |a.inodes|
    ensures TookUpTo(a, a, i, pos, pos) && BetweenChunks(pos, 0, len)
  {
    TookNothing(a, i);
  }

  // Before a chunk the write is at its start, at the end of a block or at its own end.
  predicate BetweenChunks(pos: nat, n: nat, len: nat) {
    n == 0 || n == len || (pos + n) % BLOCK_SIZE == 0
  }

  lemma ChunkBegins(a: Fs, b: Fs, i: nat, pos: nat, n: nat, buf: seq<Byte>)
    requires n < |buf| && BetweenChunks(pos, n, |buf|) && TookUpTo(a, b, i, pos, pos + n)
    ensures TookTo(a, b, i, BlockOf(pos), BlockOf(pos + n))
  {
  }

  lemma ChunkFits(pos: nat, n: nat, size: nat, buf: seq<Byte>)
    requires n < |buf| && size == ChunkSize(pos + n, |buf| - n) && pos + |buf| <= MAX_BYTES
    ensures n + size <= |buf| && Fits(pos + n, buf[n..n + size])
  {
  }

  lemma ChunkEnds(a: Fs, b: Fs, i: nat, pos: nat, n: nat, size: nat, len: nat)
    requires n < len && size == ChunkSize(pos + n, len - n) && TookTo(a, b, i, BlockOf(pos), BlockOf(pos + n) + 1)
    ensures BetweenChunks(pos, n + size, len) && TookUpTo(a, b, i, pos, pos + n + size)
  {
  }

  // The blocks before k have needed the indirect block, or it was there, or it is needed now.
  lemma NeedsIndirect(a: Fs, b: Fs, i: nat, lo: nat, k: nat)
    requires Tidy(b) && TookTo(a, b, i, lo, k) && DIRECT <= k < MAX_ZONES
    ensures b.inodes[i].zones[DIRECT] == 0 <==> a.inodes[i].zones[DIRECT] == 0 && (k == lo || k == DIRECT)
    ensures b.inodes[i].zones[DIRECT] == 0 ==> INDIRECT !in Needs(a, i, lo, k)
    ensures k !in Needs(a, i, lo, k)
  {
    var ts := Needs(a, i, lo, k);
    NeedsWhat(a, i, lo, k, INDIRECT);
    NeedsWhat(a, i, lo, k, k);
    hide Needs, NthClear, TakenBelow;
    assert RefOf(a, i, INDIRECT) == a.inodes[i].zones[DIRECT] && RefOf(b, i, INDIRECT) == b.inodes[i].zones[DIRECT];
    if INDIRECT in ts {
      var j: nat :| j < |ts| && ts[j] == INDIRECT;
      assert RefOf(b, i, ts[j]) == NthClear(a.used, a.first, j) >= a.first;
    }
  }

  // The references that have been seen to when block k is left with the indirect block there.
  ghost function NeedsBefore(a: Fs, i: nat, lo: nat, k: nat): seq<nat>
    requires i < |a.inodes|
  {
    Needs(a, i, lo, k) +
    if k >= DIRECT && a.inodes[i].zones[DIRECT] == 0 && (k == lo || k == DIRECT) then [INDIRECT] else []
  }

  // Block k has got its zone, if it had none.
  lemma BlockTaken(a: Fs, b: Fs, c: Fs, i: nat, lo: nat, k: nat, z: nat)
    requires Shaped(b) && i < |a.inodes| && i < |c.inodes| && lo <= k < MAX_ZONES && z != 0
    requires Took(a, b, i, NeedsBefore(a, i, lo, k))
    requires if RefOf(b, i, k) != 0 then c == b else FirstClear(b, b.first) == Some(z) && Hooked(b, c, i, k, z)
    ensures TookTo(a, c, i, lo, k + 1)
  {
    var ts := NeedsBefore(a, i, lo, k);
    NeedsWhat(a, i, lo, k, k);
    if RefOf(b, i, k) == 0 {
      TookOne(a, b, c, i, ts, k, z);
      assert ts + [k] == Needs(a, i, lo, k) + BlockNeeds(a, i, lo, k);
    } else {
      assert ts == Needs(a, i, lo, k) + BlockNeeds(a, i, lo, k);
    }
  }

  // The indirect block is there, taken now if it was not.
  lemma IndirectTaken(a: Fs, b: Fs, c: Fs, i: nat, lo: nat, k: nat, z: nat)
    requires Tidy(b) && TookTo(a, b, i, lo, k) && DIRECT <= k < MAX_ZONES
    requires if b.inodes[i].zones[DIRECT] != 0 then c == b
             else FirstClear(b, b.first) == Some(z) && Hooked(b, c, i, INDIRECT, z)
    ensures Took(a, c, i, NeedsBefore(a, i, lo, k))
  {
    NeedsIndirect(a, b, i, lo, k);
    if b.inodes[i].zones[DIRECT] == 0 {
      TookOne(a, b, c, i, Needs(a, i, lo, k), INDIRECT, z);
    } else {
      assert Needs(a, i, lo, k) == NeedsBefore(a, i, lo, k);
    }
  }

  lemma DirectBefore(a: Fs, b: Fs, i: nat, lo: nat, k: nat)
    requires TookTo(a, b, i, lo, k) && k < DIRECT
    ensures Took(a, b, i, NeedsBefore(a, i, lo, k))
  {
  }

  class FileSystem {
    var blocks: seq<Block>
    var used: seq<bool>
    var inodes: seq<Inode>
    const first: nat

    function St(): Fs
      reads this
    {
      Fs(blocks, used, first, inodes)
    }

    constructor (fs: Fs)
      ensures St() == fs
    {
      blocks, used, inodes, first := fs.blocks, fs.used, fs.inodes, fs.first;
    }

    // The first clear bit of the zone map; 0 when every zone is taken.
    method NewBlock() returns (z: nat)
      requires Shaped(St())
      modifies `used
      ensures z == 0 ==> used == old(used) && forall k :: first <= k < |used| ==> used[k]
      ensures z != 0 ==> old(FirstClear(St(), first)) == Some(z) && used == old(used)[z := true]
    {
      z := first;
      while z < |used| && used[z]
        invariant first <= z <= |used| && FirstClear(St(), first) == FirstClear(St(), z)
        invariant forall k :: first <= k < z ==> used[k]
      {
        z := z + 1;
      }
      if z == |used| {
        return 0;
      }
      used := used[z := true];
    }

    // The zone of block k of file i, taken from the free ones if it has none.  What has been taken
    // since a is what the blocks from lo to k need.
    method EnsureZone(i: nat, k: nat, ghost pos: nat, ghost a: Fs, ghost lo: nat) returns (z: nat)
      requires Tidy(St()) && k < MAX_ZONES && BlockReady(St(), i, k) && TookTo(a, St(), i, lo, k)
      modifies this
      ensures Tidy(St()) && Wrote(old(St()), St(), i, pos, []) && z == RefOf(St(), i, k)
      ensures z != 0 ==> TookTo(a, St(), i, lo, k + 1)
      ensures z == 0 ==> forall x :: first <= x < |used| ==> used[x]
    {
      ghost var was := St();
      NothingWrote(was, i, pos);
      SameLengths(was);
      hide Wrote, Tidy, TookTo, Took, Hooked;
      if k < DIRECT {
        z := EnsureDirect(i, k, pos, a, lo);
        return;
      }
      var ib := inodes[i].zones[DIRECT];
      if ib == 0 {
        ib := TakeFor(i, DIRECT, pos);
        if ib == 0 {
          assert RefOf(St(), i, k) == 0;
          return 0;
        }
      }
      ghost var mid := St();
      IndirectTaken(a, was, mid, i, lo, k, ib);
      z := EnsureEntry(i, k, pos);
      ghost var none: seq<Byte> := [];
      WroteTwice(was, mid, St(), i, pos, none, none);
      assert none + none == none;
      if z != 0 {
        SameLengths(mid);
        BlockTaken(a, mid, St(), i, lo, k, z);
      }
    }

    method EnsureDirect(i: nat, k: nat, ghost pos: nat, ghost a: Fs, ghost lo: nat) returns (z: nat)
      requires Tidy(St()) && k < DIRECT && i < |inodes| && TookTo(a, St(), i, lo, k)
      modifies this
      ensures Tidy(St()) && Wrote(old(St()), St(), i, pos, []) && z == RefOf(St(), i, k)
      ensures z != 0 ==> TookTo(a, St(), i, lo, k + 1)
      ensures z == 0 ==> forall x :: first <= x < |used| ==> used[x]
    {
      ghost var was := St();
      NothingWrote(was, i, pos);
      SameLengths(was);
      DirectBefore(a, was, i, lo, k);
      hide Wrote, Tidy, TookTo, Took, Hooked;
      z := inodes[i].zones[k];
      if z == 0 {
        z := TakeFor(i, k, pos);
      }
      if z != 0 {
        BlockTaken(a, was, St(), i, lo, k, z);
      }
    }

    method TakeFor(i: nat, k: nat, ghost pos: nat) returns (z: nat)
      requires Tidy(St()) && i < |inodes| && k <= DIRECT && inodes[i].zones[k] == 0
      requires k == DIRECT ==> FreeAreZero(St())
      modifies this
      ensures Tidy(St()) && Wrote(old(St()), St(), i, pos, []) && z == inodes[i].zones[k]
      ensures z == 0 ==> St() == old(St()) && forall x :: first <= x < |used| ==> used[x]
      ensures z != 0 ==> old(FirstClear(St(), first)) == Some(z) && St() == HookInode(old(St()), i, k, z)
      ensures z != 0 ==> Hooked(old(St()), St(), i, if k < DIRECT then k else INDIRECT, z)
    {
      ghost var was := St();
      z := NewBlock();
      if z == 0 {
        NothingWrote(was, i, pos);
      } else {
        inodes := inodes[i := inodes[i].(zones := inodes[i].zones[k := z])];
        assert St() == HookInode(was, i, k, z);
        if k < DIRECT {
          DirectIsHooked(was, i, k, z);
        } else {
          IndirectIsHooked(was, i, z);
        }
        HookedWrote(was, St(), i, if k < DIRECT then k else INDIRECT, z, pos);
      }
    }

    method EnsureEntry(i: nat, k: nat, ghost pos: nat) returns (z: nat)
      requires Tidy(St()) && i < |inodes| && DIRECT <= k < MAX_ZONES && inodes[i].zones[DIRECT] != 0
      modifies this
      ensures Tidy(St()) && Wrote(old(St()), St(), i, pos, []) && z == RefOf(St(), i, k)
      ensures z == 0 ==> forall x :: first <= x < |used| ==> used[x]
      ensures z == 0 || old(RefOf(St(), i, k)) != 0 ==> St() == old(St())
      ensures z != 0 && old(RefOf(St(), i, k)) == 0 ==>
              old(FirstClear(St(), first)) == Some(z) && Hooked(old(St()), St(), i, k, z)
    {
      ghost var was := St();
      assert RefOf(was, i, INDIRECT) == inodes[i].zones[DIRECT];
      NothingWrote(was, i, pos);
      var ib := inodes[i].zones[DIRECT];
      z := Entry(blocks[ib], k - DIRECT);
      if z == 0 {
        z := NewBlock();
        if z != 0 {
          EntryIsHooked(was, i, k - DIRECT, z);
          blocks := blocks[ib := SetEntry(blocks[ib], k - DIRECT, z)];
          assert St() == HookEntry(was, i, k - DIRECT, z);
          HookedWrote(was, St(), i, k, z, pos);
        }
      }
    }

    // One turn of file_write's loop; false: no zone.
    method WriteChunk(i: nat, pos: nat, bytes: seq<Byte>, ghost a: Fs, ghost lo: nat) returns (ok: bool)
      requires Tidy(St()) && Ready(St(), i, pos + |bytes|) && Fits(pos, bytes) && TookTo(a, St(), i, lo, BlockOf(pos))
      modifies this
      ensures Tidy(St()) && Wrote(old(St()), St(), i, pos, if ok then bytes else [])
      ensures ok ==> TookTo(a, St(), i, lo, BlockOf(pos) + 1)
      ensures !ok ==> forall x :: first <= x < |used| ==> used[x]
    {
      hide Wrote, Tidy, RefOf, Poke, TookTo, Ready, BlockReady;
      ghost var was := St();
      ReadyFor(was, i, pos, |bytes|);
      var z := EnsureZone(i, pos / BLOCK_SIZE, pos, a, lo);
      ghost var mid := St();
      if z == 0 {
        return false;
      }
      ChunkWrote(was, mid, i, pos, bytes);
      PokeTook(a, mid, i, pos, bytes, lo, BlockOf(pos) + 1);
      PokeBlock(i, pos, bytes, z);
      return true;
    }

    // The bytes go into the block and the size grows to cover them.
    method PokeBlock(i: nat, pos: nat, bytes: seq<Byte>, z: nat)
      requires i < |inodes| && pos % BLOCK_SIZE + |bytes| <= BLOCK_SIZE
      requires z == RefOf(St(), i, pos / BLOCK_SIZE) < |blocks|
      modifies `blocks, `inodes
      ensures St() == old(Poke(St(), i, pos, bytes))
    {
      blocks := blocks[z := Overlay(blocks[z], pos % BLOCK_SIZE, bytes)];
      var end := pos + |bytes|;
      inodes := inodes[i := inodes[i].(size := if end > inodes[i].size then end else inodes[i].size)];
    }

    // file_write: as much of buf as there are zones for goes to the file at pos; no other file
    // changes, whatever the free zones hold.  When they hold zeros, so do the gaps.
    method FileWrite(i: nat, pos: nat, buf: seq<Byte>) returns (n: nat)
      requires Tidy(St()) && pos + |buf| <= MAX_BYTES && Ready(St(), i, pos + |buf|)
      modifies this
      ensures Tidy(St()) && n <= |buf| && Wrote(old(St()), St(), i, pos, buf[..n]) && i < |inodes|
      ensures OthersSame(old(St()), St(), i) && ReadFrom(FileOf(St(), i), pos, n) == buf[..n]
      ensures old(Sound(St())) ==> Sound(St()) && FileOf(St(), i) == WriteTo(old(FileOf(St(), i)), pos, buf[..n])
      ensures n == |buf| ==> TookUpTo(old(St()), St(), i, pos, pos + |buf|)
      ensures n < |buf| ==> forall x :: first <= x < |used| ==> used[x]
    {
      ghost var was := St();
      n := WriteAll(i, pos, buf);
      assert buf[0..n] == buf[..n];
      NothingWrote(was, i, pos);
      hide Tidy, Wrote, FileOf, WriteTo, ReadFrom, OthersSame, FreeAreZero, TailIsZero;
      WroteOthers(was, St(), i, pos, buf[..n]);
      WroteReadsBack(was, St(), i, pos, buf[..n]);
      if Sound(was) {
        WroteSound(was, St(), i, pos, buf[..n]);
      }
    }

    method WriteAll(i: nat, pos: nat, buf: seq<Byte>) returns (n: nat)
      requires Tidy(St()) && pos + |buf| <= MAX_BYTES && Ready(St(), i, pos + |buf|)
      modifies this
      ensures Tidy(St()) && n <= |buf| && WrotePart(old(St()), St(), i, pos, buf, 0, n)
      ensures n == |buf| ==> TookUpTo(old(St()), St(), i, pos, pos + |buf|)
      ensures n < |buf| ==> forall x :: first <= x < |used| ==> used[x]
    {
      hide WrotePart, Tidy, Ready, TookUpTo, BetweenChunks;
      n := 0;
      ghost var was := St();
      ReadyFile(was, i, pos + |buf|);
      NothingYet(was, i, pos, buf);
      TookToNothing(was, i, pos, |buf|);
      while n < |buf|
        invariant n <= |buf| && Tidy(St()) && WrotePart(was, St(), i, pos, buf, 0, n) && Ready(St(), i, pos + |buf|)
        invariant TookUpTo(was, St(), i, pos, pos + n) && BetweenChunks(pos, n, |buf|)
      {
        ghost var before := St();
        var m := WriteSome(i, pos, buf, n, was);
        WroteOn(was, before, St(), i, pos, buf, n, m);
        if m == n {
          return;
        }
        n := m;
      }
    }

    // The next part of buf that fits in one block, up to m; m is n when there is no zone.
    method WriteSome(i: nat, pos: nat, buf: seq<Byte>, n: nat, ghost a: Fs) returns (m: nat)
      requires Tidy(St()) && n < |buf| && pos + |buf| <= MAX_BYTES && Ready(St(), i, pos + |buf|)
      requires TookUpTo(a, St(), i, pos, pos + n) && BetweenChunks(pos, n, |buf|)
      modifies this
      ensures Tidy(St()) && n <= m <= |buf| && WrotePart(old(St()), St(), i, pos, buf, n, m)
      ensures m == n ==> forall x :: first <= x < |used| ==> used[x]
      ensures m > n ==> TookUpTo(a, St(), i, pos, pos + m) && BetweenChunks(pos, m, |buf|)
    {
      hide Tidy, Wrote, TookTo, TookUpTo, ChunkSize, BetweenChunks, Fits, BlockOf, Ready;
      var size := ChunkSize(pos + n, |buf| - n);
      ChunkBegins(a, St(), i, pos, n, buf);
      ChunkFits(pos, n, size, buf);
      ReadyPart(St(), i, pos + n + size, pos + |buf|);
      var ok := WriteChunk(i, pos + n, buf[n..n + size], a, BlockOf(pos));
      if ok {
        m := n + size;
        ChunkEnds(a, St(), i, pos, n, size, |buf|);
      } else {
        m := n;
        assert buf[n..n] == [];
      }
    }

    // file_read
    method FileRead(i: nat, pos: nat, count: nat) returns (r: seq<Byte>)
      requires Tidy(St()) && i < |inodes| && inodes[i].size <= MAX_BYTES
      ensures r == ReadFrom(FileOf(St(), i), pos, count)
    {
      r := [];
      ghost var f := FileOf(St(), i);
      hide Tidy, Matches, ReadFrom;
      assert Matches(r, f, pos) by {
        MatchesNone(f, pos);
      }
      while |r| < count && pos + |r| < inodes[i].size
        invariant |r| <= count && (|r| > 0 ==> pos + |r| <= |f|)
        invariant Matches(r, f, pos)
        decreases count - |r|
      {
        var p := pos + |r|;
        var size := ChunkSize(p, count - |r|);
        if size > inodes[i].size - p {
          size := inodes[i].size - p;
        }
        var piece := ReadChunk(i, p, size);
        MatchesOn(r, piece, f, pos);
        r := r + piece;
      }
      MatchesAll(r, f, pos, count);
    }

    // The bytes of one stretch within a block; a hole reads as zeros.
    method ReadChunk(i: nat, p: nat, size: nat) returns (r: seq<Byte>)
      requires Tidy(St()) && i < |inodes| && p % BLOCK_SIZE + size <= BLOCK_SIZE && p + size <= MAX_BYTES && size > 0
      ensures |r| == size && forall k :: 0 <= k < size ==> r[k] == ByteAt(St(), i, p + k)
    {
      var k, z := p / BLOCK_SIZE, 0;
      if k < DIRECT {
        z := inodes[i].zones[k];
      } else if inodes[i].zones[DIRECT] != 0 {
        assert RefOf(St(), i, INDIRECT) == inodes[i].zones[DIRECT];
        z := Entry(blocks[inodes[i].zones[DIRECT]], k - DIRECT);
      }
      assert z == RefOf(St(), i, k);
      r := if z == 0 then seq(size, _ => 0) else blocks[z][p % BLOCK_SIZE..p % BLOCK_SIZE + size];
      forall m | 0 <= m < size ensures r[m] == ByteAt(St(), i, p + m) {
        SameBlock(p, p + m, size);
      }
    }

    // free_block ignores numbers outside the data zones.
    method FreeBlock(z: nat)
      requires Shaped(St())
      modifies `used
      ensures used == if first <= z < |old(used)| then old(used)[z := false] else old(used)
    {
      if first <= z < |used| {
        used := used[z := false];
      }
    }

    // truncate_inode
    method Truncate(i: nat)
      requires Tidy(St()) && i < |inodes|
      modifies this
      ensures Tidy(St()) && (old(TailIsZero(St())) ==> TailIsZero(St()))
      ensures OthersSame(old(St()), St(), i) && i < |inodes| && FileOf(St(), i) == []
      ensures Freed(old(St()), i, SLOTS, used) && blocks == old(blocks)
      ensures FreeAreZero(St()) <==> old(FreeAreZero(St()) && ZonesAreZero(St(), i))
    {
      ghost var was := St();
      hide Marked, Separate, TailIsZero, FreeAreZero, Freed;
      assert Freed(was, i, 0, used) by {
        FreedNone(was, i);
      }
      var k := 0;
      while k < DIRECT
        invariant k <= DIRECT && blocks == was.blocks && inodes == was.inodes
                  && |used| == |was.used| && Freed(was, i, k, used)
      {
        FreeRef(was, i, k, inodes[i].zones[k]);
        k := k + 1;
      }
      var ib := inodes[i].zones[DIRECT];
      while k < MAX_ZONES
        invariant DIRECT <= k <= MAX_ZONES && blocks == was.blocks && inodes == was.inodes
                  && |used| == |was.used| && Freed(was, i, k, used)
      {
        InRange(was, i);
        FreeRef(was, i, k, if ib == 0 then 0 else Entry(blocks[ib], k - DIRECT));
        k := k + 1;
      }
      FreeRef(was, i, INDIRECT, ib);
      inodes := inodes[i := Inode(seq(DIRECT + 1, _ => 0), 0)];
      TruncateKeeps(was, i, used);
    }

    // One reference of the file is given back.
    method FreeRef(ghost was: Fs, i: nat, s: nat, z: nat)
      requires Shaped(was) && Marked(was) && Freed(was, i, s, used) && z == RefOf(was, i, s)
      requires first == was.first && Shaped(St())
      modifies `used
      ensures Freed(was, i, s + 1, used) && |used| == |old(used)|
    {
      FreedOneMore(was, i, s, used);
      if z != 0 {
        FreeBlock(z);
      }
    }
  }
}
