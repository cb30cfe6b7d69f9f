/** The user-mode heap (user/lib.c): chunks with an 8-byte header, bumped off the top of the
    heap region, given out again first fit from a singly linked free list, never split. */
module UserHeap {
  import opened Layout
  import L = Links

  const HEADER: nat := 8

  // (size + 7) & ~7 in 32 bits, and at least 8.
  function Rounded(size: nat): (r: nat)
    ensures r >= 8 && r % 8 == 0
  {
    var r := (size + 7) % WORD / 8 * 8;
    if r == 0 then 8 else r
  }

  // The block is large enough exactly when the rounding does not wrap.
  lemma RoundedCoversIff(size: nat)
    requires size < WORD
    ensures Rounded(size) >= size <==> size + 7 < WORD
  {
  }

  // The test before a bump, in 32 bits.
  predicate Bumps(top: nat, size: nat) {
    Add32(Add32(top, HEADER), size) <= USER_HEAP_END
  }

  // It says whether the chunk fits exactly when the sum does not wrap to a small number.
  lemma BumpsIff(top: nat, size: nat)
    requires USER_HEAP_START <= top <= USER_HEAP_END && size < WORD
    ensures (Bumps(top, size) <==> top + HEADER + size <= USER_HEAP_END) <==>
            (top + HEADER + size < WORD || top + HEADER + size - WORD > USER_HEAP_END)
  {
  }

  lemma RoundedFits(size: nat)
    requires size < WORD
    ensures Rounded(size) <= WORD - 8
    ensures size + 7 >= WORD ==> Rounded(size) == 8
  {
  }

  lemma NoBump(top: nat, size: nat)
    requires USER_HEAP_START <= top <= USER_HEAP_END && size < WORD && !Bumps(top, size)
    ensures top + HEADER + size > USER_HEAP_END && !(WORD <= top + HEADER + size <= WORD + USER_HEAP_END)
  {
  }

  // ---------------------------------------------------------------------
  // The chunks
  // ---------------------------------------------------------------------

  // The chunks in address order, their sizes, the free list and the top of the heap.
  datatype Heap = Heap(chunks: seq<nat>, size: map<nat, nat>, free: seq<nat>, top: nat)

  // Where the chunk after chunk i starts.
  function EndOf(h: Heap, i: nat): nat
    requires i < |h.chunks| && h.chunks[i] in h.size
  {
    h.chunks[i] + HEADER + h.size[h.chunks[i]]
  }

  ghost predicate Sized(h: Heap) {
    forall i: nat :: i < |h.chunks| ==>
      h.chunks[i] in h.size && h.size[h.chunks[i]] >= 8 && h.size[h.chunks[i]] % 8 == 0
  }

  // Chunk i starts where the one before it ends, the first at the bottom, the last ends at the top.
  ghost predicate Tiles(h: Heap)
    requires Sized(h)
  {
    && USER_HEAP_START <= h.top <= USER_HEAP_END
    && (h.chunks == [] ==> h.top == USER_HEAP_START)
    && (h.chunks != [] ==> h.chunks[0] == USER_HEAP_START && EndOf(h, |h.chunks| - 1) == h.top)
    && forall i: nat :: i + 1 < |h.chunks| ==> h.chunks[i + 1] == EndOf(h, i)
  }

  // The free list names chunks, each once.
  ghost predicate FreeOk(h: Heap) {
    && (forall i :: 0 <= i < |h.free| ==> h.free[i] in h.chunks)
    && (forall i, j :: 0 <= i < j < |h.free| ==> h.free[i] != h.free[j])
  }

  ghost predicate Inv(h: Heap) {
    Sized(h) && Tiles(h) && FreeOk(h)
  }

  ghost predicate Live(h: Heap, c: nat) {
    c in h.chunks && c !in h.free
  }

  // A chunk ends where a later one starts, or before.
  lemma {:induction false} ChunksApart(h: Heap, i: nat, j: nat)
    requires Sized(h) && Tiles(h) && i < j < |h.chunks|
    ensures EndOf(h, i) <= h.chunks[j]
    decreases j
  {
    if j > i + 1 {
      ChunksApart(h, i, j - 1);
      assert h.chunks[j - 1 + 1] == EndOf(h, j - 1);
    }
  }

  lemma {:induction false} ChunkInRange(h: Heap, i: nat)
    requires Sized(h) && Tiles(h) && i < |h.chunks|
    ensures USER_HEAP_START <= h.chunks[i] && EndOf(h, i) <= h.top && h.chunks[i] % 8 == 0
    decreases i
  {
    if i > 0 {
      ChunkInRange(h, i - 1);
      assert h.chunks[i - 1 + 1] == EndOf(h, i - 1);
    }
    if i < |h.chunks| - 1 {
      ChunksApart(h, i, |h.chunks| - 1);
    }
  }

  // The blocks of two live chunks share no byte; a block is 8-aligned and inside the heap.
  lemma LiveBlocksDisjoint(h: Heap, c: nat, d: nat)
    requires Inv(h) && Live(h, c) && Live(h, d) && c != d
    ensures c in h.size && d in h.size
    ensures c + HEADER + h.size[c] <= d || d + HEADER + h.size[d] <= c
  {
    var i: nat :| i < |h.chunks| && h.chunks[i] == c;
    var j: nat :| j < |h.chunks| && h.chunks[j] == d;
    if i < j {
      ChunksApart(h, i, j);
    } else {
      ChunksApart(h, j, i);
    }
  }

  lemma LiveBlockInRange(h: Heap, c: nat)
    requires Inv(h) && Live(h, c)
    ensures c in h.size && (c + HEADER) % 8 == 0
    ensures USER_HEAP_START < c + HEADER && c + HEADER + h.size[c] <= h.top <= USER_HEAP_END
  {
    var i: nat :| i < |h.chunks| && h.chunks[i] == c;
    ChunkInRange(h, i);
  }

  // ---------------------------------------------------------------------
  // The free list
  // ---------------------------------------------------------------------

  // The member at position i, NULL past the end.
  function At(free: seq<nat>, i: nat): nat {
    if i < |free| then free[i] else 0
  }

  // The link of member i points at the next one.
  predicate Linked(next: map<nat, nat>, free: seq<nat>, i: nat)
    requires i < |free|
  {
    free[i] != 0 && free[i] in next && next[free[i]] == At(free, i + 1)
  }

  ghost predicate Spells(next: map<nat, nat>, free: seq<nat>) {
    forall i: nat :: i < |free| ==> Linked(next, free, i)
  }

  // The position of the first free chunk from i on of at least n bytes, |free| if there is none.
  function FirstFit(size: map<nat, nat>, free: seq<nat>, n: nat, i: nat): (r: nat)
    requires i <= |free|
    ensures i <= r <= |free| && (r < |free| ==> free[r] in size && size[free[r]] >= n)
    ensures forall k :: i <= k < r ==> !(free[k] in size && size[free[k]] >= n)
    decreases |free| - i
  {
    if i == |free| || (free[i] in size && size[free[i]] >= n) then i else FirstFit(size, free, n, i + 1)
  }

  // Taking member i out: its predecessor, if any, takes over its link.
  lemma UnlinkSpells(h: Heap, next: map<nat, nat>, i: nat)
    requires FreeOk(h) && Spells(next, h.free) && i < |h.free|
    ensures h.free[i] in next && At(h.free, i + 1) == next[h.free[i]]
    ensures Spells(if i == 0 then next else next[h.free[i - 1] := next[h.free[i]]], L.Without(h.free, i))
  {
    assert Linked(next, h.free, i);
    var r, n := L.Without(h.free, i), if i == 0 then next else next[h.free[i - 1] := next[h.free[i]]];
    forall k: nat | k < |r| ensures Linked(n, r, k) {
      assert Linked(next, h.free, if k < i then k else k + 1);
    }
  }

  lemma PushSpells(h: Heap, next: map<nat, nat>, c: nat)
    requires Spells(next, h.free) && c !in h.free && c != 0
    ensures Spells(next[c := At(h.free, 0)], [c] + h.free)
  {
    var r, n := [c] + h.free, next[c := At(h.free, 0)];
    forall k: nat | k < |r| ensures Linked(n, r, k) {
      if k > 0 {
        assert Linked(next, h.free, k - 1);
      }
    }
  }

  lemma TakeKeepsInv(h: Heap, i: nat)
    requires Inv(h) && i < |h.free|
    ensures Inv(h.(free := L.Without(h.free, i)))
    ensures forall c :: Live(h.(free := L.Without(h.free, i)), c) <==> Live(h, c) || c == h.free[i]
  {
    var g := h.(free := L.Without(h.free, i));
    assert Sized(g) && Tiles(g) by {
      assert forall k: nat :: k < |h.chunks| ==> EndOf(g, k) == EndOf(h, k);
    }
    forall c ensures c in g.free <==> c in h.free && c != h.free[i] {
      if c in h.free && c != h.free[i] {
        var k: nat :| k < |h.free| && h.free[k] == c;
        assert g.free[if k < i then k else k - 1] == c;
      }
    }
  }

  lemma GiveKeepsInv(h: Heap, c: nat)
    requires Inv(h) && Live(h, c)
    ensures Inv(h.(free := [c] + h.free))
    ensures forall d :: Live(h.(free := [c] + h.free), d) <==> Live(h, d) && d != c
  {
    var g := h.(free := [c] + h.free);
    assert forall k: nat :: k < |h.chunks| ==> EndOf(g, k) == EndOf(h, k);
  }

  // A new chunk of that size on top.
  function Grown(h: Heap, n: nat): Heap {
    h.(chunks := h.chunks + [h.top], size := h.size[h.top := n], top := h.top + HEADER + n)
  }

  lemma GrowKeepsInv(h: Heap, n: nat)
    requires Inv(h) && n >= 8 && n % 8 == 0 && h.top + HEADER + n <= USER_HEAP_END
    ensures Inv(Grown(h, n)) && h.top !in h.chunks
    ensures forall c :: Live(Grown(h, n), c) <==> Live(h, c) || c == h.top
  {
    var g := Grown(h, n);
    forall i: nat | i < |h.chunks| ensures h.chunks[i] < h.top {
      ChunkInRange(h, i);
    }
    assert forall k: nat :: k < |h.chunks| ==> EndOf(g, k) == EndOf(h, k);
    forall i: nat | i + 1 < |g.chunks| ensures g.chunks[i + 1] == EndOf(g, i) {
      if i + 1 < |h.chunks| {
        assert h.chunks[i + 1] == EndOf(h, i);
      }
    }
  }

  lemma FreeIsNotLive(h: Heap, c: nat)
    requires c in h.free
    ensures !Live(h, c)
  {
  }

  // Where in the free list a request for n bytes finds its chunk, |free| if nowhere.
  function Fit(h: Heap, n: nat): nat {
    FirstFit(h.size, h.free, n, 0)
  }

  // The new top wraps to an address below the end of the heap.
  predicate TopWraps(top: nat, n: nat) {
    WORD <= top + HEADER + n <= WORD + USER_HEAP_END
  }

  // No free chunk will do, and the new top wraps.
  predicate Wraps(h: Heap, n: nat) {
    Fit(h, n) == |h.free| && TopWraps(h.top, n)
  }

  // No chunk is larger than the heap.
  lemma ChunkBounds(h: Heap)
    requires Inv(h)
    ensures USER_HEAP_START <= h.top <= USER_HEAP_END
    ensures forall c :: c in h.chunks ==> c in h.size && h.size[c] <= USER_HEAP_END
  {
    forall c | c in h.chunks ensures c in h.size && h.size[c] <= USER_HEAP_END {
      var i: nat :| i < |h.chunks| && h.chunks[i] == c;
      ChunkInRange(h, i);
    }
  }

  // Chunk c has become live; the live chunks before are live still, with their sizes.
  ghost predicate OneMoreLive(a: Heap, b: Heap, c: nat) {
    && !Live(a, c) && c in b.size
    && (forall d :: Live(b, d) <==> Live(a, d) || d == c)
    && (forall d :: Live(a, d) ==> d in a.size && d in b.size && b.size[d] == a.size[d])
  }

  lemma LiveAreSized(h: Heap)
    requires Inv(h)
    ensures forall c :: Live(h, c) ==> c in h.size
  {
  }

  // A chunk of the rounded size is large enough exactly when the rounding does not wrap.
  lemma BlockCovers(h: Heap, c: nat, bytes: nat)
    requires Inv(h) && c in h.chunks && c in h.size && h.size[c] >= Rounded(bytes) && bytes < WORD
    ensures h.size[c] >= bytes <==> bytes + 7 < WORD
  {
    ChunkBounds(h);
    RoundedCoversIff(bytes);
  }

  // A chunk that reaches past the end of memory does not end at the top.
  lemma WrappedIsNotHeap(h: Heap, n: nat)
    requires Inv(h) && h.top + HEADER + n >= WORD
    ensures var g := Heap(h.chunks + [h.top], h.size[h.top := n], h.free, Add32(Add32(h.top, HEADER), n)); !Inv(g)
  {
  }

  class Allocator {
    var size: map<nat, nat>
    var next: map<nat, nat>
    var freeList: nat
    var heapTop: nat
    ghost var chunks: seq<nat>
    ghost var free: seq<nat>

    ghost function St(): Heap
      reads this
    {
      Heap(chunks, size, free, heapTop)
    }

    ghost predicate Valid()
      reads this
    {
      Inv(St()) && Spells(next, free) && freeList == At(free, 0)
    }

    constructor ()
      ensures Valid() && forall c :: !Live(St(), c)
    {
      size, next, freeList, heapTop := map[], map[], 0, USER_HEAP_START;
      chunks, free := [], [];
    }

    // A block for `bytes` bytes, NULL if neither a free chunk nor the rest of the heap will do.
    // The heap stays valid exactly when the top does not wrap around, and a block is large enough
    // exactly when its rounded size does not.
    method Malloc(bytes: nat) returns (p: nat)
      requires Valid() && bytes < WORD
      modifies this
      ensures Valid() <==> !old(Wraps(St(), Rounded(bytes)))
      ensures p == 0 ==> St() == old(St()) && heapTop + HEADER + Rounded(bytes) > USER_HEAP_END
      ensures p == 0 ==> Fit(St(), Rounded(bytes)) == |free|
      ensures p != 0 ==> p - HEADER == var j := old(Fit(St(), Rounded(bytes)));
                                       if j < |old(free)| then old(free)[j] else old(heapTop)
      ensures Valid() && p != 0 ==> p >= HEADER && OneMoreLive(old(St()), St(), p - HEADER)
      ensures Valid() && p != 0 ==> p - HEADER in size && (size[p - HEADER] >= bytes <==> bytes + 7 < WORD)
    {
      var n := Rounded(bytes);
      RoundedFits(bytes);
      hide Inv, Spells, Rounded, Fit, OneMoreLive, TopWraps, At;
      p := Reuse(n);
      if p != 0 {
        BlockCovers(St(), p - HEADER, bytes);
        return;
      }
      p := Extend(n);
      if p != 0 && Valid() {
        BlockCovers(St(), p - HEADER, bytes);
      }
    }

    // The first fit leaves the free list; NULL: there is none.
    method Reuse(n: nat) returns (p: nat)
      requires Valid()
      modifies `next, `freeList, `free
      ensures Valid()
      ensures p == 0 ==> St() == old(St()) && Fit(St(), n) == |free|
      ensures p != 0 ==>
                && old(Fit(St(), n)) < |old(free)| && p - HEADER == old(free)[old(Fit(St(), n))]
                && p - HEADER in chunks && p - HEADER in size && size[p - HEADER] >= n
      ensures p != 0 ==> p >= HEADER && OneMoreLive(old(St()), St(), p - HEADER)
    {
      var prev, c := FindFit(n);
      ghost var j := FirstFit(size, free, n, 0);
      if c == 0 {
        return 0;
      }
      FreeIsNotLive(St(), c);
      LiveAreSized(St());
      assert c in chunks && c in size;
      hide Inv, Spells, Live, FirstFit;
      TakeOut(prev, c, j);
      return c + HEADER;
    }

    // The bump: NULL if the test finds no room above the top.
    method Extend(n: nat) returns (p: nat)
      requires Valid() && 8 <= n < WORD && n % 8 == 0
      modifies `heapTop, `size, `chunks
      ensures Valid() <==> !TopWraps(old(heapTop), n)
      ensures p == 0 ==> St() == old(St()) && heapTop + HEADER + n > USER_HEAP_END
      ensures p != 0 ==> p == old(heapTop) + HEADER
      ensures Valid() && p != 0 ==> OneMoreLive(old(St()), St(), p - HEADER)
      ensures p != 0 ==> p - HEADER in chunks && p - HEADER in size && size[p - HEADER] == n
    {
      ChunkBounds(St());
      LiveAreSized(St());
      if Add32(Add32(heapTop, HEADER), n) > USER_HEAP_END {
        NoBump(heapTop, n);
        return 0;
      }
      BumpsIff(heapTop, n);
      hide Inv, Spells, Live;
      var c := Bump(n);
      return c + HEADER;
    }

    method Bump(n: nat) returns (c: nat)
      requires Valid() && 8 <= n < WORD && n % 8 == 0 && Bumps(heapTop, n)
      modifies `heapTop, `size, `chunks
      ensures c == old(heapTop) && c > 0 && c in chunks && c in size && size[c] == n
      ensures Valid() <==> old(heapTop) + HEADER + n <= USER_HEAP_END
      ensures Valid() ==> St() == old(Grown(St(), n)) && !old(Live(St(), c))
      ensures Valid() ==> forall d :: Live(St(), d) <==> old(Live(St(), d)) || d == c
    {
      c := heapTop;
      ChunkBounds(St());
      BumpsIff(c, n);
      ghost var was := St();
      if c + HEADER + n <= USER_HEAP_END {
        GrowKeepsInv(St(), n);
      } else {
        WrappedIsNotHeap(St(), n);
      }
      hide Inv, Spells;
      heapTop := Add32(Add32(heapTop, HEADER), n);
      size := size[c := n];
      chunks := chunks + [c];
    }

    // The first free chunk of at least n bytes and the one before it; NULL: none.
    method FindFit(n: nat) returns (prev: nat, c: nat)
      requires Valid()
      ensures var j := FirstFit(size, free, n, 0); c == At(free, j) && prev == if j == 0 then 0 else free[j - 1]
      ensures c == 0 <==> FirstFit(size, free, n, 0) == |free|
    {
      prev, c := 0, freeList;
      ghost var j: nat := 0;
      while c != 0
        invariant j <= |free| && c == At(free, j) && prev == if j == 0 then 0 else free[j - 1]
        invariant FirstFit(size, free, n, 0) == FirstFit(size, free, n, j)
        decreases |free| - j
      {
        assert Linked(next, free, j) && free[j] in chunks;
        if size[c] >= n {
          return;
        }
        prev, c := c, next[c];
        j := j + 1;
      }
      assert j < |free| ==> Linked(next, free, j);
    }

    // The chunk at position j leaves the free list.
    method TakeOut(prev: nat, c: nat, ghost j: nat)
      requires Valid() && j < |free| && c == free[j] && prev == if j == 0 then 0 else free[j - 1]
      modifies `next, `freeList, `free
      ensures Valid() && free == L.Without(old(free), j)
      ensures forall d :: Live(St(), d) <==> old(Live(St(), d)) || d == c
    {
      UnlinkSpells(St(), next, j);
      TakeKeepsInv(St(), j);
      assert j > 0 ==> Linked(next, free, j - 1);
      hide Inv, Spells;
      if prev != 0 {
        next := next[prev := next[c]];
      } else {
        freeList := next[c];
      }
      free := L.Without(free, j);
    }

    // A live block goes to the front of the free list; freeing NULL does nothing.
    method Free(p: nat)
      requires Valid() && (p != 0 ==> p >= HEADER && Live(St(), p - HEADER))
      modifies this
      ensures Valid() && size == old(size) && heapTop == old(heapTop) && chunks == old(chunks)
      ensures free == if p == 0 then old(free) else [p - HEADER] + old(free)
      ensures forall c :: Live(St(), c) <==> old(Live(St(), c)) && (p != 0 ==> c != p - HEADER)
    {
      if p == 0 {
        return;
      }
      var c := p - HEADER;
      LiveBlockInRange(St(), c);
      GiveKeepsInv(St(), c);
      PushSpells(St(), next, c);
      next := next[c := freeList];
      freeList := c;
      free := [c] + free;
    }
  }
}
