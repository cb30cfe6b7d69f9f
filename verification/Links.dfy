/** Doubly linked lists threaded through arrays of indices: the hash chains and the free
    ring of the buffer cache.  A ghost sequence names the members in order. */
module Links {
  import opened Layout

  predicate Distinct(c: seq<nat>) {
    forall i, j :: 0 <= i < j < |c| ==> c[i] != c[j]
  }

  predicate Within(c: seq<nat>, n: nat) {
    forall i :: 0 <= i < |c| ==> c[i] < n
  }

  // ---------------------------------------------------------------------
  // Chains that end in NULL at both sides
  // ---------------------------------------------------------------------

  function Succ(c: seq<nat>, i: nat): Option<nat> {
    if i + 1 < |c| then Some(c[i + 1]) else None
  }

  function Pred(c: seq<nat>, i: nat): Option<nat>
    requires i <= |c|
  {
    if i > 0 then Some(c[i - 1]) else None
  }

  // The links of member i of c point at its neighbours in c.
  predicate Joined(next: seq<Option<nat>>, prev: seq<Option<nat>>, c: seq<nat>, i: nat)
    requires i < |c|
  {
    c[i] < |next| && c[i] < |prev| && next[c[i]] == Succ(c, i) && prev[c[i]] == Pred(c, i)
  }

  // The links of the members of c spell c.
  ghost predicate Spells(next: seq<Option<nat>>, prev: seq<Option<nat>>, c: seq<nat>) {
    && |next| == |prev| && Within(c, |next|) && Distinct(c)
    && forall i: nat :: i < |c| ==> Joined(next, prev, c, i)
  }

  function First(c: seq<nat>): Option<nat> {
    if c == [] then None else Some(c[0])
  }

  function Without(c: seq<nat>, i: nat): (r: seq<nat>)
    requires i < |c|
    ensures |r| == |c| - 1
    ensures forall k :: 0 <= k < |r| ==> r[k] == if k < i then c[k] else c[k + 1]
  {
    c[..i] + c[i + 1..]
  }

  lemma WithoutMembers(c: seq<nat>, i: nat)
    requires Distinct(c) && i < |c|
    ensures forall x :: x in Without(c, i) <==> x in c && x != c[i]
  {
  }

  // Distinct numbers below their number are all of them.
  lemma {:induction false} AllInRing(ring: seq<nat>, n: nat, i: nat)
    requires |ring| == n && Distinct(ring) && Within(ring, n) && i < n
    ensures i in ring
    decreases n
  {
    var top := n - 1;
    if n == 1 {
      assert ring[0] == i;
    } else if top in ring {
      var k: nat :| k < |ring| && ring[k] == top;
      var rest := Without(ring, k);
      WithoutMembers(ring, k);
      assert Distinct(rest);
      assert forall m :: 0 <= m < |rest| ==> rest[m] in rest;
      if i != top {
        AllInRing(rest, top, i);
      }
    } else {
      AllInRing(ring[1..], top, ring[0]);
      assert false;
    }
  }

  // b->b_prev->b_next = b->b_next
  function UnlinkNext(next: seq<Option<nat>>, prev: seq<Option<nat>>, b: nat): (r: seq<Option<nat>>)
    requires b < |next| == |prev|
    ensures |r| == |next|
  {
    if prev[b].Some? && prev[b].value < |next| then next[prev[b].value := next[b]] else next
  }

  // b->b_next->b_prev = b->b_prev
  function UnlinkPrev(next: seq<Option<nat>>, prev: seq<Option<nat>>, b: nat): (r: seq<Option<nat>>)
    requires b < |next| == |prev|
    ensures |r| == |prev|
  {
    if next[b].Some? && next[b].value < |prev| then prev[next[b].value := prev[b]] else prev
  }

  lemma UnlinkSpells(next: seq<Option<nat>>, prev: seq<Option<nat>>, c: seq<nat>, i: nat)
    requires Spells(next, prev, c) && i < |c|
    ensures Spells(UnlinkNext(next, prev, c[i]), UnlinkPrev(next, prev, c[i]), Without(c, i))
  {
    var d := Without(c, i);
    var n, p := UnlinkNext(next, prev, c[i]), UnlinkPrev(next, prev, c[i]);
    assert Joined(next, prev, c, i);
    forall k: nat | k < |d| ensures Joined(n, p, d, k) {
      assert Joined(next, prev, c, if k < i then k else k + 1);
    }
  }

  // Another chain is not disturbed.
  lemma UnlinkElsewhere(next: seq<Option<nat>>, prev: seq<Option<nat>>, c: seq<nat>, i: nat, d: seq<nat>)
    requires Spells(next, prev, c) && i < |c| && Spells(next, prev, d)
    requires forall x :: x in c ==> x !in d
    ensures Spells(UnlinkNext(next, prev, c[i]), UnlinkPrev(next, prev, c[i]), d)
  {
    assert Joined(next, prev, c, i);
    assert forall m :: 0 <= m < |c| ==> c[m] in c;
    forall k: nat | k < |d|
      ensures Joined(UnlinkNext(next, prev, c[i]), UnlinkPrev(next, prev, c[i]), d, k)
    {
      assert Joined(next, prev, d, k) && d[k] in d;
    }
  }

  // The links after b, a member of no chain, is put in front of the chain headed by h.
  function PushNext(next: seq<Option<nat>>, b: nat, h: Option<nat>): (r: seq<Option<nat>>)
    requires b < |next|
    ensures |r| == |next|
  {
    next[b := h]
  }

  function PushPrev(prev: seq<Option<nat>>, b: nat, h: Option<nat>): (r: seq<Option<nat>>)
    requires b < |prev|
    ensures |r| == |prev|
  {
    if h.Some? && h.value < |prev| then prev[b := None][h.value := Some(b)] else prev[b := None]
  }

  lemma PushSpells(next: seq<Option<nat>>, prev: seq<Option<nat>>, c: seq<nat>, b: nat)
    requires Spells(next, prev, c) && b < |next| && b !in c
    ensures Spells(PushNext(next, b, First(c)), PushPrev(prev, b, First(c)), [b] + c)
  {
    var d := [b] + c;
    var n, p := PushNext(next, b, First(c)), PushPrev(prev, b, First(c));
    forall k: nat | k < |d| ensures Joined(n, p, d, k) {
      if k > 0 {
        assert Joined(next, prev, c, k - 1);
      }
    }
  }

  lemma PushElsewhere(next: seq<Option<nat>>, prev: seq<Option<nat>>, c: seq<nat>, b: nat, d: seq<nat>)
    requires Spells(next, prev, c) && b < |next| && Spells(next, prev, d) && b !in d
    requires forall x :: x in c ==> x !in d
    ensures Spells(PushNext(next, b, First(c)), PushPrev(prev, b, First(c)), d)
  {
    assert c != [] ==> c[0] in c;
    forall k: nat | k < |d|
      ensures Joined(PushNext(next, b, First(c)), PushPrev(prev, b, First(c)), d, k)
    {
      assert Joined(next, prev, d, k) && d[k] in d;
    }
  }

  // ---------------------------------------------------------------------
  // The ring
  // ---------------------------------------------------------------------

  function After(n: nat, i: nat): nat
    requires i < n
  {
    if i + 1 == n then 0 else i + 1
  }

  // Member i of r and its successor in the circle point at each other.
  predicate Coupled(next: seq<nat>, prev: seq<nat>, r: seq<nat>, i: nat)
    requires i < |r|
  {
    var j := After(|r|, i);
    r[i] < |next| && r[j] < |prev| && next[r[i]] == r[j] && prev[r[j]] == r[i]
  }

  ghost predicate AllCoupled(next: seq<nat>, prev: seq<nat>, r: seq<nat>) {
    forall i: nat :: i < |r| ==> Coupled(next, prev, r, i)
  }

  // The ring links lead from r[0] once through all buffers and back.
  ghost predicate Circles(next: seq<nat>, prev: seq<nat>, r: seq<nat>) {
    |next| == |prev| == |r| && Within(r, |r|) && Distinct(r) && AllCoupled(next, prev, r)
  }

  // brelse takes b = r[i] out and puts it behind the head, which it then becomes.
  function Rotate(r: seq<nat>, i: nat): (q: seq<nat>)
    requires 0 < i < |r|
    ensures |q| == |r|
    ensures q[0] == r[i] && q[|q| - 1] == r[0]
    ensures forall k :: 0 < k < |q| - 1 ==> q[k] == Without(r, i)[k]
  {
    [r[i]] + r[1..i] + r[i + 1..] + [r[0]]
  }

  // The four assignments that take b out of the ring ...
  function CutNext(next: seq<nat>, prev: seq<nat>, b: nat): seq<nat>
    requires b < |next| == |prev| && prev[b] < |next|
  {
    next[prev[b] := next[b]]
  }

  function CutPrev(next: seq<nat>, prev: seq<nat>, b: nat): seq<nat>
    requires b < |next| == |prev| && next[b] < |prev|
  {
    prev[next[b] := prev[b]]
  }

  // ... and the ones that put it behind head h.
  function PasteNext(next: seq<nat>, h: nat, b: nat): seq<nat>
    requires b < |next| && h < |next|
  {
    next[b := next[h]][h := b]
  }

  function PastePrev(next: seq<nat>, prev: seq<nat>, h: nat, b: nat): seq<nat>
    requires b < |prev| == |next| && h < |next| && next[h] < |prev|
  {
    prev[b := h][next[h] := b]
  }

  // With r[i] cut out, the others are a circle.
  lemma CutCouples(next: seq<nat>, prev: seq<nat>, r: seq<nat>, i: nat)
    requires Circles(next, prev, r) && 0 < i < |r|
    ensures prev[r[i]] < |next| && next[r[i]] < |prev|
    ensures AllCoupled(CutNext(next, prev, r[i]), CutPrev(next, prev, r[i]), Without(r, i))
  {
    assert Coupled(next, prev, r, i) && Coupled(next, prev, r, i - 1);
    var n, p := CutNext(next, prev, r[i]), CutPrev(next, prev, r[i]);
    forall k: nat | k < |r| - 1 ensures Coupled(n, p, Without(r, i), k) {
      assert Coupled(next, prev, r, if k < i then k else k + 1);
    }
  }

  // Put behind the head of the circle, it is the last member: counted from there, the first.
  lemma PasteCircles(next: seq<nat>, prev: seq<nat>, r: seq<nat>, i: nat)
    requires 0 < i < |r| == |next| == |prev| && Within(r, |r|) && Distinct(r)
    requires AllCoupled(next, prev, Without(r, i))
    ensures next[r[0]] < |prev|
    ensures Circles(PasteNext(next, r[0], r[i]), PastePrev(next, prev, r[0], r[i]), Rotate(r, i))
  {
    var d, q := Without(r, i), Rotate(r, i);
    assert Coupled(next, prev, d, 0);
    var n, p := PasteNext(next, r[0], r[i]), PastePrev(next, prev, r[0], r[i]);
    forall k: nat | k < |q| ensures Coupled(n, p, q, k) {
      if 0 < k < |q| - 1 {
        PasteInside(next, prev, r, i, k);
      }
    }
  }

  lemma PasteInside(next: seq<nat>, prev: seq<nat>, r: seq<nat>, i: nat, k: nat)
    requires 0 < i < |r| == |next| == |prev| && Within(r, |r|) && Distinct(r) && 0 < k < |r| - 1
    requires Coupled(next, prev, Without(r, i), 0) && Coupled(next, prev, Without(r, i), k)
    ensures Coupled(PasteNext(next, r[0], r[i]), PastePrev(next, prev, r[0], r[i]), Rotate(r, i), k)
  {
  }
}
