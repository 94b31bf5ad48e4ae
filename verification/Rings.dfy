/** The theory of rings: what the pointers of list.h mean, independent of any operation.

    A heap of list heads is a pair of maps, `next` and `prev`. Its abstract value is a map from
    roots to the sequence of nodes that follow each root. */
module Rings {

  class ListHead {
    var next: ListHead
    var prev: ListHead

    /** A list head declared with DECLARE_LIST: an empty list. */
    constructor ()
      ensures next == this && prev == this
    {
      next := this;
      prev := this;
    }
  }

  datatype Ptrs = Ptrs(next: map<ListHead, ListHead>, prev: map<ListHead, ListHead>)

  /** The pointers of the list heads in `d`. */
  ghost function Heap(d: set<ListHead>): (p: Ptrs)
    reads d
    ensures p.next.Keys == p.prev.Keys == d
  {
    Ptrs(map n | n in d :: n.next, map n | n in d :: n.prev)
  }

  ghost predicate Distinct<T>(c: seq<T>) {
    forall i, j :: 0 <= i < j < |c| ==> c[i] != c[j]
  }

  ghost predicate Link(p: Ptrs, a: ListHead, b: ListHead) {
    a in p.next && b in p.prev && p.next[a] == b && p.prev[b] == a
  }

  /** `c` lists one ring in `next` order; the last node is linked back to the first. */
  ghost predicate IsRing(p: Ptrs, c: seq<ListHead>) {
    && c != []
    && Distinct(c)
    && (forall i, j :: 0 <= i && j == i + 1 && j < |c| ==> Link(p, c[i], c[j]))
    && Link(p, c[|c| - 1], c[0])
  }

  /** The abstract value: every root with the nodes that follow it, in order. */
  type Rings = map<ListHead, seq<ListHead>>

  ghost function Cycle(m: Rings, k: ListHead): seq<ListHead>
    requires k in m
  {
    [k] + m[k]
  }

  ghost function Nodes(m: Rings): set<ListHead> {
    set k, n | k in m && n in Cycle(m, k) :: n
  }

  /** No node occurs twice, neither within a ring nor in two rings. */
  ghost predicate Disjoint(m: Rings) {
    && (forall k :: k in m ==> Distinct(Cycle(m, k)))
    && (forall k, l, n :: k in m && l in m && k != l && n in Cycle(m, k) ==> n !in Cycle(m, l))
  }

  /** The heap holds the rings of `m`. */
  ghost predicate World(p: Ptrs, m: Rings) {
    && Disjoint(m)
    && (forall k :: k in m ==> IsRing(p, Cycle(m, k)))
  }

  /** At `n`, `next` and `prev` undo each other and stay in `d`. */
  ghost predicate Mutual(p: Ptrs, d: set<ListHead>, n: ListHead) {
    && n in p.next && p.next[n] in d && p.next[n] in p.prev && p.prev[p.next[n]] == n
    && n in p.prev && p.prev[n] in d && p.prev[n] in p.next && p.next[p.prev[n]] == n
  }

  /** The local invariant of a set of list heads. */
  ghost predicate Linked(p: Ptrs, d: set<ListHead>) {
    forall n {:trigger Mutual(p, d, n)} :: n in d ==> Mutual(p, d, n)
  }

  // ---- positions ----

  ghost function At(c: seq<ListHead>, n: ListHead): (i: nat)
    requires n in c
    ensures i < |c| && c[i] == n
  {
    var i :| 0 <= i < |c| && c[i] == n;
    i
  }

  ghost function Owner(m: Rings, n: ListHead): (k: ListHead)
    requires n in Nodes(m)
    ensures k in m && n in Cycle(m, k)
  {
    var k :| k in m && n in Cycle(m, k);
    k
  }

  ghost function Next<T>(c: seq<T>, i: nat): (n: T)
    requires i < |c|
    ensures n in c
  {
    if i + 1 < |c| then c[i + 1] else c[0]
  }

  ghost function Prev<T>(c: seq<T>, i: nat): (n: T)
    requires i < |c|
    ensures n in c
  {
    if i > 0 then c[i - 1] else c[|c| - 1]
  }

  ghost function Elems<T>(c: seq<T>): set<T> {
    set x | x in c
  }

  ghost function InsertAt<T>(c: seq<T>, i: nat, x: T): (d: seq<T>)
    requires i <= |c|
    ensures Elems(d) == Elems(c) + {x}
  {
    assert c == c[..i] + c[i..];
    c[..i] + [x] + c[i..]
  }

  ghost function RemoveAt<T>(c: seq<T>, i: nat): (d: seq<T>)
    requires i < |c|
    ensures Distinct(c) ==> Elems(d) == Elems(c) - {c[i]}
  {
    assert c == c[..i] + [c[i]] + c[i + 1..];
    c[..i] + c[i + 1..]
  }

  /** Editing behind the first element. */
  lemma ConsEdits<T>(x: T, s: seq<T>, i: nat, y: T)
    requires i <= |s|
    ensures InsertAt([x] + s, i + 1, y) == [x] + InsertAt(s, i, y)
    ensures i < |s| ==> RemoveAt([x] + s, i + 1) == [x] + RemoveAt(s, i)
  {
    hide Elems, Distinct;
    Cons(x, s, i);
    Append3([x], s[..i], [y], s[i..]);
    if i < |s| {
      Cons(x, s, i + 1);
      Append3([x], s[..i], [], s[i + 1..]);
    }
  }

  lemma Cons<T>(x: T, s: seq<T>, i: nat)
    requires i <= |s|
    ensures ([x] + s)[..i + 1] == [x] + s[..i] && ([x] + s)[i + 1..] == s[i..]
  {}

  lemma Append3<T>(a: seq<T>, b: seq<T>, c: seq<T>, d: seq<T>)
    ensures a + b + c + d == a + (b + c + d)
    ensures a + b + d == a + (b + d)
  {}

  ghost function RotateAt<T>(c: seq<T>, i: nat): (d: seq<T>)
    requires i <= |c|
    ensures Elems(d) == Elems(c)
  {
    assert c == c[..i] + c[i..];
    c[i..] + c[..i]
  }

  /** Adds the ring `c` (nothing, if it is empty), rooted at its first node. */
  ghost function Join(m: Rings, c: seq<ListHead>): Rings {
    if c == [] then m else m[c[0] := c[1..]]
  }

  /** Replaces the ring of `k` by the ring `c`. */
  ghost function Put(m: Rings, k: ListHead, c: seq<ListHead>): Rings {
    Join(m - {k}, c)
  }

  // ---- adding and dropping whole rings ----

  lemma JoinWorld(p: Ptrs, m: Rings, c: seq<ListHead>)
    requires World(p, m)
    requires c != [] ==> IsRing(p, c)
    requires Elems(c) !! Nodes(m)
    ensures World(p, Join(m, c))
    ensures Nodes(Join(m, c)) == Nodes(m) + Elems(c)
  {
    if c != [] {
      var j := Join(m, c);
      assert c[0] in Elems(c);
      assert Cycle(j, c[0]) == c;
      forall k | k in m
        ensures k != c[0] && Cycle(j, k) == Cycle(m, k)
      {
        assert k in Cycle(m, k);
      }
      forall k, n | k in m && n in Cycle(m, k)
        ensures n !in c
      {
        assert n in Nodes(m) && n !in Elems(c);
      }
      forall n
        ensures n in Nodes(j) <==> n in Nodes(m) || n in Elems(c)
      {
        if n in Nodes(j) {
          var k := Owner(j, n);
        }
        if n in c {
          assert n in Cycle(j, c[0]);
        }
        if n in Nodes(m) {
          assert n in Cycle(j, Owner(m, n));
        }
      }
    } else {
      assert Elems(c) == {};
    }
  }

  lemma DropWorld(p: Ptrs, m: Rings, k: ListHead)
    requires World(p, m) && k in m
    ensures World(p, m - {k})
    ensures Nodes(m - {k}) == Nodes(m) - Elems(Cycle(m, k))
    ensures Nodes(m) == Nodes(m - {k}) + Elems(Cycle(m, k))
  {
    var d := m - {k};
    assert forall l :: l in d ==> Cycle(d, l) == Cycle(m, l);
    forall n
      ensures n in Nodes(d) <==> n in Nodes(m) && n !in Elems(Cycle(m, k))
    {
      if n in Nodes(d) {
        var l := Owner(d, n);
        assert n in Cycle(m, l);
      }
      if n in Nodes(m) && n !in Elems(Cycle(m, k)) {
        assert n in Cycle(d, Owner(m, n));
      }
    }
  }

  /** Pointers of other nodes do not matter to a world. */
  lemma FrameWorld(p: Ptrs, q: Ptrs, m: Rings)
    requires World(p, m)
    requires SameOn(p, q, Nodes(m))
    ensures World(q, m)
  {
    forall k | k in m
      ensures IsRing(q, Cycle(m, k))
    {
      var c := Cycle(m, k);
      assert forall n :: n in c ==> n in Nodes(m);
      assert Link(p, c[|c| - 1], c[0]);
      forall i, j | 0 <= i && j == i + 1 && j < |c|
        ensures Link(q, c[i], c[j])
      {
        assert Link(p, c[i], c[j]);
      }
    }
  }

  ghost predicate SameOn(p: Ptrs, q: Ptrs, d: set<ListHead>) {
    && (forall n :: n in d && n in p.next ==> n in q.next && q.next[n] == p.next[n])
    && (forall n :: n in d && n in p.prev ==> n in q.prev && q.prev[n] == p.prev[n])
  }

  /** Replacing one ring while the pointers of the others stay. */
  lemma PutWorld(p: Ptrs, q: Ptrs, m: Rings, k: ListHead, c: seq<ListHead>)
    requires World(p, m) && k in m
    requires c != [] ==> IsRing(q, c)
    requires Elems(c) * Nodes(m) <= Elems(Cycle(m, k))
    requires SameOn(p, q, Nodes(m) - Elems(Cycle(m, k)))
    ensures World(q, Put(m, k, c))
    ensures Nodes(Put(m, k, c)) == Nodes(m) - Elems(Cycle(m, k)) + Elems(c)
    ensures Elems(Cycle(m, k)) <= Nodes(m)
  {
    DropWorld(p, m, k);
    FrameWorld(p, q, m - {k});
    JoinWorld(q, m - {k}, c);
  }

  // ---- single rings ----

  lemma DistinctConcat<T>(a: seq<T>, b: seq<T>)
    ensures Distinct(a + b) <==> Distinct(a) && Distinct(b) && Elems(a) !! Elems(b)
    ensures Elems(a + b) == Elems(a) + Elems(b)
  {
    var c := a + b;
    if Distinct(c) {
      forall i, j | 0 <= i < |a| && 0 <= j < |b|
        ensures a[i] != b[j]
      {
        assert c[i] != c[|a| + j];
      }
      forall i, j | 0 <= i < j < |a|
        ensures a[i] != a[j]
      {
        assert c[i] != c[j];
      }
      forall i, j | 0 <= i < j < |b|
        ensures b[i] != b[j]
      {
        assert c[|a| + i] != c[|a| + j];
      }
    }
    if Distinct(a) && Distinct(b) && Elems(a) !! Elems(b) {
      forall i, j | 0 <= i < |a| <= j < |c|
        ensures c[i] != c[j]
      {
        assert c[i] in Elems(a) && c[j] in Elems(b);
      }
    }
  }

  lemma RingAt(p: Ptrs, c: seq<ListHead>, i: nat)
    requires IsRing(p, c) && i < |c|
    ensures Link(p, c[i], Next(c, i)) && Link(p, Prev(c, i), c[i])
  {
    assert i + 1 < |c| ==> Link(p, c[i], c[i + 1]);
    assert i > 0 ==> Link(p, c[i - 1], c[i]);
  }

  /** The neighbours of a node of a ring are in the ring. */
  lemma RingStays(p: Ptrs, c: seq<ListHead>, i: nat)
    requires IsRing(p, c) && i < |c|
    ensures c[i] in Elems(c)
    ensures c[i] in p.next && p.next[c[i]] in Elems(c)
    ensures c[i] in p.prev && p.prev[c[i]] in Elems(c)
  {
    RingAt(p, c, i);
  }

  lemma RotateRing(p: Ptrs, c: seq<ListHead>, k: nat)
    requires IsRing(p, c) && k < |c|
    ensures IsRing(p, RotateAt(c, k))
  {
    var r := RotateAt(c, k);
    forall i, j | 0 <= i && j == i + 1 && j < |r|
      ensures Link(p, r[i], r[j])
    {
      RingAt(p, c, if i < |c| - k then k + i else i - (|c| - k));
    }
    assert k > 0 ==> Link(p, c[k - 1], c[k]);
  }

  /** A ring is determined by its first node. */
  lemma RingUnique(p: Ptrs, c: seq<ListHead>, d: seq<ListHead>)
    requires IsRing(p, c) && IsRing(p, d) && c[0] == d[0]
    ensures c == d
  {
    var n := 0;
    while n < |c| && n < |d|
      invariant n <= |c| && n <= |d|
      invariant c[..n] == d[..n]
    {
      if n > 0 {
        assert c[n - 1] == c[..n][n - 1] == d[n - 1];
        assert Link(p, c[n - 1], c[n]) && Link(p, d[n - 1], d[n]);
      }
      assert c[..n + 1] == c[..n] + [c[n]];
      assert d[..n + 1] == d[..n] + [d[n]];
      n := n + 1;
    }
    assert c[n - 1] == c[..n][n - 1] == d[n - 1];
  }
}
