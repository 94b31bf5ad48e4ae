/** list_validate on arbitrary pointers, and rings as the global meaning of local links. */
module ListValidate {
  import opened Rings
  import opened ListOps
  import opened ListRings

  lemma {:induction false} DistinctFits<T>(c: seq<T>, d: set<T>)
    requires Distinct(c) && Elems(c) <= d
    ensures |c| <= |d|
  {
    if c != [] {
      var b, x := c[..|c| - 1], c[|c| - 1];
      assert c == b + [x];
      DistinctConcat(b, [x]);
      assert x in Elems([x]) && x in d;
      DistinctFits(b, d - {x});
    }
  }

  /** A prefix of a ring is followed by the next node of the ring, or closes it. */
  lemma NextOnRing(p: Ptrs, c: seq<ListHead>, path: seq<ListHead>)
    requires IsRing(p, c) && path != [] && path <= c
    ensures var o := path[|path| - 1]; (
              && o in p.next
              && Link(p, o, p.next[o])
              && (p.next[o] == c[0] || path + [p.next[o]] <= c))
  {
    RingAt(p, c, |path| - 1);
  }

  /** `path` runs along links from its first node, without passing a node twice. */
  ghost predicate IsPath(p: Ptrs, path: seq<ListHead>) {
    && path != []
    && Distinct(path)
    && (forall i, j :: 0 <= i && j == i + 1 && j < |path| ==> Link(p, path[i], path[j]))
  }

  /** A link that leads back to a path leads to its first node. */
  lemma RevisitIsHead(p: Ptrs, path: seq<ListHead>, n: ListHead)
    requires IsPath(p, path) && n in path && Link(p, path[|path| - 1], n)
    ensures n == path[0]
  {
    forall i | 0 < i < |path|
      ensures path[i] != n
    {
      assert Link(p, path[i - 1], path[i]);
    }
  }

  lemma PathGrows(p: Ptrs, path: seq<ListHead>, n: ListHead)
    requires IsPath(p, path) && Link(p, path[|path| - 1], n) && n != path[0]
    ensures IsPath(p, path + [n])
  {
    if n in path {
      RevisitIsHead(p, path, n);
    }
  }

  /** The debug check accepts exactly the list heads that lie on a ring: `d` holds all list heads
      that exist, with arbitrary pointers between them or to the two poison values. */
  method ListValidate(head: ListHead, poison0: ListHead, poison1: ListHead, ghost d: set<ListHead>)
    returns (ok: bool, ghost ring: seq<ListHead>)
    requires head in d && poison0 !in d && poison1 !in d
    requires forall n {:trigger n.next} :: n in d ==> n.next in d || n.next == poison0 || n.next == poison1
    ensures ok ==> IsRing(Heap(d), ring) && ring[0] == head
    ensures !ok ==> !exists c :: IsRing(Heap(d), c) && c[0] == head
  {
    ghost var p := Heap(d);
    var old_ := head;
    var i := old_.next;
    ring := [head];
    while true
      invariant IsPath(p, ring) && Elems(ring) <= d
      invariant ring[0] == head && ring[|ring| - 1] == old_ && i == old_.next
      invariant forall c :: IsRing(p, c) && c[0] == head ==> ring <= c
      decreases |d| - |ring|
    {
      forall c | IsRing(p, c) && c[0] == head
        ensures Link(p, old_, i) && (i == head || ring + [i] <= c)
      {
        NextOnRing(p, c, ring);
      }
      assert old_ in Elems(ring);
      if i == poison0 || i == poison1 || i != old_.next || i.prev != old_ {
        return false, ring;
      }
      old_ := i;
      if i == head {
        return true, ring;
      }
      PathGrows(p, ring, i);
      ring := ring + [i];
      DistinctFits(ring, d);
      i := i.next;
    }
  }

  /** In a world of rings each node lies on a ring, so checking it passes. */
  lemma EveryNodeValidates(p: Ptrs, m: Rings, n: ListHead) returns (ring: seq<ListHead>)
    requires World(p, m) && n in Nodes(m)
    ensures IsRing(p, ring) && ring[0] == n && Elems(ring) <= Nodes(m)
  {
    var c := Cycle(m, Owner(m, n));
    ring := RotateAt(c, At(c, n));
    RotateRing(p, c, At(c, n));
  }

  /** list_add checks its target after the stores, and list_add_tail the root as well; any node of
      the rings would pass. */
  lemma AddValidates(p: Ptrs, m: Rings, h: ListHead, at: ListHead, n: ListHead) returns (ring: seq<ListHead>)
    requires World(p, m) && CanAdd(m, h, at) && n in Nodes(m) + {h}
    ensures at in p.next && IsRing(AddPtrs(p, h, at), ring) && ring[0] == n
  {
    AddWorld(p, m, h, at);
    ring := EveryNodeValidates(AddPtrs(p, h, at), Added(m, h, at), n);
  }

  /** list_del checks both neighbours after the stores. The neighbours of a lone node are that node
      itself, which still points to itself. */
  lemma DelValidates(p: Ptrs, m: Rings, r: ListHead) returns (before: seq<ListHead>, after: seq<ListHead>)
    requires World(p, m) && r in Nodes(m)
    ensures r in p.next && r in p.prev
    ensures IsRing(DelPtrs(p, r), before) && before[0] == p.prev[r]
    ensures IsRing(DelPtrs(p, r), after) && after[0] == p.next[r]
  {
    PrevIsBefore(p, m, r);
    WorldLinked(p, m);
    assert Mutual(p, Nodes(m), r);
    var q := DelPtrs(p, r);
    if p.next[r] == r {
      assert q == p;
      before := EveryNodeValidates(p, m, r);
      after := before;
    } else {
      DelWorld(p, m, r);
      before := EveryNodeValidates(q, Deleted(m, r), p.prev[r]);
      after := EveryNodeValidates(q, Deleted(m, r), p.next[r]);
    }
  }

  // ---- local links and global rings ----

  lemma FollowRing(p: Ptrs, d: set<ListHead>, head: ListHead) returns (ring: seq<ListHead>)
    requires Linked(p, d) && head in d
    ensures IsRing(p, ring) && ring[0] == head && Elems(ring) <= d
  {
    ring := [head];
    var n := head;
    assert Mutual(p, d, n);
    while p.next[n] != head
      invariant IsPath(p, ring) && Elems(ring) <= d
      invariant ring[0] == head && ring[|ring| - 1] == n && Mutual(p, d, n)
      decreases |d| - |ring|
    {
      assert n in Elems(ring);
      n := p.next[n];
      assert Mutual(p, d, n);
      PathGrows(p, ring, n);
      ring := ring + [n];
      DistinctFits(ring, d);
    }
  }

  lemma LinkedOutside(p: Ptrs, d: set<ListHead>, c: seq<ListHead>)
    requires Linked(p, d) && IsRing(p, c) && Elems(c) <= d
    ensures Linked(p, d - Elems(c))
  {
    var e := d - Elems(c);
    forall n | n in e
      ensures Mutual(p, e, n)
    {
      assert Mutual(p, d, n);
      if p.next[n] in c {
        RingStays(p, c, At(c, p.next[n]));
      }
      if p.prev[n] in c {
        RingStays(p, c, At(c, p.prev[n]));
      }
    }
  }

  /** Locally linked list heads form disjoint rings. With WorldLinked, the local links and the
      existence of such rings are the same thing. */
  lemma Decompose(p: Ptrs, d: set<ListHead>) returns (m: Rings)
    requires Linked(p, d)
    ensures World(p, m) && Nodes(m) == d
    decreases |d|
  {
    if d == {} {
      m := map[];
      assert Nodes(m) == {};
    } else {
      var n :| n in d;
      var c := FollowRing(p, d, n);
      assert n in Elems(c);
      LinkedOutside(p, d, c);
      m := Decompose(p, d - Elems(c));
      JoinWorld(p, m, c);
      m := Join(m, c);
    }
  }

  /** The pointers determine the list of every root. */
  lemma WorldUnique(p: Ptrs, m: Rings, w: Rings, k: ListHead)
    requires World(p, m) && World(p, w) && k in m && k in w
    ensures m[k] == w[k]
  {
    RingUnique(p, Cycle(m, k), Cycle(w, k));
    assert Cycle(m, k)[1..] == m[k] && Cycle(w, k)[1..] == w[k];
  }

  /** list_move_tail keeps a world of rings exactly when `h` is not the node before `root` already
      (or is alone): moving the last element of a list to its end destroys the rings. */
  lemma MoveTailIntactIff(p: Ptrs, m: Rings, h: ListHead, root: ListHead)
    requires World(p, m) && h in Nodes(m) && root in Nodes(m)
    ensures h in p.next && h in p.prev && root in p.prev && p.prev[root] in p.next
    ensures (exists w :: World(MovePtrs(p, h, p.prev[root]), w) && Nodes(w) == Nodes(m))
       <==> h != p.prev[root] || p.next[h] == h
  {
    PrevIsBefore(p, m, root);
    var at := p.prev[root];
    MoveIntactIff(p, m, h, at);
    var q := MovePtrs(p, h, at);
    if Linked(q, Nodes(m)) {
      var w := Decompose(q, Nodes(m));
    }
    forall w | World(q, w) && Nodes(w) == Nodes(m)
      ensures Linked(q, Nodes(m))
    {
      WorldLinked(q, w);
    }
  }

  /** For example, list_move_tail(b, a), that is list_move(b, b), for the list `b` of the root `a`. */
  lemma MoveTailBreaksPair(a: ListHead, b: ListHead)
    requires a != b
    ensures var p, m := Ptrs(map[a := b, b := a], map[a := b, b := a]), map[a := [b]];
            && World(p, m) && p.prev[a] == b
            && !exists w :: World(MovePtrs(p, b, b), w) && Nodes(w) == Nodes(m)
  {
    var p, m := Ptrs(map[a := b, b := a], map[a := b, b := a]), map[a := [b]];
    assert Cycle(m, a) == [a, b];
    assert a in Cycle(m, a) && b in Cycle(m, a);
    MoveTailIntactIff(p, m, b, a);
  }
}
