/** What the operations of list.h mean for the rings they work on. */
module ListRings {
  import opened Rings
  import opened ListOps

  /** `h` can be added: it is in no ring, or it is an empty list of its own. */
  ghost predicate Free(m: Rings, h: ListHead) {
    h in Nodes(m) ==> h in m && m[h] == []
  }

  ghost predicate CanAdd(m: Rings, h: ListHead, at: ListHead) {
    Free(m, h) && at in Nodes(m - {h})
  }

  /** The place right after `at` is taken by `h`. */
  ghost function Added(m: Rings, h: ListHead, at: ListHead): Rings
    requires at in Nodes(m - {h})
  {
    Inserted(m - {h}, h, at)
  }

  ghost function Inserted(m: Rings, h: ListHead, at: ListHead): Rings
    requires at in Nodes(m)
  {
    var k := Owner(m, at);
    Put(m, k, InsertAt(Cycle(m, k), At(Cycle(m, k), at) + 1, h))
  }

  /** `r` is in no ring; if it was a root, the next node becomes the root. */
  ghost function Deleted(m: Rings, r: ListHead): Rings
    requires r in Nodes(m)
  {
    var k := Owner(m, r);
    Put(m, k, RemoveAt(Cycle(m, k), At(Cycle(m, k), r)))
  }

  /** The node before `n` in its ring. */
  ghost function Before(m: Rings, n: ListHead): ListHead
    requires n in Nodes(m)
  {
    Prev(Cycle(m, Owner(m, n)), At(Cycle(m, Owner(m, n)), n))
  }

  /** The same rings, with `n` as the root of its ring. */
  ghost function Rooted(m: Rings, n: ListHead): Rings
    requires n in Nodes(m)
  {
    var k := Owner(m, n);
    Put(m, k, RotateAt(Cycle(m, k), At(Cycle(m, k), n)))
  }

  lemma FreeWorld(p: Ptrs, m: Rings, h: ListHead)
    requires World(p, m) && Free(m, h)
    ensures World(p, m - {h}) && Nodes(m - {h}) == Nodes(m) - {h}
  {
    if h in m {
      assert h in Cycle(m, h);
      DropWorld(p, m, h);
    } else {
      assert m - {h} == m;
    }
  }

  lemma InitWorld(p: Ptrs, m: Rings, h: ListHead)
    requires World(p, m) && Free(m, h)
    ensures World(InitPtrs(p, h), m[h := []]) && Nodes(m[h := []]) == Nodes(m) + {h}
  {
    hide World;
    var q := InitPtrs(p, h);
    FreeWorld(p, m, h);
    FrameWorld(p, q, m - {h});
    assert IsRing(q, [h]);
    JoinWorld(q, m - {h}, [h]);
    assert Join(m - {h}, [h]) == m[h := []];
  }

  lemma InsertRing(p: Ptrs, c: seq<ListHead>, i: nat, h: ListHead)
    requires IsRing(p, c) && i < |c| && h !in c
    ensures c[i] in p.next
    ensures IsRing(AddPtrs(p, h, c[i]), InsertAt(c, i + 1, h))
  {
    RingAt(p, c, i);
    var q := AddPtrs(p, h, c[i]);
    var d := InsertAt(c, i + 1, h);
    forall k, l | 0 <= k && l == k + 1 && l < |d|
      ensures Link(q, d[k], d[l])
    {
      if l <= i {
        assert Link(p, c[k], c[l]);
      } else if k > i + 1 {
        assert Link(p, c[k - 1], c[l - 1]);
      }
    }
  }

  lemma CycleInNodes(r: Rings, k: ListHead)
    requires k in r
    ensures Elems(Cycle(r, k)) <= Nodes(r)
  {}

  /** list_add only stores into the new node and the ring it goes to. */
  lemma AddFrame(p: Ptrs, c: seq<ListHead>, i: nat, h: ListHead, d: set<ListHead>)
    requires IsRing(p, c) && i < |c| && h !in d
    ensures c[i] in p.next && SameOn(p, AddPtrs(p, h, c[i]), d - Elems(c))
  {
    RingStays(p, c, i);
  }

  lemma PutLonger(p: Ptrs, q: Ptrs, m: Rings, k: ListHead, c: seq<ListHead>, h: ListHead)
    requires World(p, m) && k in m && h !in Nodes(m)
    requires IsRing(q, c) && Elems(c) == Elems(Cycle(m, k)) + {h}
    requires SameOn(p, q, Nodes(m) - Elems(Cycle(m, k)))
    ensures World(q, Put(m, k, c)) && Nodes(Put(m, k, c)) == Nodes(m) + {h}
  {
    CycleInNodes(m, k);
    PutWorld(p, q, m, k, c);
  }

  lemma InsertWorld(p: Ptrs, m: Rings, h: ListHead, at: ListHead)
    requires World(p, m) && at in Nodes(m) && h !in Nodes(m)
    ensures at in p.next
    ensures World(AddPtrs(p, h, at), Inserted(m, h, at))
    ensures Nodes(Inserted(m, h, at)) == Nodes(m) + {h}
  {
    var k := Owner(m, at);
    var c := Cycle(m, k);
    CycleInNodes(m, k);
    assert h !in Elems(c);
    InsertRing(p, c, At(c, at), h);
    AddFrame(p, c, At(c, at), h, Nodes(m));
    PutLonger(p, AddPtrs(p, h, at), m, k, InsertAt(c, At(c, at) + 1, h), h);
  }

  lemma AddWorld(p: Ptrs, m: Rings, h: ListHead, at: ListHead)
    requires World(p, m) && CanAdd(m, h, at)
    ensures at in p.next
    ensures World(AddPtrs(p, h, at), Added(m, h, at))
    ensures Nodes(Added(m, h, at)) == Nodes(m) + {h}
  {
    FreeWorld(p, m, h);
    InsertWorld(p, m - {h}, h, at);
  }

  lemma RemoveRing(p: Ptrs, c: seq<ListHead>, i: nat)
    requires IsRing(p, c) && i < |c|
    ensures c[i] in p.next && c[i] in p.prev
    ensures RemoveAt(c, i) != [] ==> IsRing(DelPtrs(p, c[i]), RemoveAt(c, i))
  {
    RingAt(p, c, i);
    var q := DelPtrs(p, c[i]);
    var d := RemoveAt(c, i);
    forall k, l | 0 <= k && l == k + 1 && l < |d|
      ensures Link(q, d[k], d[l])
    {
      RingAt(p, c, if k < i then k else l);
    }
    if d != [] {
      RingAt(p, c, if i == |c| - 1 then |c| - 2 else |c| - 1);
    }
  }

  lemma DelFrame(p: Ptrs, c: seq<ListHead>, i: nat, d: set<ListHead>)
    requires IsRing(p, c) && i < |c|
    ensures c[i] in p.next && c[i] in p.prev && SameOn(p, DelPtrs(p, c[i]), d - Elems(c))
  {
    RingStays(p, c, i);
  }

  lemma DelWorld(p: Ptrs, m: Rings, r: ListHead)
    requires World(p, m) && r in Nodes(m)
    ensures r in p.next && r in p.prev
    ensures World(DelPtrs(p, r), Deleted(m, r))
    ensures Nodes(Deleted(m, r)) == Nodes(m) - {r}
  {
    hide IsRing, DelPtrs, SameOn;
    var k := Owner(m, r);
    var c := Cycle(m, k);
    CycleInNodes(m, k);
    RemoveRing(p, c, At(c, r));
    DelFrame(p, c, At(c, r), Nodes(m));
    PutWorld(p, DelPtrs(p, r), m, k, RemoveAt(c, At(c, r)));
  }

  /** `Before` is what `prev` holds, and it is in the same ring. */
  lemma PrevIsBefore(p: Ptrs, m: Rings, n: ListHead)
    requires World(p, m) && n in Nodes(m)
    ensures n in p.next && p.next[n] in Nodes(m)
    ensures n in p.prev && p.prev[n] == Before(m, n) && Before(m, n) in Nodes(m)
    ensures Before(m, n) in p.next
  {
    var k := Owner(m, n);
    var c := Cycle(m, k);
    RingAt(p, c, At(c, n));
    assert Prev(c, At(c, n)) in c && Next(c, At(c, n)) in c;
  }

  lemma RootedWorld(p: Ptrs, m: Rings, n: ListHead)
    requires World(p, m) && n in Nodes(m)
    ensures World(p, Rooted(m, n)) && Nodes(Rooted(m, n)) == Nodes(m)
    ensures n in Rooted(m, n)
  {
    var k := Owner(m, n);
    var c := Cycle(m, k);
    RotateRing(p, c, At(c, n));
    PutWorld(p, p, m, k, RotateAt(c, At(c, n)));
  }

  // ---- moving ----

  ghost function Moved(m: Rings, h: ListHead, at: ListHead): Rings
    requires h in Nodes(m) && at in Nodes(Deleted(m, h))
  {
    Inserted(Deleted(m, h), h, at)
  }

  lemma MoveWorld(p: Ptrs, m: Rings, h: ListHead, at: ListHead)
    requires World(p, m) && h in Nodes(m) && at in Nodes(m) && h != at
    ensures h in p.next && h in p.prev && at in p.next && at in Nodes(Deleted(m, h))
    ensures World(MovePtrs(p, h, at), Moved(m, h, at))
    ensures Nodes(Moved(m, h, at)) == Nodes(m)
  {
    hide World;
    PrevIsBefore(p, m, at);
    DelWorld(p, m, h);
    InsertWorld(DelPtrs(p, h), Deleted(m, h), h, at);
  }

  lemma WorldLinked(p: Ptrs, m: Rings)
    requires World(p, m)
    ensures Linked(p, Nodes(m))
  {
    forall n | n in Nodes(m)
      ensures Mutual(p, Nodes(m), n)
    {
      var k := Owner(m, n);
      var c := Cycle(m, k);
      RingAt(p, c, At(c, n));
      PrevIsBefore(p, m, n);
    }
  }

  lemma MoveAfterSelf(p: Ptrs, m: Rings, h: ListHead)
    requires World(p, m) && h in Nodes(m)
    ensures h in p.next && h in p.prev
    ensures p.next[h] == h ==> MovePtrs(p, h, h) == p
    ensures p.next[h] != h ==> !Linked(MovePtrs(p, h, h), Nodes(m))
  {
    PrevIsBefore(p, m, h);
    WorldLinked(p, m);
    assert Mutual(p, Nodes(m), h);
    var q := MovePtrs(p, h, h);
    if p.next[h] != h {
      assert q.next[h] == h && q.prev[p.next[h]] == h;
      assert !Mutual(q, Nodes(m), p.next[h]);
    }
  }

  /** list_move keeps the rings intact exactly when `h` is not moved after itself, or is alone. */
  lemma MoveIntactIff(p: Ptrs, m: Rings, h: ListHead, at: ListHead)
    requires World(p, m) && h in Nodes(m) && at in Nodes(m)
    ensures h in p.next && h in p.prev && at in p.next
    ensures Linked(MovePtrs(p, h, at), Nodes(m)) <==> h != at || p.next[h] == h
  {
    if h != at {
      MoveWorld(p, m, h, at);
      WorldLinked(MovePtrs(p, h, at), Moved(m, h, at));
    } else {
      MoveAfterSelf(p, m, h);
      WorldLinked(p, m);
    }
  }

  // ---- splicing ----

  /** The ring of `l` without `l` goes right after `at`; inside its own ring it is split there. */
  ghost function Spliced(m: Rings, l: ListHead, at: ListHead): Rings
    requires l in Nodes(m) && at in Nodes(m)
  {
    var r := Rooted(m, l);
    if l !in r || r[l] == [] then m
    else if at in Cycle(r, l) then SplitOff(r - {l}, l, r[l], at)
    else if at in Nodes(r - {l}) then Grafted(r - {l}, l, r[l], at)
    else m
  }

  /** The ring `[l] + e` becomes an empty list `l` and the two parts of `e` around `at`. */
  ghost function SplitOff(r: Rings, l: ListHead, e: seq<ListHead>, at: ListHead): Rings
    requires at in [l] + e
  {
    var t := At([l] + e, at);
    Join(Join(Join(r, e[..t]), e[t..]), [l])
  }

  /** `e` follows `at` in the ring of `at`, and `l` is an empty list. */
  ghost function Grafted(r: Rings, l: ListHead, e: seq<ListHead>, at: ListHead): Rings
    requires at in Nodes(r)
  {
    var k := Owner(r, at);
    Join(Put(r, k, SpliceAt(Cycle(r, k), At(Cycle(r, k), at) + 1, e)), [l])
  }

  ghost function SpliceAt<T>(c: seq<T>, i: nat, e: seq<T>): (d: seq<T>)
    requires i <= |c|
    ensures Elems(d) == Elems(c) + Elems(e)
  {
    assert c == c[..i] + c[i..];
    c[..i] + e + c[i..]
  }

  /** What list_splice leaves in the pointers when the list `l` is not empty, node by node. */
  ghost predicate SpliceStores(p: Ptrs, q: Ptrs, l: ListHead, at: ListHead) {
    && l in p.next && l in p.prev && at in p.next
    && var first, last, after := p.next[l], p.prev[l], p.next[at];
    && (forall n :: n in p.next && n != last && n != at && n != l ==> n in q.next && q.next[n] == p.next[n])
    && (forall n :: n in p.prev && n != first && n != after && n != l ==> n in q.prev && q.prev[n] == p.prev[n])
    && (at != l ==> at in q.next && q.next[at] == first)
    && (last != at && last != l ==> last in q.next && q.next[last] == after)
    && (first != after && first != l ==> first in q.prev && q.prev[first] == at)
    && (last != at && after != l ==> after in q.prev && q.prev[after] == last)
    && (at == l && first != l ==> first in q.prev && q.prev[first] == last)
    && Link(q, l, l)
  }

  lemma SplicePtrsStores(p: Ptrs, l: ListHead, at: ListHead)
    requires l in p.next && l in p.prev && at in p.next && p.next[l] != l
    ensures SpliceStores(p, SplicePtrs(p, l, at), l, at)
  {}

  lemma SpliceRing(p: Ptrs, q: Ptrs, l: ListHead, e: seq<ListHead>, c: seq<ListHead>, i: nat)
    requires IsRing(p, [l] + e) && IsRing(p, c) && i < |c| && e != []
    requires Elems([l] + e) !! Elems(c)
    requires SpliceStores(p, q, l, c[i])
    ensures IsRing(q, SpliceAt(c, i + 1, e))
  {
    DistinctSplice(l, e, c, i + 1);
    var d := SpliceAt(c, i + 1, e);
    forall j, k | 0 <= j && k == j + 1 && k < |d|
      ensures Link(q, d[j], d[k])
    {
      if k <= i {
        SpliceOther(p, q, l, e, c, i, j);
      } else if j <= i + |e| {
        SpliceLinkAt(p, q, l, e, c, i, k - i);
      } else {
        SpliceOther(p, q, l, e, c, i, j - |e|);
      }
    }
    if i < |c| - 1 {
      SpliceOther(p, q, l, e, c, i, |c| - 1);
    } else {
      SpliceLinkAt(p, q, l, e, c, i, |e| + 1);
    }
  }

  /** The other links of the ring `c` stay. */
  lemma SpliceOther(p: Ptrs, q: Ptrs, l: ListHead, e: seq<ListHead>, c: seq<ListHead>, i: nat, j: nat)
    requires IsRing(p, [l] + e) && IsRing(p, c) && i < |c| && e != [] && j < |c| && j != i
    requires Elems([l] + e) !! Elems(c)
    requires SpliceStores(p, q, l, c[i])
    ensures Link(q, c[j], Next(c, j))
  {
    RingStays(p, [l] + e, 0);
    RingAt(p, c, i);
    RingAt(p, c, j);
    assert ([l] + e)[0] == l && Next(c, j) in Elems(c) && c[j] in Elems(c);
  }

  /** The links of `c[i]`, the nodes of `e` and the node after them. */
  lemma SpliceLinkAt(p: Ptrs, q: Ptrs, l: ListHead, e: seq<ListHead>, c: seq<ListHead>, i: nat, k: nat)
    requires IsRing(p, [l] + e) && IsRing(p, c) && i < |c| && e != [] && 0 < k <= |e| + 1
    requires Elems([l] + e) !! Elems(c)
    requires SpliceStores(p, q, l, c[i])
    ensures k == 1 ==> Link(q, c[i], e[0])
    ensures 1 < k <= |e| ==> Link(q, e[k - 2], e[k - 1])
    ensures k == |e| + 1 ==> Link(q, e[|e| - 1], Next(c, i))
  {
    var s := [l] + e;
    RingAt(p, s, 0);
    RingAt(p, c, i);
    DistinctSplice(l, e, c, i + 1);
    if 1 < k <= |e| {
      assert Link(p, s[k - 1], s[k]);
    }
  }

  lemma DistinctSplice<T>(l: T, e: seq<T>, c: seq<T>, i: nat)
    requires Distinct([l] + e) && Distinct(c) && i <= |c| && Elems([l] + e) !! Elems(c)
    ensures Distinct(SpliceAt(c, i, e)) && l !in e && l !in c
    ensures forall n :: n in e ==> n !in c
  {
    assert c == c[..i] + c[i..];
    DistinctConcat([l], e);
    DistinctConcat(c[..i], c[i..]);
    DistinctConcat(c[..i], e);
    DistinctConcat(c[..i] + e, c[i..]);
    assert l in Elems([l]);
    forall n | n in e || n == l
      ensures n !in c
    {
      assert n in Elems([l] + e) && n !in Elems(c);
    }
  }

  lemma SplitLinkAt(p: Ptrs, q: Ptrs, l: ListHead, e: seq<ListHead>, t: nat, k: nat)
    requires IsRing(p, [l] + e) && t <= |e| && 0 < k < |e| && k != t
    requires SpliceStores(p, q, l, ([l] + e)[t])
    ensures Link(q, e[k - 1], e[k])
  {
    var s := [l] + e;
    RingAt(p, s, 0);
    RingAt(p, s, t);
    assert p.next[s[t]] == if t < |e| then e[t] else l;
    assert Link(p, s[k], s[k + 1]);
  }

  /** A ring cut after position `t`: both parts are closed. */
  lemma SplitLinks(p: Ptrs, q: Ptrs, l: ListHead, e: seq<ListHead>, t: nat)
    requires IsRing(p, [l] + e) && t <= |e| && e != []
    requires SpliceStores(p, q, l, ([l] + e)[t])
    ensures forall j, k :: 0 <= j && k == j + 1 && k < |e| && k != t ==> Link(q, e[j], e[k])
    ensures t > 0 ==> Link(q, e[t - 1], e[0])
    ensures t < |e| ==> Link(q, e[|e| - 1], e[t])
  {
    var s := [l] + e;
    var at := s[t];
    RingAt(p, s, 0);
    RingAt(p, s, t);
    assert p.next[l] == e[0] && p.prev[l] == s[|e|] == e[|e| - 1];
    assert p.next[at] == if t < |e| then e[t] else l;
    assert t > 0 ==> at == e[t - 1];
    assert forall j :: 0 <= j < |e| ==> e[j] == s[j + 1] && s[j + 1] != s[0];
    forall j, k | 0 <= j && k == j + 1 && k < |e| && k != t
      ensures Link(q, e[j], e[k])
    {
      SplitLinkAt(p, q, l, e, t, k);
    }
  }

  lemma SplitElems<T>(l: T, e: seq<T>, t: nat)
    requires Distinct([l] + e) && t <= |e|
    ensures Distinct(e[..t]) && Distinct(e[t..])
    ensures Elems([l]) !! Elems(e[..t]) && Elems([l]) + Elems(e[..t]) !! Elems(e[t..])
    ensures Elems([l] + e) == Elems([l]) + Elems(e[..t]) + Elems(e[t..])
  {
    assert e == e[..t] + e[t..];
    DistinctConcat([l], e);
    DistinctConcat(e[..t], e[t..]);
  }

  lemma SplitRing(p: Ptrs, q: Ptrs, l: ListHead, e: seq<ListHead>, t: nat)
    requires IsRing(p, [l] + e) && t <= |e| && e != []
    requires SpliceStores(p, q, l, ([l] + e)[t])
    ensures t > 0 ==> IsRing(q, e[..t])
    ensures t < |e| ==> IsRing(q, e[t..])
  {
    SplitElems(l, e, t);
    SplitLinks(p, q, l, e, t);
  }

  lemma SpliceWorld(p: Ptrs, m: Rings, l: ListHead, at: ListHead)
    requires World(p, m) && l in Nodes(m) && at in Nodes(m)
    ensures l in p.next && l in p.prev && at in p.next
    ensures World(SplicePtrs(p, l, at), Spliced(m, l, at))
    ensures Nodes(Spliced(m, l, at)) == Nodes(m)
  {
    hide World;
    PrevIsBefore(p, m, l);
    PrevIsBefore(p, m, at);
    RootedWorld(p, m, l);
    var r := Rooted(m, l);
    RingAt(p, Cycle(r, l), 0);
    if r[l] != [] {
      DropWorld(p, r, l);
      SplicePtrsStores(p, l, at);
      var q := SplicePtrs(p, l, at);
      if at in Cycle(r, l) {
        SpliceWithin(p, q, r - {l}, l, r[l], at);
      } else {
        SpliceAcross(p, q, r - {l}, l, r[l], at);
      }
    }
  }

  lemma SpliceWithin(p: Ptrs, q: Ptrs, r: Rings, l: ListHead, e: seq<ListHead>, at: ListHead)
    requires World(p, r) && IsRing(p, [l] + e) && e != [] && Elems([l] + e) !! Nodes(r) && at in [l] + e
    requires SpliceStores(p, q, l, at)
    ensures World(q, SplitOff(r, l, e, at)) && Nodes(SplitOff(r, l, e, at)) == Nodes(r) + Elems([l] + e)
  {
    var t := At([l] + e, at);
    SplitElems(l, e, t);
    SplitRing(p, q, l, e, t);
    SpliceFrame(p, q, [l] + e, t, [l] + e, Nodes(r));
    FrameWorld(p, q, r);
    JoinThree(q, r, e[..t], e[t..], l);
  }

  lemma JoinThree(q: Ptrs, r: Rings, a: seq<ListHead>, b: seq<ListHead>, l: ListHead)
    requires World(q, r) && IsRing(q, [l])
    requires (a != [] ==> IsRing(q, a)) && (b != [] ==> IsRing(q, b))
    requires Elems([l]) !! Elems(a) && Elems([l]) + Elems(a) !! Elems(b)
    requires Elems([l]) + Elems(a) + Elems(b) !! Nodes(r)
    ensures World(q, Join(Join(Join(r, a), b), [l]))
    ensures Nodes(Join(Join(Join(r, a), b), [l])) == Nodes(r) + (Elems([l]) + Elems(a) + Elems(b))
  {
    JoinWorld(q, r, a);
    JoinWorld(q, Join(r, a), b);
    JoinWorld(q, Join(Join(r, a), b), [l]);
  }

  /** list_splice only stores into the ring `s` that it empties and the ring `c` of its target. */
  lemma SpliceFrame(p: Ptrs, q: Ptrs, c: seq<ListHead>, i: nat, s: seq<ListHead>, d: set<ListHead>)
    requires IsRing(p, s) && IsRing(p, c) && i < |c| && SpliceStores(p, q, s[0], c[i])
    ensures SameOn(p, q, d - Elems(s) - Elems(c))
  {
    RingStays(p, s, 0);
    RingStays(p, c, i);
  }

  lemma SpliceAcross(p: Ptrs, q: Ptrs, r: Rings, l: ListHead, e: seq<ListHead>, at: ListHead)
    requires World(p, r) && IsRing(p, [l] + e) && e != [] && Elems([l] + e) !! Nodes(r) && at in Nodes(r)
    requires SpliceStores(p, q, l, at)
    ensures World(q, Grafted(r, l, e, at)) && Nodes(Grafted(r, l, e, at)) == Nodes(r) + Elems([l] + e)
  {
    var k := Owner(r, at);
    var c := Cycle(r, k);
    var i := At(c, at);
    CycleInNodes(r, k);
    SpliceRing(p, q, l, e, c, i);
    SpliceFrame(p, q, c, i, [l] + e, Nodes(r));
    GraftWorld(p, q, r, k, l, e, i + 1);
  }

  lemma GraftWorld(p: Ptrs, q: Ptrs, r: Rings, k: ListHead, l: ListHead, e: seq<ListHead>, i: nat)
    requires World(p, r) && k in r && i <= |Cycle(r, k)| && Distinct([l] + e) && Elems([l] + e) !! Nodes(r)
    requires IsRing(q, SpliceAt(Cycle(r, k), i, e)) && IsRing(q, [l])
    requires SameOn(p, q, Nodes(r) - Elems([l] + e) - Elems(Cycle(r, k)))
    ensures var g := Join(Put(r, k, SpliceAt(Cycle(r, k), i, e)), [l]);
            World(q, g) && Nodes(g) == Nodes(r) + Elems([l] + e)
  {
    DistinctConcat([l], e);
    CycleInNodes(r, k);
    var d := SpliceAt(Cycle(r, k), i, e);
    assert Nodes(r) - Elems([l] + e) == Nodes(r);
    PutWorld(p, q, r, k, d);
    JoinWorld(q, Put(r, k, d), [l]);
  }
}
