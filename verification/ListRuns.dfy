/** Whole runs over list.h: the operations as seen from the roots, and any sequence of them. */
module ListRuns {
  import opened Rings
  import opened ListOps
  import opened ListRings

  // ---- the operations as seen from the roots ----

  lemma OwnerIs(m: Rings, k: ListHead, n: ListHead)
    requires Disjoint(m) && k in m && n in Cycle(m, k)
    ensures n in Nodes(m) && Owner(m, n) == k
  {}

  lemma AtIs(c: seq<ListHead>, i: nat)
    requires Distinct(c) && i < |c|
    ensures At(c, c[i]) == i
  {}

  ghost function Last(m: Rings, k: ListHead): ListHead
    requires k in m
  {
    if m[k] == [] then k else m[k][|m[k]| - 1]
  }

  lemma BeforeRoot(m: Rings, k: ListHead)
    requires Disjoint(m) && k in m
    ensures k in Nodes(m) && Before(m, k) == Last(m, k)
  {
    OwnerIs(m, k, k);
    AtIs(Cycle(m, k), 0);
  }

  lemma InsertMember(m: Rings, k: ListHead, i: nat, h: ListHead)
    requires Disjoint(m) && k in m && i <= |m[k]|
    ensures var at := Cycle(m, k)[i]; at in Nodes(m) && Inserted(m, h, at) == m[k := InsertAt(m[k], i, h)]
  {
    var c := Cycle(m, k);
    OwnerIs(m, k, c[i]);
    AtIs(c, i);
    var e := InsertAt(m[k], i, h);
    ConsEdits(k, m[k], i, h);
    assert ([k] + e)[1..] == e;
    assert (m - {k})[k := e] == m[k := e];
  }

  lemma InsertFront(m: Rings, k: ListHead, h: ListHead)
    requires Disjoint(m) && k in m
    ensures k in Nodes(m) && Inserted(m, h, k) == m[k := [h] + m[k]]
  {
    InsertMember(m, k, 0, h);
    assert InsertAt(m[k], 0, h) == [h] + m[k];
  }

  lemma InsertBack(m: Rings, k: ListHead, h: ListHead)
    requires Disjoint(m) && k in m
    ensures Last(m, k) in Nodes(m) && Inserted(m, h, Last(m, k)) == m[k := m[k] + [h]]
  {
    InsertMember(m, k, |m[k]|, h);
    assert InsertAt(m[k], |m[k]|, h) == m[k] + [h];
    assert Cycle(m, k)[|m[k]|] == Last(m, k);
  }

  /** list_add puts a node at the front of the list of a root, list_add_tail at its end. */
  lemma AddMember(p: Ptrs, m: Rings, h: ListHead, k: ListHead)
    requires World(p, m) && Free(m, h) && k in m && k != h
    ensures k in Nodes(m) && CanAdd(m, h, k) && CanAdd(m, h, Before(m, k))
    ensures Added(m, h, k) == (m - {h})[k := [h] + m[k]]
    ensures Added(m, h, Before(m, k)) == (m - {h})[k := m[k] + [h]]
  {
    BeforeRoot(m, k);
    FreeWorld(p, m, h);
    InsertFront(m - {h}, k, h);
    InsertBack(m - {h}, k, h);
    assert Last(m - {h}, k) == Last(m, k);
  }

  /** list_del takes one element out of the list of a root. */
  lemma DelMember(m: Rings, k: ListHead, i: nat)
    requires Disjoint(m) && k in m && i < |m[k]|
    ensures m[k][i] in Nodes(m) && Deleted(m, m[k][i]) == m[k := RemoveAt(m[k], i)]
  {
    var c := Cycle(m, k);
    OwnerIs(m, k, c[i + 1]);
    AtIs(c, i + 1);
    var e := RemoveAt(m[k], i);
    ConsEdits(k, m[k], i, k);
    assert ([k] + e)[1..] == e;
    assert (m - {k})[k := e] == m[k := e];
  }

  /** list_del of a root leaves the rest of its list, led by the first element. */
  lemma DelRoot(m: Rings, k: ListHead)
    requires Disjoint(m) && k in m
    ensures k in Nodes(m) && Deleted(m, k) == if m[k] == [] then m - {k} else (m - {k})[m[k][0] := m[k][1..]]
  {
    OwnerIs(m, k, k);
    AtIs(Cycle(m, k), 0);
    assert RemoveAt(Cycle(m, k), 0) == m[k];
  }

  /** list_move and list_move_tail, from any list to the front or the end of any list. */
  lemma MoveMember(p: Ptrs, m: Rings, k: ListHead, i: nat, t: ListHead)
    requires World(p, m) && k in m && i < |m[k]| && t in m
    ensures t in Nodes(m) && m[k][i] in Nodes(m) && m[k][i] != t && t in Nodes(Deleted(m, m[k][i]))
    ensures var h, m1 := m[k][i], m[k := RemoveAt(m[k], i)];
            && Moved(m, h, t) == m1[t := [h] + m1[t]]
            && (h != Before(m, t) ==>
                  Before(m, t) in Nodes(Deleted(m, h)) && Moved(m, h, Before(m, t)) == m1[t := m1[t] + [h]])
  {
    var h := m[k][i];
    DelMember(m, k, i);
    DelWorld(p, m, h);
    BeforeRoot(m, t);
    assert h != t by {
      assert h in Cycle(m, k) && t in Cycle(m, t);
      assert Cycle(m, k)[0] == k && Cycle(m, k)[i + 1] == h;
    }
    InsertFront(Deleted(m, h), t, h);
    InsertBack(Deleted(m, h), t, h);
    if h != Last(m, t) {
      LastKept(m, k, i, t);
    }
  }

  lemma LastKept(m: Rings, k: ListHead, i: nat, t: ListHead)
    requires k in m && i < |m[k]| && t in m && m[k][i] != Last(m, t)
    ensures Last(m[k := RemoveAt(m[k], i)], t) == Last(m, t)
  {}

  lemma GraftMember(p: Ptrs, m: Rings, l: ListHead, k: ListHead, i: nat)
    requires World(p, m) && l in m && k in m && l != k && i <= |m[k]|
    ensures l in Nodes(m) && Cycle(m, k)[i] in Nodes(m)
    ensures Spliced(m, l, Cycle(m, k)[i]) == m[k := SpliceAt(m[k], i, m[l])][l := []]
  {
    var at := Cycle(m, k)[i];
    RootedIsSame(m, l);
    OwnerIs(m, k, at);
    assert at !in Cycle(m, l);
    if m[l] != [] {
      DropWorld(p, m, l);
      GraftedMember(m - {l}, l, m[l], k, i);
      UpdateDropped(m, k, SpliceAt(m[k], i, m[l]), l);
    } else {
      assert SpliceAt(m[k], i, []) == m[k];
    }
  }

  lemma UpdateDropped(m: Rings, k: ListHead, c: seq<ListHead>, l: ListHead)
    ensures (m - {l})[k := c][l := []] == m[k := c][l := []]
  {}

  lemma RootedIsSame(m: Rings, l: ListHead)
    requires Disjoint(m) && l in m
    ensures l in Nodes(m) && Rooted(m, l) == m
  {
    OwnerIs(m, l, l);
    AtIs(Cycle(m, l), 0);
    assert RotateAt(Cycle(m, l), 0) == Cycle(m, l);
  }

  lemma SpliceCons<T>(x: T, s: seq<T>, i: nat, e: seq<T>)
    requires i <= |s|
    ensures SpliceAt([x] + s, i + 1, e) == [x] + SpliceAt(s, i, e)
  {
    var c := [x] + s;
    assert c[..i + 1] == [x] + s[..i] && c[i + 1..] == s[i..];
  }

  lemma GraftedMember(r: Rings, l: ListHead, e: seq<ListHead>, k: ListHead, i: nat)
    requires Disjoint(r) && k in r && i <= |r[k]|
    ensures Cycle(r, k)[i] in Nodes(r)
    ensures Grafted(r, l, e, Cycle(r, k)[i]) == r[k := SpliceAt(r[k], i, e)][l := []]
  {
    var c := Cycle(r, k);
    OwnerIs(r, k, c[i]);
    AtIs(c, i);
    var d := SpliceAt(r[k], i, e);
    SpliceCons(k, r[k], i, e);
    assert ([k] + d)[1..] == d;
    assert (r - {k})[k := d] == r[k := d];
  }

  /** list_splice and list_splice_tail concatenate two lists and empty the first. */
  lemma SpliceLists(p: Ptrs, m: Rings, l: ListHead, k: ListHead)
    requires World(p, m) && l in m && k in m && l != k
    ensures l in Nodes(m) && k in Nodes(m) && Before(m, k) in Nodes(m)
    ensures Spliced(m, l, k) == m[k := m[l] + m[k]][l := []]
    ensures Spliced(m, l, Before(m, k)) == m[k := m[k] + m[l]][l := []]
  {
    BeforeRoot(m, k);
    assert Cycle(m, k)[0] == k && Cycle(m, k)[|m[k]|] == Last(m, k);
    GraftMember(p, m, l, k, 0);
    GraftMember(p, m, l, k, |m[k]|);
    SpliceAtEnds(m[k], m[l]);
  }

  lemma SpliceAtEnds<T>(c: seq<T>, e: seq<T>)
    ensures SpliceAt(c, 0, e) == e + c && SpliceAt(c, |c|, e) == c + e
  {}

  /** list_splice behind a node of the list itself, or behind its root: the list is cut there into
      two rings, each led by its first node, and the root ends empty. */
  lemma SpliceOwnList(m: Rings, l: ListHead, i: nat)
    requires Disjoint(m) && l in m && i <= |m[l]| && m[l] != []
    ensures l in Nodes(m) && Cycle(m, l)[i] in Nodes(m)
    ensures Spliced(m, l, Cycle(m, l)[i]) == Join(Join(m - {l}, m[l][..i]), m[l][i..])[l := []]
  {
    RootedIsSame(m, l);
    OwnerIs(m, l, Cycle(m, l)[i]);
    AtIs(Cycle(m, l), i);
  }

  /** list_empty, list_singular and list_is_last, in terms of the list of a root. */
  lemma QueriesMean(d: set<ListHead>, m: Rings, k: ListHead)
    requires World(Heap(d), m) && k in m
    ensures ListEmpty(k) <==> m[k] == []
    ensures ListSingular(k) <==> |m[k]| <= 1
    ensures forall h :: h in Cycle(m, k) ==> (ListIsLast(h, k) <==> h == Last(m, k))
  {
    var c := Cycle(m, k);
    RingAt(Heap(d), c, 0);
    if |c| > 1 {
      RingAt(Heap(d), c, 1);
    }
    forall h | h in c
      ensures ListIsLast(h, k) <==> h == Last(m, k)
    {
      RingAt(Heap(d), c, At(c, h));
    }
  }

  // ---- runs ----

  datatype Op =
    | Init(h: ListHead)
    | Add(h: ListHead, root: ListHead)
    | AddTail(h: ListHead, root: ListHead)
    | Del(h: ListHead)
    | DelInit(h: ListHead)
    | Move(h: ListHead, root: ListHead)
    | MoveTail(h: ListHead, root: ListHead)
    | Splice(h: ListHead, root: ListHead)
    | SpliceTail(h: ListHead, root: ListHead)

  /** What list.h asks of its callers. */
  ghost predicate Legal(m: Rings, op: Op) {
    match op
    case Init(h) => Free(m, h)
    case Add(h, root) => CanAdd(m, h, root)
    case AddTail(h, root) => CanAdd(m, h, root)
    case Del(h) => h in Nodes(m)
    case DelInit(h) => h in Nodes(m)
    case Move(h, root) => h in Nodes(m) && root in Nodes(m) && h != root
    case MoveTail(h, root) => h in Nodes(m) && root in Nodes(m) && h != Before(m, root)
    case Splice(h, root) => h in Nodes(m) && root in Nodes(m)
    case SpliceTail(h, root) => h in Nodes(m) && root in Nodes(m)
  }

  /** The rings after a legal operation (and the same rings after an illegal one). */
  ghost function Step(m: Rings, op: Op): Rings {
    match op
    case Init(h) => m[h := []]
    case Add(h, root) => AddedAt(m, h, root)
    case AddTail(h, root) => if root in Nodes(m) then AddedAt(m, h, Before(m, root)) else m
    case Del(h) => if h in Nodes(m) then Deleted(m, h) else m
    case DelInit(h) => if h in Nodes(m) then Deleted(m, h)[h := []] else m
    case Move(h, root) => MovedAt(m, h, root)
    case MoveTail(h, root) => if root in Nodes(m) then MovedAt(m, h, Before(m, root)) else m
    case Splice(h, root) => SplicedAt(m, h, root)
    case SpliceTail(h, root) => if root in Nodes(m) then SplicedAt(m, h, Before(m, root)) else m
  }

  ghost function AddedAt(m: Rings, h: ListHead, at: ListHead): Rings {
    if at in Nodes(m - {h}) then Added(m, h, at) else m
  }

  ghost function MovedAt(m: Rings, h: ListHead, at: ListHead): Rings {
    if h in Nodes(m) && at in Nodes(Deleted(m, h)) then Moved(m, h, at) else m
  }

  ghost function SplicedAt(m: Rings, h: ListHead, at: ListHead): Rings {
    if h in Nodes(m) && at in Nodes(m) then Spliced(m, h, at) else m
  }

  // ---- what the steps do to the list of a root ----

  /** list_init makes an empty list; list_add prepends to the list of the root `k`, list_add_tail
      appends to it. */
  lemma AddSteps(p: Ptrs, m: Rings, h: ListHead, k: ListHead)
    requires World(p, m) && (h in Nodes(m) ==> h in m && m[h] == []) && k in m && k != h
    ensures Legal(m, Init(h)) && Legal(m, Add(h, k)) && Legal(m, AddTail(h, k))
    ensures Step(m, Init(h)) == m[h := []]
    ensures Step(m, Add(h, k)) == (m - {h})[k := [h] + m[k]]
    ensures Step(m, AddTail(h, k)) == (m - {h})[k := m[k] + [h]]
  {
    AddMember(p, m, h, k);
    AddStep(p, m, h, k);
    AddTailStep(p, m, h, k);
    hide World, Step;
    assert Step(m, Init(h)) == m[h := []] by { InitStep(m, h); }
  }

  lemma InitStep(m: Rings, h: ListHead)
    ensures Step(m, Init(h)) == m[h := []]
  {}

  lemma AddStep(p: Ptrs, m: Rings, h: ListHead, k: ListHead)
    requires World(p, m) && Free(m, h) && k in m && k != h
    ensures Step(m, Add(h, k)) == (m - {h})[k := [h] + m[k]]
  {
    AddMember(p, m, h, k);
    hide Added;
    AddTargets(p, m, h, k);
  }

  lemma AddTailStep(p: Ptrs, m: Rings, h: ListHead, k: ListHead)
    requires World(p, m) && Free(m, h) && k in m && k != h
    ensures Step(m, AddTail(h, k)) == (m - {h})[k := m[k] + [h]]
  {
    AddMember(p, m, h, k);
    hide Added;
    AddTargets(p, m, h, k);
  }

  lemma AddTargets(p: Ptrs, m: Rings, h: ListHead, k: ListHead)
    requires World(p, m) && Free(m, h) && k in m && k != h
    ensures k in Nodes(m) && k in Nodes(m - {h}) && Before(m, k) in Nodes(m - {h})
  {
    AddMember(p, m, h, k);
  }

  /** list_del and list_del_init take out the element at one position, list_move prepends it to the
      list of the root `t`, and list_move_tail appends it. */
  lemma ElementSteps(p: Ptrs, m: Rings, k: ListHead, i: nat, t: ListHead)
    requires World(p, m) && k in m && i < |m[k]| && t in m
    ensures var h := m[k][i];
            && Legal(m, Del(h)) && Legal(m, DelInit(h)) && Legal(m, Move(h, t))
            && (k != t || i + 1 < |m[k]| ==> Legal(m, MoveTail(h, t)))
    ensures var h, m1 := m[k][i], m[k := m[k][..i] + m[k][i + 1..]];
            && Step(m, Del(h)) == m1
            && Step(m, DelInit(h)) == m1[h := []]
            && Step(m, Move(h, t)) == m1[t := [h] + m1[t]]
            && (k != t || i + 1 < |m[k]| ==> Step(m, MoveTail(h, t)) == m1[t := m1[t] + [h]])
  {
    DelMember(m, k, i);
    MoveMember(p, m, k, i, t);
    if k != t || i + 1 < |m[k]| {
      NotLast(m, k, i, t);
    }
    hide Moved, Deleted, Before;
    assert m[k][..i] + m[k][i + 1..] == RemoveAt(m[k], i);
  }

  lemma NotLast(m: Rings, k: ListHead, i: nat, t: ListHead)
    requires Disjoint(m) && k in m && i < |m[k]| && t in m && (k != t || i + 1 < |m[k]|)
    ensures t in Nodes(m) && m[k][i] != Before(m, t)
  {
    BeforeRoot(m, t);
    var j := |m[t]|;
    assert Cycle(m, k)[i + 1] == m[k][i] && Cycle(m, t)[j] == Last(m, t);
    assert m[k][i] in Cycle(m, k) && Last(m, t) in Cycle(m, t);
  }

  /** list_splice prepends the list of `l` to that of another root, list_splice_tail appends it; the
      list of `l` ends empty. */
  lemma SpliceSteps(p: Ptrs, m: Rings, l: ListHead, k: ListHead)
    requires World(p, m) && l in m && k in m && l != k
    ensures Legal(m, Splice(l, k)) && Legal(m, SpliceTail(l, k))
    ensures Step(m, Splice(l, k)) == m[k := m[l] + m[k]][l := []]
    ensures Step(m, SpliceTail(l, k)) == m[k := m[k] + m[l]][l := []]
  {
    SpliceLists(p, m, l, k);
    hide Spliced;
  }

  /** A node of a ring, its neighbours and theirs are list heads of the heap. */
  lemma InHeap(d: set<ListHead>, m: Rings, n: ListHead)
    requires World(Heap(d), m) && n in Nodes(m)
    ensures n in d && n.next in d && n.prev in d && n.prev.next in d
    ensures n.prev == Before(m, n) && n.prev in Nodes(m)
  {
    PrevIsBefore(Heap(d), m, n);
    PrevIsBefore(Heap(d), m, Before(m, n));
    PrevIsBefore(Heap(d), m, n.next);
  }

  lemma AddTailSite(p: Ptrs, m: Rings, h: ListHead, root: ListHead)
    requires World(p, m) && CanAdd(m, h, root)
    ensures root in Nodes(m) && CanAdd(m, h, Before(m, root))
  {
    FreeWorld(p, m, h);
    PrevIsBefore(p, m, root);
    PrevIsBefore(p, m - {h}, root);
  }

  method ExecAdd(op: Op, ghost m: Rings, ghost d: set<ListHead>)
    requires World(Heap(d), m) && Legal(m, op) && op.h in d && (op.Init? || op.Add? || op.AddTail?)
    modifies d
    ensures World(Heap(d), Step(m, op))
  {
    ghost var p := Heap(d);
    match op {
      case Init(h) =>
        InitWorld(p, m, h);
        ListInit(h, d);
      case Add(h, root) =>
        AddWorld(p, m, h, root);
        InHeap(d, m, root);
        ListAdd(h, root, d);
      case AddTail(h, root) =>
        AddTailSite(p, m, h, root);
        InHeap(d, m, root);
        AddWorld(p, m, h, Before(m, root));
        ListAddTail(h, root, d);
    }
  }

  method ExecDel(op: Op, ghost m: Rings, ghost d: set<ListHead>)
    requires World(Heap(d), m) && Legal(m, op) && op.h in d && (op.Del? || op.DelInit?)
    modifies d
    ensures World(Heap(d), Step(m, op))
  {
    ghost var p := Heap(d);
    match op {
      case Del(h) =>
        InHeap(d, m, h);
        DelWorld(p, m, h);
        ListDel(h, d);
      case DelInit(h) =>
        InHeap(d, m, h);
        DelWorld(p, m, h);
        InitWorld(DelPtrs(p, h), Deleted(m, h), h);
        ListDelInit(h, d);
    }
  }

  method ExecMove(op: Op, ghost m: Rings, ghost d: set<ListHead>)
    requires World(Heap(d), m) && Legal(m, op) && op.h in d && (op.Move? || op.MoveTail?)
    modifies d
    ensures World(Heap(d), Step(m, op))
  {
    ghost var p := Heap(d);
    match op {
      case Move(h, root) =>
        InHeap(d, m, h);
        InHeap(d, m, root);
        MoveWorld(p, m, h, root);
        ListMove(h, root, d);
      case MoveTail(h, root) =>
        InHeap(d, m, h);
        InHeap(d, m, root);
        MoveWorld(p, m, h, Before(m, root));
        ListMoveTail(h, root, d);
    }
  }

  method ExecSplice(op: Op, ghost m: Rings, ghost d: set<ListHead>)
    requires World(Heap(d), m) && Legal(m, op) && op.h in d && (op.Splice? || op.SpliceTail?)
    modifies d
    ensures World(Heap(d), Step(m, op))
  {
    ghost var p := Heap(d);
    match op {
      case Splice(h, root) =>
        InHeap(d, m, h);
        InHeap(d, m, root);
        SpliceWorld(p, m, h, root);
        ListSplice(h, root, d);
      case SpliceTail(h, root) =>
        InHeap(d, m, h);
        InHeap(d, m, root);
        SpliceWorld(p, m, h, Before(m, root));
        ListSpliceTail(h, root, d);
    }
  }

  method Exec(op: Op, ghost m: Rings, ghost d: set<ListHead>)
    requires World(Heap(d), m) && Legal(m, op) && op.h in d
    modifies d
    ensures World(Heap(d), Step(m, op))
  {
    if op.Init? || op.Add? || op.AddTail? {
      ExecAdd(op, m, d);
    } else if op.Del? || op.DelInit? {
      ExecDel(op, m, d);
    } else if op.Move? || op.MoveTail? {
      ExecMove(op, m, d);
    } else {
      ExecSplice(op, m, d);
    }
  }

  ghost predicate LegalRun(m: Rings, ops: seq<Op>)
    decreases |ops|
  {
    ops == [] || (Legal(m, ops[0]) && LegalRun(Step(m, ops[0]), ops[1..]))
  }

  ghost function RunRings(m: Rings, ops: seq<Op>): Rings
    decreases |ops|
  {
    if ops == [] then m else RunRings(Step(m, ops[0]), ops[1..])
  }

  /** Any run of legal operations leaves a heap of disjoint rings, and exactly the expected ones. */
  method Run(ops: seq<Op>, ghost m: Rings, ghost d: set<ListHead>)
    requires World(Heap(d), m) && LegalRun(m, ops)
    requires forall i :: 0 <= i < |ops| ==> ops[i].h in d
    modifies d
    ensures World(Heap(d), RunRings(m, ops))
  {
    ghost var now := m;
    for i := 0 to |ops|
      invariant World(Heap(d), now)
      invariant LegalRun(now, ops[i..]) && RunRings(now, ops[i..]) == RunRings(m, ops)
    {
      assert ops[i..][0] == ops[i] && ops[i..][1..] == ops[i + 1..];
      Exec(ops[i], now, d);
      now := Step(now, ops[i]);
    }
  }
}
