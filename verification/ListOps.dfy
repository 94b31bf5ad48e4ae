/** The operations of list.h: the pointers they write, and what that means for the rings. */
module ListOps {
  import opened Rings

  // ---- pointer level ----

  ghost function InitPtrs(p: Ptrs, h: ListHead): Ptrs {
    Ptrs(p.next[h := h], p.prev[h := h])
  }

  ghost function AddPtrs(p: Ptrs, h: ListHead, at: ListHead): Ptrs
    requires at in p.next
  {
    Ptrs(p.next[h := p.next[at]][at := h], p.prev[p.next[at] := h][h := at])
  }

  ghost function DelPtrs(p: Ptrs, r: ListHead): Ptrs
    requires r in p.next && r in p.prev
  {
    Ptrs(p.next[p.prev[r] := p.next[r]], p.prev[p.next[r] := p.prev[r]])
  }

  ghost function MovePtrs(p: Ptrs, h: ListHead, at: ListHead): Ptrs
    requires h in p.next && h in p.prev && at in p.next
  {
    AddPtrs(DelPtrs(p, h), h, at)
  }

  ghost function SplicePtrs(p: Ptrs, l: ListHead, at: ListHead): Ptrs
    requires l in p.next && l in p.prev && at in p.next
  {
    if p.next[l] == l then p else
      var first, last := p.next[l], p.prev[l];
      var next := p.next[last := p.next[at]];
      InitPtrs(Ptrs(next[at := first], p.prev[first := at][next[at] := last]), l)
  }

  /** One store to a `next` pointer. */
  method SetNext(n: ListHead, v: ListHead, ghost d: set<ListHead>)
    requires n in d
    modifies n`next
    ensures n.next == v
    ensures Heap(d) == Ptrs(old(Heap(d)).next[n := v], old(Heap(d)).prev)
  {
    n.next := v;
  }

  /** One store to a `prev` pointer. */
  method SetPrev(n: ListHead, v: ListHead, ghost d: set<ListHead>)
    requires n in d
    modifies n`prev
    ensures n.prev == v
    ensures Heap(d) == Ptrs(old(Heap(d)).next, old(Heap(d)).prev[n := v])
  {
    n.prev := v;
  }

  method ListInit(h: ListHead, ghost d: set<ListHead>)
    requires h in d
    modifies h
    ensures Heap(d) == InitPtrs(old(Heap(d)), h)
  {
    h.next := h;
    h.prev := h;
  }

  method ListAdd(head: ListHead, root: ListHead, ghost d: set<ListHead>)
    requires head in d && root in d && root.next in d
    modifies head, root`next, root.next`prev
    ensures Heap(d) == AddPtrs(old(Heap(d)), head, root)
  {
    var tmp := root.next;
    SetPrev(tmp, head, d);
    SetNext(head, tmp, d);
    SetPrev(head, root, d);
    SetNext(root, head, d);
  }

  method ListAddTail(head: ListHead, root: ListHead, ghost d: set<ListHead>)
    requires head in d && root in d && root.prev in d && root.prev.next in d
    modifies head, root.prev`next, root.prev.next`prev
    ensures Heap(d) == AddPtrs(old(Heap(d)), head, old(root.prev))
  {
    ListAdd(head, root.prev, d);
  }

  method ListDel(r: ListHead, ghost d: set<ListHead>)
    requires r in d && r.prev in d && r.next in d
    modifies r.prev`next, r.next`prev
    ensures Heap(d) == DelPtrs(old(Heap(d)), r)
  {
    var prev := r.prev;
    var next := r.next;
    SetNext(prev, next, d);
    SetPrev(next, prev, d);
  }

  method ListDelInit(r: ListHead, ghost d: set<ListHead>)
    requires r in d && r.prev in d && r.next in d
    modifies r, r.prev`next, r.next`prev
    ensures Heap(d) == InitPtrs(DelPtrs(old(Heap(d)), r), r)
  {
    ListDel(r, d);
    ListInit(r, d);
  }

  method ListMove(head: ListHead, root: ListHead, ghost d: set<ListHead>)
    requires head in d && head.prev in d && head.next in d && root in d && root.next in d
    modifies head, head.prev`next, head.next`prev, root`next, root.next`prev
    ensures Heap(d) == MovePtrs(old(Heap(d)), head, root)
  {
    ListDel(head, d);
    ListAdd(head, root, d);
  }

  method ListMoveTail(head: ListHead, root: ListHead, ghost d: set<ListHead>)
    requires head in d && head.prev in d && head.next in d && root in d && root.prev in d && root.prev.next in d
    modifies head, head.prev`next, head.next`prev, root.prev`next, root.prev.next`prev
    ensures Heap(d) == MovePtrs(old(Heap(d)), head, old(root.prev))
  {
    ListMove(head, root.prev, d);
  }

  predicate ListEmpty(h: ListHead)
    reads h
  {
    h.next == h
  }

  predicate ListSingular(h: ListHead)
    reads h, h.next
  {
    h.next.next == h
  }

  predicate ListIsLast(head: ListHead, root: ListHead)
    reads head
  {
    head.next == root
  }

  method ListSplice(list: ListHead, root: ListHead, ghost d: set<ListHead>)
    requires list in d && list.prev in d && list.next in d && root in d && root.next in d
    modifies list, list.prev`next, list.next`prev, root`next, root.next`prev
    ensures Heap(d) == SplicePtrs(old(Heap(d)), list, root)
  {
    if !ListEmpty(list) {
      var prev := list.prev;
      var next := list.next;
      SetPrev(next, root, d);
      SetNext(prev, root.next, d);
      SetPrev(root.next, prev, d);
      SetNext(root, next, d);
      ListInit(list, d);
    }
  }

  method ListSpliceTail(list: ListHead, root: ListHead, ghost d: set<ListHead>)
    requires list in d && list.prev in d && list.next in d && root in d && root.prev in d && root.prev.next in d
    modifies list, list.prev`next, list.next`prev, root.prev`next, root.prev.next`prev
    ensures Heap(d) == SplicePtrs(old(Heap(d)), list, old(root.prev))
  {
    ListSplice(list, root.prev, d);
  }
}
