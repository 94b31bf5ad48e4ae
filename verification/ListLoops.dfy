/** list_foreach_save: walking a list while the body takes nodes out of it. */
module ListLoops {
  import opened Rings
  import opened ListOps
  import opened ListRings
  import opened ListRuns

  /** What the loop body does with the current node: nothing, list_del, list_del_init, list_move to
      any list, or list_move_tail to another one. */
  datatype Action = Keep | Remove | RemoveInit | Send(dst: ListHead, front: bool)

  /** The nodes of `s` whose action is `a`, in order. */
  ghost function Chosen(s: seq<ListHead>, acts: seq<Action>, a: Action): seq<ListHead>
    requires |s| == |acts|
  {
    if s == [] then []
    else
      var i := |s| - 1;
      Chosen(s[..i], acts[..i], a) + if acts[i] == a then [s[i]] else []
  }

  /** The same, last node first. */
  ghost function ChosenBack(s: seq<ListHead>, acts: seq<Action>, a: Action): seq<ListHead>
    requires |s| == |acts|
  {
    if s == [] then []
    else
      var i := |s| - 1;
      (if acts[i] == a then [s[i]] else []) + ChosenBack(s[..i], acts[..i], a)
  }

  lemma ChosenNext(s: seq<ListHead>, acts: seq<Action>, i: nat, a: Action)
    requires |s| == |acts| && i < |s|
    ensures Chosen(s[..i + 1], acts[..i + 1], a)
         == Chosen(s[..i], acts[..i], a) + if acts[i] == a then [s[i]] else []
    ensures ChosenBack(s[..i + 1], acts[..i + 1], a)
         == (if acts[i] == a then [s[i]] else []) + ChosenBack(s[..i], acts[..i], a)
  {
    assert s[..i + 1][..i] == s[..i] && acts[..i + 1][..i] == acts[..i];
  }

  lemma {:induction false} ChosenNoneIff(s: seq<ListHead>, acts: seq<Action>, a: Action)
    requires |s| == |acts|
    ensures Chosen(s, acts, a) == [] <==> a !in acts
    ensures ChosenBack(s, acts, a) == [] <==> a !in acts
  {
    if s != [] {
      var i := |s| - 1;
      ChosenNoneIff(s[..i], acts[..i], a);
      assert acts == acts[..i] + [acts[i]];
    }
  }

  // ---- the lists after the loop ----

  /** The list that the root `k` starts with. */
  ghost function ListOf(m: Rings, k: ListHead): seq<ListHead> {
    if k in m then m[k] else []
  }

  /** What is left of the list of `root`: nodes moved to its front, and those kept. */
  ghost function Remains(s: seq<ListHead>, acts: seq<Action>, root: ListHead): seq<ListHead>
    requires |acts| == |s|
  {
    ChosenBack(s, acts, Send(root, true)) + Chosen(s, acts, Keep)
  }

  /** The list of `root` after `i` turns: what remains so far, and what is still to come. */
  ghost function RemainsThenRest(s: seq<ListHead>, acts: seq<Action>, root: ListHead, i: nat): seq<ListHead>
    requires |acts| == |s| && i <= |s|
  {
    Remains(s[..i], acts[..i], root) + s[i..]
  }

  /** The list of another root: nodes moved to its front, its own, nodes moved to its end. */
  ghost function Extended(m: Rings, s: seq<ListHead>, acts: seq<Action>, dst: ListHead): seq<ListHead>
    requires |acts| == |s|
  {
    ChosenBack(s, acts, Send(dst, true)) + ListOf(m, dst) + Chosen(s, acts, Send(dst, false))
  }

  /** The roots after `i` turns: list_del_init makes a root of every node it removes. */
  ghost function RootsAfter(m: Rings, s: seq<ListHead>, acts: seq<Action>, i: nat): set<ListHead>
    requires |acts| == |s| && i <= |s|
  {
    m.Keys + Elems(Chosen(s[..i], acts[..i], RemoveInit))
  }

  /** All lists after `i` turns. */
  ghost function Midway(m: Rings, root: ListHead, acts: seq<Action>, i: nat): Rings
    requires root in m && |acts| == |m[root]| && i <= |acts|
  {
    var s := m[root];
    map k | k in RootsAfter(m, s, acts, i) ::
      if k == root then RemainsThenRest(s, acts, root, i) else Extended(m, s[..i], acts[..i], k)
  }

  /** Nodes are not sent to the end of the list itself, where the loop would meet them again. */
  ghost predicate SendsAway(m: Rings, root: ListHead, acts: seq<Action>) {
    forall i :: 0 <= i < |acts| && acts[i].Send? ==> acts[i].dst in m && (acts[i].dst == root ==> acts[i].front)
  }

  /** What one turn does to the lists. */
  ghost function Turned(mi: Rings, a: Action, h: ListHead): Rings {
    match a
    case Keep => mi
    case Remove => Step(mi, Del(h))
    case RemoveInit => Step(mi, DelInit(h))
    case Send(dst, front) => Step(mi, if front then Move(h, dst) else MoveTail(h, dst))
  }

  /** The same on sequences, for the node at position `n` of the list of `root`. */
  lemma TurnMeans(p: Ptrs, mi: Rings, root: ListHead, n: nat, a: Action)
    requires World(p, mi) && root in mi && n < |mi[root]|
    requires a.Send? ==> a.dst in mi && (a.dst == root ==> a.front)
    ensures var h := mi[root][n];
            && h in Nodes(mi)
            && (a.Send? ==> a.dst in Nodes(mi) && h != a.dst && (!a.front ==> h != Before(mi, a.dst)))
            && Turned(mi, a, h) == Edited(mi, root, RemoveAt(mi[root], n), a, h)
    ensures var h, m1 := mi[root][n], mi[root := mi[root][..n] + mi[root][n + 1..]];
            Turned(mi, a, h) ==
              match a
              case Keep => mi
              case Remove => m1
              case RemoveInit => m1[h := []]
              case Send(dst, front) => m1[dst := if front then [h] + m1[dst] else m1[dst] + [h]]
  {
    var h := mi[root][n];
    DelMember(mi, root, n);
    if a.Send? {
      BeforeRoot(mi, a.dst);
      assert h in Cycle(mi, root) && Last(mi, a.dst) in Cycle(mi, a.dst);
      MoveMember(p, mi, root, n, a.dst);
    }
  }

  lemma RemoveMiddle<T>(a: seq<T>, x: T, b: seq<T>)
    ensures a + ([x] + b) == a + [x] + b
    ensures RemoveAt(a + ([x] + b), |a|) == a + b
  {}

  lemma RemainsThenRestNext(s: seq<ListHead>, acts: seq<Action>, root: ListHead, i: nat)
    requires |acts| == |s| && i < |s|
    ensures var a, n := RemainsThenRest(s, acts, root, i), |Remains(s[..i], acts[..i], root)|;
            && n < |a| && a[n] == s[i]
            && RemainsThenRest(s, acts, root, i + 1) == if acts[i] == Keep then a
                                                        else if acts[i] == Send(root, true) then [s[i]] + RemoveAt(a, n)
                                                        else RemoveAt(a, n)
  {
    hide Chosen, ChosenBack;
    ChosenNext(s, acts, i, Keep);
    ChosenNext(s, acts, i, Send(root, true));
    var f, kept := ChosenBack(s[..i], acts[..i], Send(root, true)), Chosen(s[..i], acts[..i], Keep);
    assert s[i..] == [s[i]] + s[i + 1..];
    RemoveMiddle(f + kept, s[i], s[i + 1..]);
    BothEnds(f, kept, s[i + 1..], s[i]);
    Assoc(f, kept, [s[i]]);
  }

  lemma Assoc<T>(a: seq<T>, b: seq<T>, c: seq<T>)
    ensures a + b + c == a + (b + c)
  {}

  lemma ExtendedNext(m: Rings, s: seq<ListHead>, acts: seq<Action>, i: nat, k: ListHead)
    requires |acts| == |s| && i < |s|
    ensures var now := Extended(m, s[..i], acts[..i], k);
            Extended(m, s[..i + 1], acts[..i + 1], k)
            == if acts[i] == Send(k, true) then [s[i]] + now
               else if acts[i] == Send(k, false) then now + [s[i]]
               else now
  {
    hide Chosen, ChosenBack, ListOf;
    ChosenNext(s, acts, i, Send(k, true));
    ChosenNext(s, acts, i, Send(k, false));
    var f, b := ChosenBack(s[..i], acts[..i], Send(k, true)), Chosen(s[..i], acts[..i], Send(k, false));
    BothEnds(f, ListOf(m, k), b, s[i]);
  }

  lemma BothEnds<T>(f: seq<T>, l: seq<T>, b: seq<T>, x: T)
    ensures [x] + f + l + b == [x] + (f + l + b) && f + l + (b + [x]) == f + l + b + [x]
    ensures [] + f == f && b + [] == b
  {}

  /** A node that is still in the list of `root` belongs to no other list, and none is named after it. */
  lemma NotYetARoot(m: Rings, root: ListHead, acts: seq<Action>, i: nat)
    requires root in m && |acts| == |m[root]| && i < |acts| && SendsAway(m, root, acts)
    requires Disjoint(m)
    ensures m[root][i] !in m && forall j :: 0 <= j < |acts| ==> acts[j] != Send(m[root][i], true) && acts[j] != Send(m[root][i], false)
  {
    var h := m[root][i];
    assert Cycle(m, root)[i + 1] == h && Cycle(m, root)[0] == root;
    forall k | k in m
      ensures k != h
    {
      assert h in Cycle(m, root) && k in Cycle(m, k);
    }
  }

  lemma {:induction false} NeverChosen(s: seq<ListHead>, acts: seq<Action>, a: Action)
    requires |s| == |acts| && a !in acts
    ensures Chosen(s, acts, a) == [] && ChosenBack(s, acts, a) == []
  {
    if s != [] {
      var i := |s| - 1;
      NeverChosen(s[..i], acts[..i], a);
    }
  }

  /** The list of another root `k` after a turn with node `h`. */
  ghost function Other(mi: Rings, a: Action, h: ListHead, k: ListHead): seq<ListHead> {
    if a == RemoveInit && k == h then []
    else if a == Send(k, true) then [h] + ListOf(mi, k)
    else if a == Send(k, false) then ListOf(mi, k) + [h]
    else ListOf(mi, k)
  }

  /** Roots and lists before and after turn `i`. */
  lemma MidwayLists(m: Rings, root: ListHead, acts: seq<Action>, i: nat)
    requires Disjoint(m) && root in m && |acts| == |m[root]| && i < |acts| && SendsAway(m, root, acts)
    ensures var mi, mj, h := Midway(m, root, acts, i), Midway(m, root, acts, i + 1), m[root][i];
            && root in mi && root in mj && h != root
            && mj.Keys == mi.Keys + (if acts[i] == RemoveInit then {h} else {})
            && (forall k :: k in mj && k != root ==> mj[k] == Other(mi, acts[i], h, k))
  {
    hide Chosen, ChosenBack, Extended, RemainsThenRest;
    var s, h := m[root], m[root][i];
    var mi, mj := Midway(m, root, acts, i), Midway(m, root, acts, i + 1);
    ChosenNext(s, acts, i, RemoveInit);
    NotYetARoot(m, root, acts, i);
    forall k | k in mj && k != root
      ensures mj[k] == Other(mi, acts[i], h, k)
    {
      ExtendedNext(m, s, acts, i, k);
      if acts[i] == RemoveInit && k == h {
        NewRootIsEmpty(m, root, acts, i);
      }
    }
  }

  lemma Assemble(mi: Rings, mj: Rings, root: ListHead, e: seq<ListHead>, a: Action, h: ListHead)
    requires root in mi && root in mj && h != root && (a.Send? ==> a.dst in mi && (a.dst == root ==> a.front))
    requires mj.Keys == mi.Keys + (if a == RemoveInit then {h} else {})
    requires forall k :: k in mj && k != root ==> mj[k] == Other(mi, a, h, k)
    requires mj[root] == if a == Keep then mi[root] else if a == Send(root, true) then [h] + e else e
    ensures mj == Edited(mi, root, e, a, h)
  {}

  /** The lists, when the list of `root` becomes `e` by losing `h`. */
  ghost function Edited(mi: Rings, root: ListHead, e: seq<ListHead>, a: Action, h: ListHead): Rings {
    match a
    case Keep => mi
    case Remove => mi[root := e]
    case RemoveInit => mi[root := e][h := []]
    case Send(dst, front) =>
      var list := if dst == root then e else ListOf(mi, dst);
      mi[root := e][dst := if front then [h] + list else list + [h]]
  }

  /** The lists after turn `i` are those after the body has worked on the lists before it. */
  lemma MidwayNext(p: Ptrs, m: Rings, root: ListHead, acts: seq<Action>, i: nat)
    requires Disjoint(m) && root in m && |acts| == |m[root]| && i < |acts| && SendsAway(m, root, acts)
    requires World(p, Midway(m, root, acts, i))
    ensures var mi, h := Midway(m, root, acts, i), m[root][i];
            && h in Nodes(mi)
            && (acts[i].Send? ==> acts[i].dst in Nodes(mi) && h != acts[i].dst
                                  && (!acts[i].front ==> h != Before(mi, acts[i].dst)))
            && Midway(m, root, acts, i + 1) == Turned(mi, acts[i], h)
  {
    hide Chosen, Extended, World, RemainsThenRest, Turned, Other, Edited;
    var s, h := m[root], m[root][i];
    var mi, mj := Midway(m, root, acts, i), Midway(m, root, acts, i + 1);
    RemainsThenRestNext(s, acts, root, i);
    var n := |Remains(s[..i], acts[..i], root)|;
    TurnMeans(p, mi, root, n, acts[i]);
    MidwayLists(m, root, acts, i);
    Assemble(mi, mj, root, RemoveAt(mi[root], n), acts[i], h);
  }

  lemma NewRootIsEmpty(m: Rings, root: ListHead, acts: seq<Action>, i: nat)
    requires Disjoint(m) && root in m && |acts| == |m[root]| && i < |acts| && SendsAway(m, root, acts)
    ensures Extended(m, m[root][..i + 1], acts[..i + 1], m[root][i]) == []
  {
    var h := m[root][i];
    NotYetARoot(m, root, acts, i);
    NeverChosen(m[root][..i + 1], acts[..i + 1], Send(h, true));
    NeverChosen(m[root][..i + 1], acts[..i + 1], Send(h, false));
  }

  // ---- the loop ----

  lemma MidwayStart(m: Rings, root: ListHead, acts: seq<Action>)
    requires root in m && |acts| == |m[root]|
    ensures Midway(m, root, acts, 0) == m
  {
    var s := m[root];
    assert RemainsThenRest(s, acts, root, 0) == s;
    forall k
      ensures Extended(m, s[..0], acts[..0], k) == ListOf(m, k)
    {
      BothEnds(ListOf(m, k), [], [], k);
    }
  }

  lemma MidwayEnd(m: Rings, root: ListHead, acts: seq<Action>)
    requires root in m && |acts| == |m[root]|
    ensures Midway(m, root, acts, |acts|) == AfterLoop(m, root, acts)
  {
    var s := m[root];
    assert s[..|s|] == s && acts[..|s|] == acts && s[|s|..] == [];
    assert Remains(s, acts, root) + [] == Remains(s, acts, root);
  }

  /** The whole effect of the loop: the root has the nodes moved to its front, the last one first,
      and those that were kept, in order; every other list has the nodes sent to its front, the last one first, and those sent to its end, in order;
      the nodes removed with list_del_init are empty lists. */
  ghost function AfterLoop(m: Rings, root: ListHead, acts: seq<Action>): Rings
    requires root in m && |acts| == |m[root]|
  {
    var s := m[root];
    map k | k in m.Keys + Elems(Chosen(s, acts, RemoveInit)) ::
      if k == root then Remains(s, acts, root) else Extended(m, s, acts, k)
  }

  /** The list of the root ends empty exactly when the body leaves no node in it. */
  lemma EmptiedIff(m: Rings, root: ListHead, acts: seq<Action>)
    requires root in m && |acts| == |m[root]|
    ensures AfterLoop(m, root, acts)[root] == [] <==> Keep !in acts && Send(root, true) !in acts
  {
    ChosenNoneIff(m[root], acts, Keep);
    ChosenNoneIff(m[root], acts, Send(root, true));
  }

  /** The loop body. */
  method Act(it: ListHead, a: Action, ghost mi: Rings, ghost d: set<ListHead>)
    requires World(Heap(d), mi) && it in d && it in Nodes(mi)
    requires a.Send? ==> a.dst in Nodes(mi) && it != a.dst && (!a.front ==> it != Before(mi, a.dst))
    modifies d
    ensures World(Heap(d), Turned(mi, a, it))
  {
    match a {
      case Keep =>
      case Remove => Exec(Del(it), mi, d);
      case RemoveInit => Exec(DelInit(it), mi, d);
      case Send(dst, front) =>
        if front {
          Exec(Move(it, dst), mi, d);
        } else {
          Exec(MoveTail(it, dst), mi, d);
        }
    }
  }

  /** Where the loop stands before turn `i`, and where it goes next. */
  lemma Ahead(d: set<ListHead>, m: Rings, root: ListHead, acts: seq<Action>, i: nat)
    requires root in m && |acts| == |m[root]| && i < |acts|
    requires World(Heap(d), Midway(m, root, acts, i))
    ensures m[root][i] in d && m[root][i].next in d
    ensures m[root][i].next == if i + 1 < |acts| then m[root][i + 1] else root
  {
    hide Chosen;
    var mi := Midway(m, root, acts, i);
    RemainsThenRestNext(m[root], acts, root, i);
    var c := Cycle(mi, root);
    var n := |Remains(m[root][..i], acts[..i], root)| + 1;
    assert c[n] == m[root][i] && c[0] == root;
    RingAt(Heap(d), c, n);
    OwnerIs(mi, root, c[n]);
    InHeap(d, mi, c[n]);
    assert i + 1 < |acts| ==> c[n + 1] == m[root][i + 1];
  }

  lemma TakeNext<T>(s: seq<T>, i: nat)
    requires i < |s|
    ensures s[..i + 1] == s[..i] + [s[i]]
  {}

  lemma RootIsNoMember(m: Rings, root: ListHead)
    requires Disjoint(m) && root in m
    ensures root !in m[root]
  {
    forall i | 0 <= i < |m[root]|
      ensures m[root][i] != root
    {
      assert Cycle(m, root)[0] == root && Cycle(m, root)[i + 1] == m[root][i];
    }
  }

  /** The body for the node of turn `i`. */
  method Turn(it: ListHead, a: Action, ghost m: Rings, ghost root: ListHead, ghost acts: seq<Action>, ghost i: nat,
              ghost d: set<ListHead>)
    requires Disjoint(m) && root in m && |acts| == |m[root]| && i < |acts| && SendsAway(m, root, acts)
    requires World(Heap(d), Midway(m, root, acts, i)) && it == m[root][i] && a == acts[i]
    modifies d
    ensures World(Heap(d), Midway(m, root, acts, i + 1))
  {
    hide Midway, Turned, World;
    MidwayNext(Heap(d), m, root, acts, i);
    Ahead(d, m, root, acts, i);
    Act(it, a, Midway(m, root, acts, i), d);
  }

  lemma FirstNode(d: set<ListHead>, m: Rings, root: ListHead)
    requires World(Heap(d), m) && root in m
    ensures root in d && root.next == if m[root] == [] then root else m[root][0]
    ensures Disjoint(m) && root !in m[root]
  {
    RootIsNoMember(m, root);
    RingAt(Heap(d), Cycle(m, root), 0);
    OwnerIs(m, root, root);
    InHeap(d, m, root);
  }

  /** list_foreach_save visits the original nodes once each, in order, and ends, whatever the body
      removes or moves. */
  method ForeachSave(root: ListHead, acts: seq<Action>, ghost m: Rings, ghost d: set<ListHead>)
    returns (visited: seq<ListHead>)
    requires World(Heap(d), m) && root in m && |acts| == |m[root]| && SendsAway(m, root, acts)
    modifies d
    ensures visited == m[root]
    ensures World(Heap(d), AfterLoop(m, root, acts))
  {
    hide World, Midway, AfterLoop, SendsAway, Disjoint;
    ghost var s := m[root];
    visited := [];
    MidwayStart(m, root, acts);
    FirstNode(d, m, root);
    var it := root.next;
    var tmp := it.next;
    while it != root
      invariant |visited| <= |s| && visited == s[..|visited|]
      invariant World(Heap(d), Midway(m, root, acts, |visited|))
      invariant it == if |visited| < |s| then s[|visited|] else root
      invariant it != root ==> tmp == it.next
      decreases |s| - |visited|
    {
      ghost var i := |visited|;
      Ahead(d, m, root, acts, i);
      Turn(it, acts[|visited|], m, root, acts, i, d);
      TakeNext(s, i);
      visited := visited + [it];
      it := tmp;
      tmp := it.next;
    }
    assert |visited| == |acts| && s[..|s|] == s;
    MidwayEnd(m, root, acts);
  }
}
