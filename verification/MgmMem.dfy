/** The ownership pool of mgmmem.c: pointers that are released together. */
module MgmMem {
  import opened Memory
  import opened TypeUtils

  /** A pointer is its address; NULL is 0. */
  const NULL: int := 0

  class Pool {
    const size: IntType
    const intBits: nat
    const entrySize: nat
    var entries: array?<int>
    var num: nat
    var capacity: nat
    var nullSeen: bool
    /** Entries copied so far by reallocations. */
    ghost var copied: nat

    ghost predicate Valid()
      reads this, entries
    {
      && size.Proper() && !size.signed && 2 < size.bits && 0 < entrySize <= size.Max()
      && num <= capacity <= size.Max()
      && (if entries == null then capacity == 0 else entries.Length == capacity)
      && copied <= 2 * capacity && copied <= 3 * num
    }

    /** The pointers owned by the pool, oldest first. */
    ghost function Owned(): seq<int>
      requires Valid()
      reads this, entries
    {
      if entries == null then [] else entries[..num]
    }

    /** mgmmem_init */
    constructor (size: IntType, intBits: nat, entrySize: nat)
      requires size.Proper() && !size.signed && 2 < size.bits && 0 < entrySize <= size.Max()
      ensures Valid() && Owned() == [] && entries == null && !nullSeen && copied == 0
    {
      this.size, this.intBits, this.entrySize := size, intBits, entrySize;
      entries, num, capacity := null, 0, 0;
      nullSeen := false;
      copied := 0;
    }

    /** Xrecalloc of the entries, or the end of the run. */
    method Recalloc(n: nat) returns (st: Status, tmp: array<int>)
      requires Valid() && num <= n && size.Has(n)
      ensures st == TooLarge <==> n * entrySize > size.Max()
      ensures st.Done? ==> fresh(tmp) && tmp.Length == n && tmp[..num] == Owned()
    {
      tmp := new int[n];
      var overflow, total := MulOverflow(size, intBits, n, entrySize, 0);
      if overflow {
        return TooLarge, tmp;
      }
      if * {
        return NoMemory, tmp;
      }
      if entries != null {
        forall i | 0 <= i < num {
          tmp[i] := entries[i];
        }
      }
      st := Done;
    }

    /** The next capacity, 1.5 times the entries and 2 more. */
    function NewCount(): nat
      reads this
    {
      num * 150 / 100 + 2
    }

    /** No size_t result wraps behind the guard, and the pool really grows. */
    lemma NewCountFits()
      requires Valid() && num <= size.Max() / 150
      ensures num * 150 <= size.Max() && num < NewCount() <= size.Max()
      ensures NewCount() == num * 3 / 2 + 2
    {
      Pow2Mono(3, size.bits);
    }

    /** _mgmmem_xfer. It never returns false. */
    method Xfer(ptr: int) returns (st: Status, ok: bool)
      requires Valid()
      modifies this, entries
      ensures st == TooLarge <==>
                ptr != NULL && old(num == capacity)
                && (old(num) > size.Max() / 150 || (old(num) * 3 / 2 + 2) * entrySize > size.Max())
      ensures st.Done? ==>
                if ptr != NULL && old(num == capacity) then capacity == old(num) * 3 / 2 + 2 && copied == old(copied + num)
                else capacity == old(capacity) && copied == old(copied)
      ensures st.Done? ==> ok && Valid() && nullSeen == (old(nullSeen) || ptr == NULL)
      ensures st.Done? ==> Owned() == old(Owned()) + if ptr == NULL then [] else [ptr]
      ensures st.Done? ==> entries == old(entries) || fresh(entries)
    {
      if ptr == NULL {
        nullSeen := true;
        return Done, true;
      }
      st := Done;
      var tmp: array?<int>;
      if num < capacity {
        tmp := entries;
      } else {
        if num > size.Max() / 150 {
          return TooLarge, false;
        }
        NewCountFits();
        var n := num * 150 / 100 + 2;
        st, tmp := Recalloc(n);
        if st != Done {
          return st, false;
        }
        copied := copied + num;
        entries := tmp;
        capacity := n;
      }
      // the source frees the pointer and sets MGMMEM_POOL_BAD_ALLOC otherwise: a dead branch
      assert tmp != null;
      num := num + 1;
      tmp[num - 1] := ptr;
      ok := true;
    }

    /** mgmmem_destroy frees the owned pointers, the youngest first. */
    method Destroy() returns (freed: seq<int>)
      requires Valid()
      ensures freed == Reversed(Owned())
      ensures |freed| == num && forall i :: 0 <= i < num ==> freed[i] == Owned()[num - 1 - i]
    {
      freed := [];
      ghost var owned := Owned();
      var i := num;
      while i > 0
        invariant 0 <= i <= num == |owned|
        invariant freed == Reversed(owned[i..])
      {
        assert owned[i - 1..] == [owned[i - 1]] + owned[i..];
        freed := freed + [entries[i - 1]];
        i := i - 1;
      }
      assert owned[0..] == owned;
      ReversedAt(owned);
    }
  }

  ghost function Reversed<T>(s: seq<T>): seq<T> {
    if s == [] then [] else Reversed(s[1..]) + [s[0]]
  }

  lemma {:induction false} ReversedConcat<T>(a: seq<T>, b: seq<T>)
    ensures Reversed(a + b) == Reversed(b) + Reversed(a)
  {
    if a == [] {
      assert a + b == b;
    } else {
      ReversedConcat(a[1..], b);
      assert (a + b)[1..] == a[1..] + b;
    }
  }

  lemma {:induction false} ReversedAt<T>(s: seq<T>)
    ensures |Reversed(s)| == |s| && forall i :: 0 <= i < |s| ==> Reversed(s)[i] == s[|s| - 1 - i]
  {
    if s != [] {
      ReversedAt(s[1..]);
    }
  }

  ghost function NonNull(ptrs: seq<int>): seq<int> {
    if ptrs == [] then []
    else NonNull(ptrs[..|ptrs| - 1]) + if ptrs[|ptrs| - 1] == NULL then [] else [ptrs[|ptrs| - 1]]
  }

  /** Releasing in reverse releases every pointer as often as it was handed over. */
  lemma {:induction false} FreedAsOften(ptrs: seq<int>, p: int)
    requires p != NULL
    ensures multiset(Reversed(NonNull(ptrs)))[p] == multiset(ptrs)[p]
    ensures NULL !in Reversed(NonNull(ptrs))
  {
    if ptrs != [] {
      var front, last := ptrs[..|ptrs| - 1], ptrs[|ptrs| - 1];
      assert ptrs == front + [last];
      FreedAsOften(front, p);
      assert multiset(ptrs) == multiset(front) + multiset{last};
      if last == NULL {
        assert NonNull(ptrs) == NonNull(front);
      } else {
        ReversedConcat(NonNull(front), [last]);
        var freed := Reversed(NonNull(front));
        assert Reversed(NonNull(ptrs)) == [last] + freed;
        assert multiset(Reversed(NonNull(ptrs))) == multiset{last} + multiset(freed);
      }
    }
  }

  /** The capacity after `k` transfers of pointers to a new pool, and the entries copied so far. */
  ghost function Growth(k: nat): (nat, nat) {
    if k == 0 then (0, 0) else
      var (capacity, copied) := Growth(k - 1);
      if capacity == k - 1 then (capacity * 3 / 2 + 2, copied + capacity) else (capacity, copied)
  }

  /** Growing by half keeps the copying linear. */
  lemma {:induction false} GrowthIsLinear(k: nat)
    ensures var (capacity, copied) := Growth(k); k <= capacity && copied <= 2 * capacity && copied <= 3 * k
  {
    if k > 0 {
      GrowthIsLinear(k - 1);
    }
  }

  /** A whole life: every transfer, then the end. What was handed over is released in reverse
      order, and all reallocations together have copied at most three entries per transfer. */
  method Life(size: IntType, intBits: nat, entrySize: nat, ptrs: seq<int>)
    returns (st: Status, freed: seq<int>, ghost copied: nat)
    requires size.Proper() && !size.signed && 2 < size.bits && 0 < entrySize <= size.Max()
    ensures st.Done? ==> freed == Reversed(NonNull(ptrs))
    ensures st.Done? ==> copied == Growth(|NonNull(ptrs)|).1 <= 3 * |NonNull(ptrs)|
  {
    var pool := new Pool(size, intBits, entrySize);
    freed, copied := [], 0;
    for i := 0 to |ptrs|
      invariant pool.Valid() && fresh(pool) && (pool.entries == null || fresh(pool.entries))
      invariant pool.Owned() == NonNull(ptrs[..i]) && (pool.capacity, pool.copied) == Growth(pool.num)
    {
      assert ptrs[..i + 1][..i] == ptrs[..i];
      var ok;
      st, ok := pool.Xfer(ptrs[i]);
      if st != Done {
        return;
      }
    }
    assert ptrs[..|ptrs|] == ptrs;
    st := Done;
    copied := pool.copied;
    GrowthIsLinear(pool.num);
    freed := pool.Destroy();
  }
}
