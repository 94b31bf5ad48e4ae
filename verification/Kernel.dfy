/** File descriptors, as far as the transfer loops can see them. */
module Kernel {
  import opened Memory

  /** What the kernel does with one system call. */
  datatype Event = Moves(n: nat) | Interrupted | WouldBlock | Broken

  datatype Errno = EOK | EINTR | EAGAIN | EIO

  /** `ok` says that `len` bytes went from the front of the input to `buf` at `off`; otherwise only
      some of them did. Nothing is lost, repeated, reordered or written elsewhere. */
  ghost predicate Taken(before: seq<Byte>, after: seq<Byte>, buf0: seq<Byte>, buf: seq<Byte>,
                        off: nat, len: nat, ok: bool)
  {
    && |after| <= |before|
    && var n := |before| - |after|;
    && n <= len && off + len <= |buf0|
    && after == before[n..]
    && buf == buf0[..off] + before[..n] + buf0[off + n..]
    && (ok <==> n == len)
  }

  lemma TakenNothing(s: seq<Byte>, buf: seq<Byte>, off: nat, len: nat)
    requires off + len <= |buf|
    ensures Taken(s, s, buf, buf, off, len, len == 0)
  {
    assert buf == buf[..off] + s[..0] + buf[off + 0..];
  }

  /** Two transfers in a row are one transfer. */
  lemma TakenThen(s0: seq<Byte>, s1: seq<Byte>, s2: seq<Byte>, b0: seq<Byte>, b1: seq<Byte>, b2: seq<Byte>,
                  off: nat, n: nat, len: nat, ok: bool)
    requires Taken(s0, s1, b0, b1, off, n, true) && Taken(s1, s2, b1, b2, off + n, len, ok)
    requires off + n + len <= |b0|
    ensures Taken(s0, s2, b0, b2, off, n + len, ok)
  {
    var k := |s1| - |s2|;
    var x, y, z := b0[..off], s0[..n], b0[off + n..];
    assert b1 == x + y + z && |x + y| == off + n;
    assert b1[..off + n] == x + y;
    assert b1[off + n + k..] == z[k..];
    SplitAt(s0, n, k);
    SplitAt(b0, off + n, k);
    assert x + (y + s1[..k]) == x + y + s1[..k];
  }

  lemma SplitAt(s: seq<Byte>, i: nat, j: nat)
    requires i + j <= |s|
    ensures s[i..][j..] == s[i + j..] && s[..i + j] == s[..i] + s[i..][..j]
  {}

  /** Stopping early. */
  lemma TakenShort(s0: seq<Byte>, s1: seq<Byte>, b0: seq<Byte>, b1: seq<Byte>, off: nat, n: nat, len: nat)
    requires Taken(s0, s1, b0, b1, off, n, true) && n <= len && off + len <= |b0|
    ensures Taken(s0, s1, b0, b1, off, len, n == len)
    ensures |s0| - |s1| == n
  {}

  /** A transfer into a whole block. */
  lemma TakenWhole(s0: seq<Byte>, s1: seq<Byte>, b0: seq<Byte>, b1: seq<Byte>, n: nat)
    requires Taken(s0, s1, b0, b1, 0, n, true)
    ensures n <= |s0| && s1 == s0[n..] && n <= |b1| == |b0| && b1[..n] == s0[..n] && b1[n..] == b0[n..]
  {}

  /** The bytes moved by a system call that returned `l`. */
  function Count(l: int): nat {
    if l < 0 then 0 else l
  }

  predicate CalmEvent(e: Event, retries: bool) {
    (e.Moves? && e.n > 0) || e.Interrupted? || (retries && e.WouldBlock?)
  }

  ghost predicate AllCalm(es: seq<Event>, retries: bool) {
    forall i :: 0 <= i < |es| ==> CalmEvent(es[i], retries)
  }

  /** Calm means: no error, no transfer that reports the end early and, unless it is retried, no
      EAGAIN. */
  lemma CalmIff(es: seq<Event>, retries: bool)
    ensures AllCalm(es, retries) <==> Broken !in es && Moves(0) !in es && (retries || WouldBlock !in es)
  {
    if Broken !in es && Moves(0) !in es && (retries || WouldBlock !in es) {
      forall i | 0 <= i < |es|
        ensures CalmEvent(es[i], retries)
      {
        assert es[i] in es;
      }
    }
  }

  class Descriptor {
    var pending: seq<Byte>
    var sent: seq<Byte>
    var schedule: seq<Event>

    constructor (pending: seq<Byte>, schedule: seq<Event>)
      ensures this.pending == pending && this.schedule == schedule && sent == []
    {
      this.pending, this.schedule, sent := pending, schedule, [];
    }

    /** Only short transfers and interruptions lie ahead; with `retries`, also EAGAIN. */
    ghost predicate Calm(retries: bool)
      reads this
    {
      AllCalm(schedule, retries)
    }

    method Next() returns (e: Event)
      modifies this`schedule
      ensures schedule == if old(schedule) == [] then [] else old(schedule)[1..]
      ensures old(schedule) == [] || e == old(schedule)[0]
      ensures old(schedule) == [] ==> e.Moves? && e.n > 0
      ensures forall retries :: AllCalm(old(schedule), retries) ==> AllCalm(schedule, retries) && CalmEvent(e, retries)
    {
      if schedule == [] {
        return Moves(1);
      }
      e := schedule[0];
      schedule := schedule[1..];
    }

    /** The front of the input, at most `most` bytes of it. */
    method Deliver(dst: array<Byte>, off: nat, most: nat) returns (l: nat)
      requires 0 < most && off + most <= dst.Length
      modifies this`pending, dst
      ensures l <= most && (l == 0 ==> pending == [])
      ensures Taken(old(pending), pending, old(dst[..]), dst[..], off, l, true)
    {
      l := Min(most, |pending|);
      Memcpy(dst, off, pending[..l]);
      pending := pending[l..];
    }

    /** read(2): between one byte and all that is wanted and there; 0 only at the end of input. */
    method Read(dst: array<Byte>, off: nat, len: nat) returns (l: int, errno: Errno)
      requires 0 < len && off + len <= dst.Length
      modifies this`pending, this`schedule, dst
      ensures -1 <= l <= len
      ensures Taken(old(pending), pending, old(dst[..]), dst[..], off, Count(l), true)
      ensures l == 0 ==> pending == []
      ensures errno.EOK? <==> l >= 0
      ensures forall retries :: AllCalm(old(schedule), retries) ==> AllCalm(schedule, retries)
      ensures forall retries :: AllCalm(old(schedule), retries) ==> errno != EIO && (errno == EAGAIN ==> retries)
      ensures |schedule| <= |old(schedule)| && (l < 0 ==> |schedule| < |old(schedule)|)
    {
      var e := Next();
      match e {
        case Moves(n) =>
          l := Deliver(dst, off, Min(if n > 0 then n else 1, len));
          return l, EOK;
        case Interrupted => l, errno := -1, EINTR;
        case WouldBlock => l, errno := -1, EAGAIN;
        case Broken => l, errno := -1, EIO;
      }
      TakenNothing(pending, dst[..], off, 0);
    }

    /** The same, as the continuation of a transfer that began with the input `s0` and the block
        `b0` and has filled it from `off` up to `at`. */
    method ReadOn(dst: array<Byte>, at: nat, len: nat, ghost s0: seq<Byte>, ghost b0: seq<Byte>, ghost off: nat)
      returns (l: int, errno: Errno)
      requires 0 < len && off <= at && at + len <= dst.Length == |b0|
      requires Taken(s0, pending, b0, dst[..], off, at - off, true)
      modifies this`pending, this`schedule, dst
      ensures -1 <= l <= len
      ensures Taken(s0, pending, b0, dst[..], off, at - off + Count(l), true)
      ensures l == 0 ==> pending == []
      ensures errno.EOK? <==> l >= 0
      ensures forall retries :: AllCalm(old(schedule), retries) ==> AllCalm(schedule, retries)
      ensures forall retries :: AllCalm(old(schedule), retries) ==> errno != EIO && (errno == EAGAIN ==> retries)
      ensures |schedule| <= |old(schedule)| && (l < 0 ==> |schedule| < |old(schedule)|)
    {
      hide Taken;
      l, errno := Read(dst, at, len);
      TakenThen(s0, old(pending), pending, b0, old(dst[..]), dst[..], off, at - off, Count(l), true);
    }

    /** write(2): some of the bytes, possibly none. */
    method Write(src: array<Byte>, off: nat, len: nat) returns (l: int, errno: Errno)
      requires 0 < len && off + len <= src.Length
      modifies this`sent, this`schedule
      ensures -1 <= l <= len
      ensures sent == old(sent) + if l < 0 then [] else src[off..off + l]
      ensures errno.EOK? <==> l >= 0
      ensures forall retries :: AllCalm(old(schedule), retries) ==> AllCalm(schedule, retries)
      ensures forall retries :: AllCalm(old(schedule), retries) ==> errno != EIO && (errno == EAGAIN ==> retries) && l != 0
      ensures |schedule| <= |old(schedule)| && (l < 0 ==> |schedule| < |old(schedule)|)
    {
      var e := Next();
      match e {
        case Moves(n) =>
          var k := Min(n, len);
          sent := sent + src[off..off + k];
          return k, EOK;
        case Interrupted => l, errno := -1, EINTR;
        case WouldBlock => l, errno := -1, EAGAIN;
        case Broken => l, errno := -1, EIO;
      }
    }
  }
}
