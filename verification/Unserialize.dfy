/** The decoders of unserialize.h over memory, sockets and file descriptors. */
module Unserialize {
  import opened Memory
  import opened Kernel
  import opened StrBuf
  import opened Wire
  import TypeUtils

  /** unserialize_stream_mem: the bytes from `ptr` on, `cnt` of them. */
  class MemSource {
    const mem: seq<Byte>
    var ptr: nat
    var cnt: nat

    ghost predicate Valid()
      reads this
    {
      ptr + cnt <= |mem|
    }

    constructor (mem: seq<Byte>)
      ensures Valid() && this.mem == mem && ptr == 0 && cnt == |mem|
    {
      this.mem := mem;
      ptr, cnt := 0, |mem|;
    }

    /** _unserialize_cpy_mem: all or nothing. */
    method Cpy(dst: array<Byte>, off: nat, len: nat) returns (ok: bool)
      requires Valid() && off + len <= dst.Length
      modifies this, dst
      ensures Valid()
      ensures Taken(old(mem[ptr..ptr + cnt]), mem[ptr..ptr + cnt], old(dst[..]), dst[..], off, len, ok)
      ensures ok <==> len <= old(cnt)
      ensures !ok ==> ptr == old(ptr) && cnt == old(cnt)
    {
      if len > cnt {
        TakenNothing(mem[ptr..ptr + cnt], dst[..], off, len);
        return false;
      }
      Memcpy(dst, off, mem[ptr..ptr + len]);
      assert mem[ptr..ptr + len] == mem[ptr..ptr + cnt][..len];
      assert mem[ptr + len..ptr + cnt] == mem[ptr..ptr + cnt][len..];
      cnt := cnt - len;
      ptr := ptr + len;
      ok := true;
    }
  }

  /** _unserialize_cpy_fd and _unserialize_cpy_socket, which are the same loop around read() and
      recv(): short counts, EINTR and EAGAIN only delay the transfer. */
  method CpyDescriptor(src: Descriptor, dst: array<Byte>, off: nat, len: nat) returns (ok: bool)
    requires off + len <= dst.Length
    modifies src`pending, src`schedule, dst
    ensures Taken(old(src.pending), src.pending, old(dst[..]), dst[..], off, len, ok)
    ensures old(src.Calm(true)) ==> src.Calm(true) && (ok <==> len <= |old(src.pending)|)
    ensures old(src.Calm(true)) && !ok ==> src.pending == []
  {
    hide Taken;
    var at, left := off, len;
    ghost var s0, b0 := src.pending, dst[..];
    TakenNothing(s0, b0, off, 0);
    while left > 0
      invariant at + left == off + len && off <= at && 0 <= left
      invariant Taken(s0, src.pending, b0, dst[..], off, at - off, true)
      invariant AllCalm(old(src.schedule), true) ==> AllCalm(src.schedule, true)
      decreases left, |src.schedule|
    {
      var l, errno := src.ReadOn(dst, at, left, s0, b0, off);
      if l > 0 {
        left := left - l;
        at := at + l;
      } else if l == 0 {
        break;
      } else if errno == EINTR {
        continue;
      } else if errno == EAGAIN {
        // select() returns when there may be input again
      } else {
        break;
      }
    }
    TakenShort(s0, src.pending, b0, dst[..], off, at - off, len);
    ok := left == 0;
  }

  /** An unserialize_stream, by its type tag. */
  datatype Source = SrcMem(m: MemSource) | SrcSocket(s: Descriptor) | SrcFd(f: Descriptor) {
    ghost function Obj(): object {
      match this
      case SrcMem(m) => m
      case SrcSocket(s) => s
      case SrcFd(f) => f
    }

    ghost predicate Valid()
      reads Obj()
    {
      SrcMem? ==> m.Valid()
    }

    /** The bytes not read yet. */
    ghost function Pending(): seq<Byte>
      requires Valid()
      reads Obj()
    {
      match this
      case SrcMem(m) => m.mem[m.ptr..m.ptr + m.cnt]
      case SrcSocket(s) => s.pending
      case SrcFd(f) => f.pending
    }

    /** No hard error lies ahead. */
    ghost predicate Calm()
      reads Obj()
    {
      match this
      case SrcMem(_) => true
      case SrcSocket(s) => s.Calm(true)
      case SrcFd(f) => f.Calm(true)
    }
  }

  method Cpy(src: Source, dst: array<Byte>, off: nat, len: nat) returns (ok: bool)
    requires src.Valid() && off + len <= dst.Length
    modifies src.Obj(), dst
    ensures src.Valid()
    ensures Taken(old(src.Pending()), src.Pending(), old(dst[..]), dst[..], off, len, ok)
    ensures old(src.Calm()) ==> src.Calm() && (ok <==> len <= |old(src.Pending())|)
    ensures old(src.Calm()) && !ok ==> src.Pending() == if src.SrcMem? then old(src.Pending()) else []
  {
    match src {
      case SrcMem(m) => ok := m.Cpy(dst, off, len);
      case SrcSocket(s) => ok := CpyDescriptor(s, dst, off, len);
      case SrcFd(f) => ok := CpyDescriptor(f, dst, off, len);
    }
  }

  /** A refusal means that copying `l` bytes would fail; only memory can tell. */
  method IsAvailable(src: Source, l: nat) returns (r: bool)
    requires src.Valid()
    ensures r <==> (src.SrcMem? ==> l <= |src.Pending()|)
    ensures !r ==> |src.Pending()| < l
  {
    match src {
      case SrcMem(m) => r := m.cnt >= l;
      case SrcSocket(_) => r := true;
      case SrcFd(_) => r := true;
    }
  }

  /** A big-endian integer of `n` bytes. */
  method Word(src: Source, n: nat) returns (ok: bool, v: nat)
    requires src.Valid()
    modifies src.Obj()
    ensures src.Valid()
    ensures ok ==> DecodeInt(n, old(src.Pending())) == Some((v, src.Pending()))
    ensures old(src.Calm()) ==> src.Calm() && (ok <==> n <= |old(src.Pending())|)
    ensures old(src.Calm()) && !ok ==> src.Pending() == if src.SrcMem? then old(src.Pending()) else []
  {
    var buf := new Byte[n];
    ghost var b := buf[..];
    ok := Cpy(src, buf, 0, n);
    v := 0;
    if ok {
      TakenWhole(old(src.Pending()), src.Pending(), b, buf[..], n);
      assert buf[..] == buf[..n];
      v := FromBigEndian(buf[..]);
    }
  }

  /** unserialize_u16, _u32 and _u64, byte by byte. */
  method UInt(src: Source, n: nat) returns (ok: bool, v: nat)
    requires src.Valid()
    modifies src.Obj()
    ensures src.Valid()
    ensures ok ==> DecodeInt(n, old(src.Pending())) == Some((v, src.Pending()))
    ensures ok ==> n <= |old(src.Pending())| && src.Pending() == old(src.Pending())[n..]
    ensures old(src.Calm()) ==> src.Calm() && (ok <==> n <= |old(src.Pending())|)
    ensures old(src.Calm()) && !ok ==> src.Pending() == if src.SrcMem? then old(src.Pending()) else []
    ensures ok && n == 2 ==> var b := old(src.Pending()); v == 256 * b[0] as int + b[1] as int
    ensures ok && n == 4 ==>
              var b := old(src.Pending());
              v == 16777216 * b[0] as int + 65536 * b[1] as int + 256 * b[2] as int + b[3] as int
    ensures ok && n == 8 ==>
              var b := old(src.Pending());
              v == 72057594037927936 * b[0] as int + 281474976710656 * b[1] as int
                   + 1099511627776 * b[2] as int + 4294967296 * b[3] as int + 16777216 * b[4] as int
                   + 65536 * b[5] as int + 256 * b[6] as int + b[7] as int
  {
    hide FromBigEndian;
    ok, v := Word(src, n);
    if ok {
      WordValues(old(src.Pending())[..n]);
    }
  }

  lemma WordValues(b: seq<Byte>)
    ensures |b| == 2 ==> FromBigEndian(b) == 256 * b[0] as int + b[1] as int
    ensures |b| == 4 ==>
              FromBigEndian(b) == 16777216 * b[0] as int + 65536 * b[1] as int + 256 * b[2] as int + b[3] as int
    ensures |b| == 8 ==>
              FromBigEndian(b) == 72057594037927936 * b[0] as int + 281474976710656 * b[1] as int
                                  + 1099511627776 * b[2] as int + 4294967296 * b[3] as int + 16777216 * b[4] as int
                                  + 65536 * b[5] as int + 256 * b[6] as int + b[7] as int
  {
    hide FromBigEndian;
    if |b| == 2 {
      Word16Value(b);
    } else if |b| == 4 {
      Word32Value(b);
    } else if |b| == 8 {
      Word64Value(b);
    }
  }

  method TimeT(src: Source) returns (ok: bool, t: int)
    requires src.Valid()
    modifies src.Obj()
    ensures src.Valid()
    ensures ok ==> Decode(SlotTime, old(src.Pending())) == Some((Time(t), src.Pending()))
    ensures ok ==> 8 <= |old(src.Pending())| && src.Pending() == old(src.Pending())[8..]
    ensures ok ==> var b := old(src.Pending());
                   var v := 72057594037927936 * b[0] as int + 281474976710656 * b[1] as int
                            + 1099511627776 * b[2] as int + 4294967296 * b[3] as int + 16777216 * b[4] as int
                            + 65536 * b[5] as int + 256 * b[6] as int + b[7] as int;
                   t == if b[0] < 128 then v else v - 18446744073709551616
    ensures old(src.Calm()) ==> src.Calm() && (ok <==> Decode(SlotTime, old(src.Pending())).Some?)
  {
    hide FromBigEndian;
    var tmp;
    ok, tmp := Word(src, 8);
    if ok {
      TimeValue(old(src.Pending())[..8]);
    }
    t := TIME.Convert(tmp);
  }

  /** unserialize_buf: the destination keeps its bytes behind the new length. */
  method Buffer(src: Source, dst: array<Byte>, dstLen: nat) returns (ok: bool, newLen: nat)
    requires src.Valid() && dstLen <= dst.Length
    modifies src.Obj(), dst
    ensures src.Valid()
    ensures ok ==> newLen <= dstLen && dst[newLen..] == old(dst[..])[newLen..]
    ensures ok ==> DecodeBuf(Some(dstLen), old(src.Pending())) == Some((dst[..newLen], src.Pending()))
    ensures !ok ==> newLen == dstLen
    ensures old(src.Calm()) ==> src.Calm() && (ok <==> DecodeBuf(Some(dstLen), old(src.Pending())).Some?)
    ensures ok ==> old(src.Pending()) == [newLen / 16777216 % 256, newLen / 65536 % 256, newLen / 256 % 256, newLen % 256]
                                         + dst[..newLen] + src.Pending()
    ensures old(src.Calm()) && !ok ==>
              var s := old(src.Pending());
              src.Pending() ==
                if |s| < 4 then (if src.SrcMem? then s else [])
                else if dstLen < 16777216 * s[0] as int + 65536 * s[1] as int + 256 * s[2] as int + s[3] as int then s[4..]
                else if src.SrcMem? then s[4..] else []
  {
    hide FromBigEndian;
    if |src.Pending()| >= 4 {
      Word32Value(src.Pending()[..4]);
    }
    newLen := dstLen;
    var l;
    ok, l := Word(src, 4);
    if !ok || dstLen < l {
      return false, dstLen;
    }
    ghost var s := src.Pending();
    ok := Cpy(src, dst, 0, l);
    if !ok {
      return;
    }
    TakenWhole(s, src.Pending(), old(dst[..]), dst[..], l);
    newLen := l;
    DecodeBufIff(Some(dstLen), old(src.Pending()), dst[..newLen], src.Pending());
  }

  /** unserialize_str: the same with a NUL behind the string. */
  method Text(src: Source, dst: array<Byte>, max: nat) returns (ok: bool)
    requires src.Valid() && max <= dst.Length
    modifies src.Obj(), dst
    ensures src.Valid()
    ensures ok ==> 0 < max && DecodeBuf(Some(max - 1), old(src.Pending())).Some?
    ensures ok ==> var (s, rest) := DecodeBuf(Some(max - 1), old(src.Pending())).value;
              && src.Pending() == rest
              && s + [0] <= dst[..]
              && dst[|s| + 1..] == old(dst[..])[|s| + 1..]
    ensures old(src.Calm()) ==> src.Calm() && (ok <==> Decode(SlotStr(max), old(src.Pending())).Some?)
  {
    hide DecodeBuf;
    if max == 0 {
      return false;
    }
    var l;
    ok, l := Buffer(src, dst, max - 1);
    if ok {
      NulStored(dst[..], old(dst[..]), l);
      dst[l] := 0;
    }
  }

  /** unserialize_bufa: into a growable buffer. */
  method BufferAlloc(src: Source, dst: StrBuf, optimize: bool) returns (ok: bool, st: Status)
    requires src.Valid() && dst.Valid() && WORD32 <= dst.sizeMax + 1
    modifies src.Obj(), dst, dst.b
    ensures src.Valid()
    ensures st.Done? ==> dst.Valid() && (dst.b == old(dst.b) || fresh(dst.b))
    ensures st.Done? && ok ==> DecodeBuf(None, old(src.Pending())) == Some((dst.Content(), src.Pending()))
    ensures st.Done? && ok && optimize ==> dst.alloc == dst.len
    ensures st.Done? && old(src.Calm()) ==> src.Calm() && (ok <==> DecodeBuf(None, old(src.Pending())).Some?)
    ensures st.Done? && !ok ==> dst.Content() == old(dst.Content()) || dst.Content() == []
  {
    hide FromBigEndian;
    st := Done;
    var l, available;
    ok, l := Word(src, 4);
    if !ok {
      return;
    }
    available := IsAvailable(src, l);
    if !available {
      return false, Done;
    }
    WordSizes();
    BigEndianOf(old(src.Pending())[..4]);
    ok, st := FillBuffer(src, dst, l);
    if ok && st == Done && optimize {
      st := dst.Shrink();
    }
  }

  /** The payload of unserialize_bufa. */
  method FillBuffer(src: Source, dst: StrBuf, l: nat) returns (ok: bool, st: Status)
    requires src.Valid() && dst.Valid() && l <= dst.sizeMax
    modifies src.Obj(), dst, dst.b
    ensures src.Valid()
    ensures st.Done? ==> dst.Valid() && (dst.b == old(dst.b) || fresh(dst.b))
    ensures st.Done? && ok ==> l <= |old(src.Pending())|
    ensures st.Done? && ok ==> dst.Content() == old(src.Pending())[..l] && src.Pending() == old(src.Pending())[l..]
    ensures st.Done? && !ok ==> dst.Content() == []
    ensures old(src.Calm()) ==> src.Calm() && (st.Done? ==> (ok <==> l <= |old(src.Pending())|))
  {
    hide Taken;
    ok := true;
    dst.Clear();
    st := dst.Allocate(l);
    if st != Done {
      return;
    }
    if l > 0 {
      ghost var b := dst.b[..];
      ok := Cpy(src, dst.b, 0, l);
      if !ok {
        return;
      }
      TakenWhole(old(src.Pending()), src.Pending(), b, dst.b[..], l);
      assert dst.b[..l] == old(src.Pending())[..l];
    }
    dst.len := l;
  }

  /** unserialize_stra: a fresh C string of exactly the length that was sent, plus its NUL. */
  method TextAlloc(src: Source, sizeMax: nat) returns (ok: bool, st: Status, res: array<Byte>, len: nat)
    requires src.Valid() && WORD32 <= sizeMax + 1
    modifies src.Obj()
    ensures src.Valid()
    ensures st.Done? && ok ==> res.Length == len + 1 && res[len] == 0 && fresh(res)
    ensures st.Done? && ok ==> DecodeBuf(None, old(src.Pending())) == Some((res[..len], src.Pending()))
    ensures st.Done? && old(src.Calm()) ==> src.Calm() && (ok <==> DecodeBuf(None, old(src.Pending())).Some?)
  {
    res, len := new Byte[0], 0;
    var buf := new StrBuf(sizeMax);
    ok, st := BufferAlloc(src, buf, false);
    if st != Done || !ok {
      return;
    }
    st, res, len := IntoString(buf);
  }

  /** strbuf_to_str with optimization, then strbuf_xfer. */
  method IntoString(buf: StrBuf) returns (st: Status, res: array<Byte>, len: nat)
    requires buf.Valid()
    modifies buf, buf.b
    ensures st.Done? ==> res.Length == len + 1 && res[..len] == old(buf.Content()) && res[len] == 0
    ensures st.Done? ==> res == old(buf.b) || fresh(res)
  {
    res, len := new Byte[0], 0;
    st := buf.ToStr(true);
    if st != Done {
      return;
    }
    assert Bytes(buf.b)[..buf.len] == buf.Content();
    st, res, len := buf.Xfer();
  }

  // ---- runs ----

  /** What the caller of unserialize_str sees: a C string, which ends at the first NUL. */
  function Seen(slot: Slot, r: Record): Record {
    if slot.SlotStr? && r.Str? then Str(CString(r.s)) else r
  }

  method GetText(src: Source, max: nat) returns (ok: bool, s: seq<Byte>)
    requires src.Valid()
    modifies src.Obj()
    ensures src.Valid()
    ensures ok ==> 0 < max && DecodeBuf(Some(max - 1), old(src.Pending())).Some?
    ensures ok ==> var (raw, rest) := DecodeBuf(Some(max - 1), old(src.Pending())).value;
                   s == CString(raw) && src.Pending() == rest
    ensures old(src.Calm()) ==> src.Calm() && (ok <==> Decode(SlotStr(max), old(src.Pending())).Some?)
  {
    hide DecodeBuf;
    var dst := new Byte[max];
    ok := Text(src, dst, max);
    s := CString(dst[..]);
    if ok {
      ghost var raw := DecodeBuf(Some(max - 1), old(src.Pending())).value.0;
      CStringOf(raw, dst[|raw| + 1..]);
      assert dst[..] == raw + [0] + dst[|raw| + 1..];
    }
  }

  method GetBuffer(src: Source, sizeMax: nat) returns (ok: bool, st: Status, b: seq<Byte>)
    requires src.Valid() && 17 < sizeMax && WORD32 <= sizeMax + 1
    modifies src.Obj()
    ensures src.Valid()
    ensures st.Done? && ok ==> DecodeBuf(None, old(src.Pending())) == Some((b, src.Pending()))
    ensures st.Done? && old(src.Calm()) ==> src.Calm() && (ok <==> DecodeBuf(None, old(src.Pending())).Some?)
  {
    hide DecodeBuf;
    var dst := new StrBuf(sizeMax);
    ok, st := BufferAlloc(src, dst, true);
    b := [];
    if st.Done? && ok && dst.b != null {
      b := dst.b[..dst.len];
    }
  }

  /** The call for one slot; `sizeMax` is SIZE_MAX. */
  method Get(src: Source, slot: Slot, sizeMax: nat) returns (ok: bool, st: Status, r: Record)
    requires src.Valid() && 17 < sizeMax && WORD32 <= sizeMax + 1
    modifies src.Obj()
    ensures src.Valid()
    ensures st.Done? && ok ==> Decode(slot, old(src.Pending())).Some?
    ensures st.Done? && ok ==> var (q, rest) := Decode(slot, old(src.Pending())).value;
                               r == Seen(slot, q) && src.Pending() == rest
    ensures st.Done? && old(src.Calm()) ==> src.Calm() && (ok <==> Decode(slot, old(src.Pending())).Some?)
  {
    hide DecodeBuf, FromBigEndian, BigEndian;
    st := Done;
    match slot {
      case SlotU32 =>
        var v;
        ok, v := Word(src, 4);
        r := U32(v);
      case SlotU64 =>
        var v;
        ok, v := Word(src, 8);
        r := U64(v);
      case SlotTime =>
        var t;
        ok, t := TimeT(src);
        r := Time(t);
      case SlotBuf(room) =>
        var dst, l := new Byte[room], 0;
        ok, l := Buffer(src, dst, room);
        r := Buf(dst[..l]);
      case SlotStr(max) =>
        var s;
        ok, s := GetText(src, max);
        r := Str(s);
      case SlotBufAlloc =>
        var b;
        ok, st, b := GetBuffer(src, sizeMax);
        r := Buf(b);
      case SlotStrAlloc =>
        var res, l;
        ok, st, res, l := TextAlloc(src, sizeMax);
        r := Str([]);
        if st.Done? && ok {
          r := Str(res[..l]);
        }
    }
  }

  /** Reading a whole list, from any source: memory, sockets and descriptors give the same. */
  method GetAll(src: Source, slots: seq<Slot>, sizeMax: nat) returns (ok: bool, st: Status, rs: seq<Record>)
    requires src.Valid() && 17 < sizeMax && WORD32 <= sizeMax + 1
    modifies src.Obj()
    ensures src.Valid()
    ensures st.Done? && ok ==> DecodeAll(slots, old(src.Pending())).Some? && |rs| == |slots|
    ensures st.Done? && ok ==> var (qs, rest) := DecodeAll(slots, old(src.Pending())).value;
                               && |qs| == |rs| && src.Pending() == rest
                               && forall i :: 0 <= i < |rs| ==> rs[i] == Seen(slots[i], qs[i])
    ensures st.Done? && old(src.Calm()) ==> (ok <==> DecodeAll(slots, old(src.Pending())).Some?)
    decreases |slots|
  {
    hide Decode, Seen;
    if slots == [] {
      return true, Done, [];
    }
    var r;
    ok, st, r := Get(src, slots[0], sizeMax);
    rs := [r];
    if st != Done || !ok {
      return;
    }
    var rest;
    ok, st, rest := GetAll(src, slots[1..], sizeMax);
    rs := [r] + rest;
  }

  /** The round trip through the code: what was serialized is read back, from any source and over
      any schedule of short reads, EINTR and EAGAIN, and the bytes behind it are not touched. */
  method ReadBack(src: Source, rs: seq<Record>, slots: seq<Slot>, ghost tail: seq<Byte>, sizeMax: nat)
    returns (ok: bool, st: Status, qs: seq<Record>)
    requires src.Valid() && src.Calm() && 17 < sizeMax && WORD32 <= sizeMax + 1
    requires src.Pending() == EncodeAll(rs) + tail && FitAll(rs, slots)
    requires forall i :: 0 <= i < |rs| && rs[i].Str? ==> 0 !in rs[i].s
    modifies src.Obj()
    ensures src.Valid()
    ensures st.Done? ==> ok && qs == rs && src.Pending() == tail
  {
    RoundTrip(rs, slots, tail);
    ok, st, qs := GetAll(src, slots, sizeMax);
    if st.Done? {
      forall i | 0 <= i < |rs|
        ensures Seen(slots[i], rs[i]) == rs[i]
      {
        if rs[i].Str? {
          CStringOf(rs[i].s, []);
        }
      }
    }
  }
}
