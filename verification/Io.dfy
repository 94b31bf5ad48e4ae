/** The transfer loops and string frames of io.c. */
module Io {
  import opened Memory
  import opened Kernel
  import opened Wire

  /** read_all: like the descriptor source of unserialize.h, but EAGAIN is an error here. */
  method ReadAll(fd: Descriptor, dst: array<Byte>, off: nat, len: nat) returns (ok: bool)
    requires off + len <= dst.Length
    modifies fd`pending, fd`schedule, dst
    ensures Taken(old(fd.pending), fd.pending, old(dst[..]), dst[..], off, len, ok)
    ensures old(fd.Calm(false)) ==> fd.Calm(false) && (ok <==> len <= |old(fd.pending)|)
    ensures old(fd.Calm(false)) && !ok ==> fd.pending == []
  {
    hide Taken;
    var at, left := off, len;
    ghost var s0, b0 := fd.pending, dst[..];
    TakenNothing(s0, b0, off, 0);
    while left > 0
      invariant at + left == off + len && off <= at && 0 <= left
      invariant Taken(s0, fd.pending, b0, dst[..], off, at - off, true)
      invariant AllCalm(old(fd.schedule), false) ==> AllCalm(fd.schedule, false)
      decreases left, |fd.schedule|
    {
      var l, errno := fd.ReadOn(dst, at, left, s0, b0, off);
      if l > 0 {
        at := at + l;
        left := left - l;
      } else if l == 0 {
        break;
      } else if errno == EINTR {
        continue;
      } else {
        break;
      }
    }
    TakenShort(s0, fd.pending, b0, dst[..], off, at - off, len);
    ok := left == 0;
  }

  /** read_eof: the whole input, if it is shorter than the buffer. Input that fills the buffer
      exactly is refused, because its end is not seen. */
  method ReadEof(fd: Descriptor, dst: array<Byte>, max: nat) returns (r: int)
    requires max <= dst.Length
    modifies fd`pending, fd`schedule, dst
    ensures r == -1 || 0 <= r < max
    ensures r >= 0 ==> r == |old(fd.pending)| && fd.pending == []
    ensures r >= 0 ==> dst[..] == old(fd.pending) + old(dst[..])[r..]
    ensures old(fd.Calm(false)) ==> (r >= 0 <==> |old(fd.pending)| < max)
  {
    hide Taken;
    var len := 0;
    ghost var s0, b0 := fd.pending, dst[..];
    TakenNothing(s0, b0, 0, 0);
    while len < max
      invariant 0 <= len <= max
      invariant Taken(s0, fd.pending, b0, dst[..], 0, len, true)
      invariant AllCalm(old(fd.schedule), false) ==> AllCalm(fd.schedule, false)
      decreases max - len, |fd.schedule|
    {
      var l, errno := fd.ReadOn(dst, len, max - len, s0, b0, 0);
      if l > 0 {
        len := len + l;
      } else if l == 0 {
        TakenWhole(s0, fd.pending, b0, dst[..], len);
        TakenShort(s0, fd.pending, b0, dst[..], 0, len, len);
        assert s0 == s0[..len] && dst[..] == dst[..len] + dst[len..];
        return len;
      } else if errno == EINTR {
        continue;
      } else {
        return -1;
      }
    }
    TakenShort(s0, fd.pending, b0, dst[..], 0, len, len);
    r := -1;
  }

  /** For example, one byte of input into a buffer of one byte. */
  method ReadEofRefusesExactFit() returns (r: int)
    ensures r == -1
  {
    var fd := new Descriptor([7], []);
    var dst := new Byte[1];
    r := ReadEof(fd, dst, 1);
  }

  /** write_all: `k` bytes went out, and all of them exactly on success. */
  method WriteAll(fd: Descriptor, src: array?<Byte>, len: nat) returns (ok: bool, ghost k: nat)
    requires len <= |Bytes(src)|
    modifies fd`sent, fd`schedule
    ensures k <= len && fd.sent == old(fd.sent) + Bytes(src)[..k]
    ensures ok <==> k == len
    ensures old(fd.Calm(false)) ==> fd.Calm(false) && ok
  {
    var at, left := 0, len;
    while left > 0
      invariant at + left == len && 0 <= at && 0 <= left
      invariant fd.sent == old(fd.sent) + Bytes(src)[..at]
      invariant AllCalm(old(fd.schedule), false) ==> AllCalm(fd.schedule, false)
      decreases left, |fd.schedule|
    {
      var l, errno := fd.Write(src, at, left);
      if l > 0 {
        assert Bytes(src)[..at + l] == Bytes(src)[..at] + src[at..at + l];
        at := at + l;
        left := left - l;
      } else if l == 0 {
        break;
      } else if errno == EINTR {
        continue;
      } else {
        break;
      }
    }
    ok, k := left == 0, at;
  }

  /** The string that write_str is asked to send: `len` bytes, or a C string if `len` is -1. */
  function Payload(src: seq<Byte>, isNull: bool, len: int): (r: seq<Byte>)
    requires -1 <= len <= |src|
    ensures r <= src
    ensures len >= 0 ==> |r| == len
    ensures len == -1 && isNull ==> r == []
    ensures len == -1 && !isNull && 0 in src ==> 0 !in r && |r| < |src| && src[|r|] == 0
  {
    if len >= 0 then src[..len] else if isNull then [] else CString(src)
  }

  /** write_str sends the frame that serialize_buf appends. If it fails, it has sent a strict prefix
      of the frame. */
  method WriteStr(fd: Descriptor, src: array?<Byte>, len: int) returns (ok: bool)
    requires -1 <= len <= |Bytes(src)| && (len == -1 && src != null ==> 0 in src[..])
    modifies fd`sent, fd`schedule
    ensures old(fd.sent) <= fd.sent <= old(fd.sent) + EncodeBuf(Payload(Bytes(src), src == null, len))
    ensures ok <==> fd.sent == old(fd.sent) + EncodeBuf(Payload(Bytes(src), src == null, len))
    ensures ok && len >= 0 ==> fd.sent == old(fd.sent) + EncodeBuf(Bytes(src)[..len])
    ensures ok && len == -1 && src == null ==> fd.sent == old(fd.sent) + EncodeBuf([])
    ensures ok && len == -1 && src != null ==>
              exists k :: 0 <= k < src.Length && src[k] == 0 && 0 !in src[..k]
                          && fd.sent == old(fd.sent) + EncodeBuf(src[..k])
    ensures old(fd.Calm(false)) ==> fd.Calm(false) && ok
  {
    hide BigEndian;
    var n := if len != -1 then len else if src == null then 0 else |CString(src[..])|;
    assert Payload(Bytes(src), src == null, len) == Bytes(src)[..n];
    var header := new Byte[4];
    Memcpy(header, 0, BigEndian(4, n % WORD32));
    assert header[..] == BigEndian(4, n % WORD32);
    ok := SendBoth(fd, header, src, n);
    assert len == -1 && src != null ==> n < src.Length && src[n] == 0 && 0 !in src[..n];
  }

  /** The two transfers of write_str. */
  method SendBoth(fd: Descriptor, header: array<Byte>, src: array?<Byte>, n: nat) returns (ok: bool)
    requires n <= |Bytes(src)|
    modifies fd`sent, fd`schedule
    ensures old(fd.sent) <= fd.sent <= old(fd.sent) + (header[..] + Bytes(src)[..n])
    ensures ok <==> fd.sent == old(fd.sent) + (header[..] + Bytes(src)[..n])
    ensures old(fd.Calm(false)) ==> fd.Calm(false) && ok
  {
    ghost var k;
    ok, k := WriteAll(fd, header, header.Length);
    FrameParts(old(fd.sent), header[..], Bytes(src)[..n], k);
    if !ok {
      return;
    }
    assert header[..][..k] == header[..];
    ghost var s := fd.sent;
    ok, k := WriteAll(fd, src, n);
    assert Bytes(src)[..n][..k] == Bytes(src)[..k];
    FrameParts(old(fd.sent) + header[..], Bytes(src)[..n], [], k);
    FrameParts(old(fd.sent), header[..], Bytes(src)[..n], header.Length);
  }

  /** `k` bytes of `a`, on the way to `a + b`. */
  lemma FrameParts(sent: seq<Byte>, a: seq<Byte>, b: seq<Byte>, k: nat)
    requires k <= |a|
    ensures sent <= sent + a[..k] <= sent + (a + b)
    ensures k < |a| ==> sent + a[..k] != sent + (a + b)
    ensures sent + a + b == sent + (a + b) && a + [] == a
  {
    assert sent + (a + b) == (sent + a[..k]) + (a[k..] + b);
  }

  /** read_str: the frame and a NUL, if that fits in the buffer. A frame that is too long loses its
      header and leaves its payload in the input. */
  method ReadStr(fd: Descriptor, dst: array<Byte>, max: nat) returns (ok: bool)
    requires max <= dst.Length
    modifies fd`pending, fd`schedule, dst
    ensures ok ==> ReadCall(Some(max), old(fd.pending)).Frame?
    ensures ok ==> var call := ReadCall(Some(max), old(fd.pending));
                   && fd.pending == call.rest && |call.s| < max
                   && call.s + [0] <= dst[..]
                   && dst[|call.s| + 1..] == old(dst[..])[|call.s| + 1..]
    ensures old(fd.Calm(false)) ==> fd.Calm(false) && (ok <==> ReadCall(Some(max), old(fd.pending)).Frame?)
    ensures ok ==>
              exists n: nat :: n < max && dst[n] == 0
                && old(fd.pending) == [n / 16777216 % 256, n / 65536 % 256, n / 256 % 256, n % 256] + dst[..n] + fd.pending
    ensures old(fd.Calm(false)) && !ok ==>
              var s := old(fd.pending);
              fd.pending ==
                if 4 <= |s| && max <= 16777216 * s[0] as int + 65536 * s[1] as int + 256 * s[2] as int + s[3] as int
                then s[4..] else []
  {
    hide Taken, FromBigEndian;
    if |fd.pending| >= 4 {
      Word32Value(fd.pending[..4]);
    }
    var slen;
    ok, slen := ReadLength(fd);
    if !ok || slen >= max {
      return false;
    }
    ghost var s0, b0 := fd.pending, dst[..];
    ok := ReadAll(fd, dst, 0, slen);
    if ok {
      TakenWhole(s0, fd.pending, b0, dst[..], slen);
      NulStored(dst[..], b0, slen);
      dst[slen] := 0;
      ReadCallIff(Some(max), old(fd.pending), dst[..slen], fd.pending);
    }
  }

  /** The header of a frame. */
  method ReadLength(fd: Descriptor) returns (ok: bool, l: nat)
    modifies fd`pending, fd`schedule
    ensures ok ==> DecodeInt(4, old(fd.pending)) == Some((l, fd.pending)) && l < WORD32
    ensures ok ==> 4 <= |old(fd.pending)| && fd.pending == old(fd.pending)[4..]
    ensures ok ==> var b := old(fd.pending);
                   l == 16777216 * b[0] as int + 65536 * b[1] as int + 256 * b[2] as int + b[3] as int
    ensures old(fd.Calm(false)) ==> fd.Calm(false) && (ok <==> 4 <= |old(fd.pending)|)
    ensures old(fd.Calm(false)) && !ok ==> fd.pending == []
  {
    var b := new Byte[4];
    ghost var b0 := b[..];
    ok := ReadAll(fd, b, 0, 4);
    l := FromBigEndian(b[..]);
    if ok {
      TakenWhole(old(fd.pending), fd.pending, b0, b[..], 4);
      assert b[..] == b[..4];
      WordSizes();
      BigEndianOf(b[..]);
      Word32Value(b[..]);
    }
  }

  /** `NoBlock`: malloc has failed. `Overrun`: a byte of the payload has been stored behind the block. */
  datatype StraResult = Read | Failed | NoBlock | Overrun

  /** The length for which `slen + 1` wraps to 0 in 32 bits. */
  const STRA_LIMIT: nat := WORD32 - 1

  predicate HasLength(s: seq<Byte>, l: nat) {
    4 <= |s| && FromBigEndian(s[..4]) == l
  }

  /** read_stra: a fresh C string, or NULL for the empty string. Unless malloc fails, a frame is
      read exactly when it is complete and shorter than 2^32 - 1; a frame of that length overruns
      its block exactly when any byte of its payload arrives. */
  method ReadStra(fd: Descriptor) returns (r: StraResult, dst: array?<Byte>, len: nat)
    modifies fd`pending, fd`schedule
    ensures r.Read? ==> len <= |Bytes(dst)| && len < STRA_LIMIT && (dst == null <==> len == 0)
    ensures r.Read? ==> ReadCall(None, old(fd.pending)) == Frame(Bytes(dst)[..len], fd.pending)
    ensures r.Read? && dst != null ==> fresh(dst) && dst.Length == len + 1 && dst[len] == 0
    ensures r.Overrun? ==> 4 < |old(fd.pending)| && HasLength(old(fd.pending), STRA_LIMIT)
    ensures old(fd.Calm(false)) && !r.NoBlock? ==>
              (r.Overrun? <==> 4 < |old(fd.pending)| && HasLength(old(fd.pending), STRA_LIMIT))
    ensures old(fd.Calm(false)) && !r.NoBlock? ==>
              (r.Read? <==> ReadCall(None, old(fd.pending)).Frame? && |ReadCall(None, old(fd.pending)).s| < STRA_LIMIT)
    ensures r.Read? ==> old(fd.pending) == [len / 16777216 % 256, len / 65536 % 256, len / 256 % 256, len % 256]
                                           + Bytes(dst)[..len] + fd.pending
    ensures r.Overrun? ==> [255, 255, 255, 255] < old(fd.pending)
    ensures old(fd.Calm(false)) && !r.NoBlock? ==> (r.Overrun? <==> [255, 255, 255, 255] < old(fd.pending))
    ensures old(fd.Calm(false)) && r.Failed? ==> fd.pending == []
  {
    hide Taken, FromBigEndian, HasLength;
    LimitIff(fd.pending);
    dst, len := null, 0;
    var ok, slen := ReadLength(fd);
    if !ok {
      return Failed, null, 0;
    }
    LengthIs(old(fd.pending), slen);
    if slen == 0 {
      ReadCallIff(None, old(fd.pending), [], fd.pending);
      return Read, null, 0;
    }
    if * {
      return NoBlock, null, 0;
    }
    var buf := new Byte[(slen + 1) % WORD32];
    if buf.Length < slen {
      var arrives := ReadBeyond(fd);
      return if arrives then Overrun else Failed, null, 0;
    }
    ghost var s0, b0 := fd.pending, buf[..];
    ok := ReadAll(fd, buf, 0, slen);
    if !ok {
      return Failed, null, 0;
    }
    TakenWhole(s0, fd.pending, b0, buf[..], slen);
    buf[slen] := 0;
    ReadCallIff(None, old(fd.pending), buf[..slen], fd.pending);
    return Read, buf, slen;
  }

  lemma LengthIs(s: seq<Byte>, l: nat)
    requires 4 <= |s| && DecodeInt(4, s) == Some((l, s[4..]))
    ensures HasLength(s, STRA_LIMIT) <==> l == STRA_LIMIT
    ensures FromBigEndian(s[..4]) == l
  {}

  /** The bytes of that length. */
  lemma LimitIff(s: seq<Byte>)
    ensures HasLength(s, STRA_LIMIT) <==> [255, 255, 255, 255] <= s
  {
    hide FromBigEndian;
    if 4 <= |s| {
      Word32Value(s[..4]);
      assert [255, 255, 255, 255] <= s <==> s[0] == 255 && s[1] == 255 && s[2] == 255 && s[3] == 255;
    }
  }

  /** The loop of read_all up to its first store, for a block of no bytes; `beyond` stands for what
      lies behind the block. Without a byte to store the loop fails as for any other block. */
  method ReadBeyond(fd: Descriptor) returns (arrives: bool)
    modifies fd`pending, fd`schedule
    ensures arrives ==> old(fd.pending) != []
    ensures old(fd.Calm(false)) ==> (arrives <==> old(fd.pending) != [])
    ensures old(fd.Calm(false)) && !arrives ==> fd.pending == []
  {
    var beyond := new Byte[1];
    arrives := ReadAll(fd, beyond, 0, 1);
  }

  /** For example, a header of four 255 and one byte behind it. */
  method ReadStraOverruns() returns (r: StraResult)
    ensures r.NoBlock? || r.Overrun?
  {
    var fd := new Descriptor([255, 255, 255, 255, 65], []);
    assert [255, 255, 255, 255] < fd.pending;
    var dst, len;
    r, dst, len := ReadStra(fd);
  }
}
