/** The two readers of length-prefixed strings, on the output of either writer. */
module Interop {
  import opened Memory
  import opened Kernel
  import opened Wire
  import opened Io
  import opened Unserialize

  /** read_stra on a frame, whether write_str or serialize_buf has made it. */
  method StraReadsFrame(fd: Descriptor, s: seq<Byte>, ghost tail: seq<Byte>)
    returns (r: StraResult, dst: array?<Byte>, len: nat)
    requires fd.pending == EncodeBuf(s) + tail && |s| < WORD32 - 1 && fd.Calm(false)
    modifies fd`pending, fd`schedule
    ensures r.Read? || r.NoBlock?
    ensures r.Read? ==> len == |s| <= |Bytes(dst)| && Bytes(dst)[..len] == s && fd.pending == tail
    ensures r.Read? ==> if s == [] then dst == null else dst != null && dst.Length == len + 1 && dst[len] == 0
  {
    DecodeBufOf(None, s, tail);
    ReadCallDecodes(None, fd.pending);
    HeaderOf(s, tail);
    r, dst, len := ReadStra(fd);
  }

  lemma HeaderOf(s: seq<Byte>, tail: seq<Byte>)
    requires |s| < WORD32
    ensures |EncodeBuf(s) + tail| >= 4 && FromBigEndian((EncodeBuf(s) + tail)[..4]) == |s|
  {
    WordSizes();
    FromBigEndianOf(4, |s|);
    assert (EncodeBuf(s) + tail)[..4] == BigEndian(4, |s|);
  }

  /** unserialize_stra on the same frame, from any source: the same string and length, except that
      the empty string is a block of its own here. */
  method UnserializeReadsFrame(src: Source, s: seq<Byte>, ghost tail: seq<Byte>, sizeMax: nat)
    returns (st: Status, res: array<Byte>, len: nat)
    requires src.Valid() && src.Calm() && WORD32 <= sizeMax + 1
    requires src.Pending() == EncodeBuf(s) + tail && |s| < WORD32
    modifies src.Obj()
    ensures src.Valid()
    ensures st.Done? ==> len == |s| && res.Length == len + 1 && res[..len] == s && res[len] == 0
    ensures st.Done? ==> src.Pending() == tail
  {
    DecodeBufOf(None, s, tail);
    var ok;
    ok, st, res, len := TextAlloc(src, sizeMax);
  }
}
