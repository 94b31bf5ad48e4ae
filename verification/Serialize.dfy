/** The encoder of serialize.h: an append-only block that grows to the exact size it needs. */
module Serialize {
  import opened Memory
  import opened Wire

  /** A sum that wraps is smaller than either operand. */
  lemma SumWraps(sizeMax: nat, a: nat, b: nat)
    requires a <= sizeMax && b <= sizeMax
    ensures AddSize(sizeMax, a, b) == if a + b <= sizeMax then a + b else a + b - (sizeMax + 1)
  {
    ModOfSum(a + b, sizeMax + 1);
  }

  lemma ModOfSum(x: nat, m: nat)
    requires x < 2 * m
    ensures x % m == if x < m then x else x - m
  {
    if x >= m {
      assert x / m == 1;
    }
  }

  class SerializeStream {
    const sizeMax: nat
    var base: array?<Byte>
    var cnt: nat
    var capacity: nat

    ghost predicate Valid()
      reads this, base
    {
      cnt <= capacity <= sizeMax && |Bytes(base)| == capacity
    }

    /** The stream so far. */
    ghost function Content(): seq<Byte>
      requires Valid()
      reads this, base
    {
      Bytes(base)[..cnt]
    }

    /** INIT_SERIALIZE_STREAM */
    constructor (sizeMax: nat)
      ensures Valid() && Content() == [] && base == null && this.sizeMax == sizeMax
    {
      this.sizeMax := sizeMax;
      base, cnt, capacity := null, 0, 0;
    }

    /** serialize_allocate: there is room for `len` more bytes exactly if the sum is a size_t value;
        otherwise it wraps, and nothing happens. */
    method Allocate(len: nat) returns (st: Status)
      requires Valid() && len <= sizeMax
      modifies this
      ensures st != TooLarge
      ensures st.Done? ==> Valid() && cnt == old(cnt) && Content() == old(Content())
      ensures st.Done? ==> (cnt + len <= capacity <==> cnt + len <= sizeMax)
      ensures st.Done? ==> capacity == if old(capacity) < cnt + len <= sizeMax then cnt + len else old(capacity)
      ensures st.Done? ==> base == old(base) || fresh(base)
    {
      st := Done;
      SumWraps(sizeMax, cnt, len);
      if AddSize(sizeMax, cnt, len) > capacity {
        var l := AddSize(sizeMax, cnt, len);
        var b;
        st, b := Xrealloc(base, l);
        base := b;
        capacity := l;
        if st.Done? {
          assert b[..cnt] == old(Content());
        }
      }
    }

    /** _serialize_cpy */
    method Cpy(src: seq<Byte>) returns (st: Status)
      requires Valid() && cnt + |src| <= sizeMax
      modifies this, base
      ensures st.Done? ==> Valid() && Content() == old(Content()) + src
      ensures st.Done? ==> base == old(base) || fresh(base)
    {
      st := Allocate(|src|);
      if st.Done? && |src| > 0 {
        Memcpy(base, cnt, src);
        cnt := cnt + |src|;
      }
    }

    method U32(v: nat) returns (st: Status)
      requires Valid() && cnt + 4 <= sizeMax && v < WORD32
      modifies this, base
      ensures st.Done? ==> Valid() && Content() == old(Content()) + Encode(Record.U32(v))
      ensures st.Done? ==>
                Content() == old(Content()) + [v / 16777216 % 256, v / 65536 % 256, v / 256 % 256, v % 256]
      ensures st.Done? ==> base == old(base) || fresh(base)
    {
      Word32Bytes(v);
      st := Cpy(BigEndian(4, v));
    }

    method U64(v: nat) returns (st: Status)
      requires Valid() && cnt + 8 <= sizeMax && v < WORD64
      modifies this, base
      ensures st.Done? ==> Valid() && Content() == old(Content()) + Encode(Record.U64(v))
      ensures st.Done? ==>
                Content() == old(Content())
                  + [v / 72057594037927936 % 256, v / 281474976710656 % 256, v / 1099511627776 % 256,
                     v / 4294967296 % 256, v / 16777216 % 256, v / 65536 % 256, v / 256 % 256, v % 256]
      ensures st.Done? ==> base == old(base) || fresh(base)
    {
      Word64Bytes(v);
      st := Cpy(BigEndian(8, v));
    }

    /** A time_t goes out as its 64-bit two's complement. */
    method TimeT(t: int) returns (st: Status)
      requires Valid() && cnt + 8 <= sizeMax
      modifies this, base
      ensures st.Done? ==> Valid() && Content() == old(Content()) + Encode(Time(t))
      ensures st.Done? ==>
                Content() == old(Content())
                  + [t / 72057594037927936 % 256, t / 281474976710656 % 256, t / 1099511627776 % 256,
                     t / 4294967296 % 256, t / 16777216 % 256, t / 65536 % 256, t / 256 % 256, t % 256]
      ensures st.Done? ==> base == old(base) || fresh(base)
    {
      TimeRoundTrip(t);
      TimeBytes(t);
      assert Encode(Time(t)) == Encode(Record.U64(UINT64.Convert(t)));
      hide Encode, BigEndian;
      st := U64(UINT64.Convert(t));
    }

    /** The length is passed on as a 32-bit value, whatever it is. */
    method Buffer(src: seq<Byte>) returns (st: Status)
      requires Valid() && cnt + 4 + |src| <= sizeMax
      modifies this, base
      ensures st.Done? ==> Valid() && Content() == old(Content()) + EncodeBuf(src)
      ensures st.Done? ==> Content() == old(Content()) + Encode(Buf(src))
      ensures st.Done? ==>
                Content() == old(Content())
                  + ([|src| / 16777216 % 256, |src| / 65536 % 256, |src| / 256 % 256, |src| % 256] + src)
      ensures st.Done? ==> base == old(base) || fresh(base)
    {
      hide BigEndian;
      FrameBytes(src);
      st := U32(|src| % WORD32);
      if st.Done? {
        ghost var header := Content();
        st := Cpy(src);
        assert header + src == old(Content()) + (BigEndian(4, |src| % WORD32) + src);
      }
    }

    /** serialize_str: a NULL pointer counts as the empty string. */
    method Text(src: Option<seq<Byte>>) returns (st: Status)
      requires Valid() && (src.Some? ==> 0 in src.value)
      requires cnt + 4 + |if src.Some? then CString(src.value) else []| <= sizeMax
      modifies this, base
      ensures st.Done? ==> Valid()
      ensures st.Done? ==>
                Content() == old(Content()) + Encode(Str(if src.Some? then CString(src.value) else []))
      ensures st.Done? ==>
                Content() == old(Content()) + EncodeBuf(if src.None? then [] else CString(src.value))
      ensures st.Done? ==> base == old(base) || fresh(base)
    {
      st := Buffer(if src.Some? then CString(src.value) else []);
    }

    method Put(r: Record) returns (st: Status)
      requires Valid() && cnt + |Encode(r)| <= sizeMax && InDomain(r)
      modifies this, base
      ensures st.Done? ==> Valid() && Content() == old(Content()) + Encode(r)
      ensures st.Done? ==> base == old(base) || fresh(base)
    {
      match r {
        case U32(v) => st := U32(v);
        case U64(v) => st := U64(v);
        case Time(t) => st := TimeT(t);
        case Buf(b) => st := Buffer(b);
        case Str(s) =>
          CStringOf(s, []);
          assert s + [0] + [] == s + [0];
          st := Text(Some(s + [0]));
      }
    }

    static lemma EncodeFrom(rs: seq<Record>, i: nat, c: seq<Byte>)
      requires i < |rs|
      ensures c + EncodeAll(rs[i..]) == c + Encode(rs[i]) + EncodeAll(rs[i + 1..])
    {
      assert rs[i..][0] == rs[i] && rs[i..][1..] == rs[i + 1..];
    }

    /** A run of calls appends the encoding of the whole list; with RoundTrip and TruncationFails,
        this is what a reader gets back. */
    method PutAll(rs: seq<Record>) returns (st: Status)
      requires Valid() && cnt + |EncodeAll(rs)| <= sizeMax
      requires forall i :: 0 <= i < |rs| ==> InDomain(rs[i])
      modifies this, base
      ensures st.Done? ==> Valid() && Content() == old(Content()) + EncodeAll(rs)
    {
      st := Done;
      ghost var goal := Content() + EncodeAll(rs);
      for i := 0 to |rs|
        invariant Valid() && (base == old(base) || fresh(base))
        invariant Content() + EncodeAll(rs[i..]) == goal && |goal| <= sizeMax
      {
        hide Encode, EncodeAll;
        EncodeFrom(rs, i, Content());
        st := Put(rs[i]);
        if st != Done {
          return;
        }
      }
      assert Content() + [] == Content();
    }
  }

  /** Values of the C argument types: 32 and 64 bits, and strings without NUL. */
  predicate InDomain(r: Record) {
    match r
    case U32(v) => v < WORD32
    case U64(v) => v < WORD64
    case Time(_) => true
    case Buf(_) => true
    case Str(s) => 0 !in s
  }
}
