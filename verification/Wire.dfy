/** The wire format of serialize.h, unserialize.h and io.c: big-endian integers, and buffers that
    are preceded by their length in 32 bits. */
module Wire {
  import opened Memory
  import TypeUtils

  const WORD32: nat := 0x1_0000_0000
  const WORD64: nat := 0x1_0000_0000_0000_0000

  const TIME := TypeUtils.IntType(true, 64)
  const UINT64 := TypeUtils.IntType(false, 64)

  // ---- integers ----

  function Pow256(n: nat): (p: nat)
    ensures p > 0
  {
    if n == 0 then 1 else 256 * Pow256(n - 1)
  }

  /** `v` in `n` bytes, the most significant one first (what htobe32 and memcpy do). */
  function BigEndian(n: nat, v: nat): (s: seq<Byte>)
    ensures |s| == n
  {
    if n == 0 then [] else BigEndian(n - 1, v / 256) + [v % 256]
  }

  function FromBigEndian(s: seq<Byte>): nat {
    if s == [] then 0 else 256 * FromBigEndian(s[..|s| - 1]) + s[|s| - 1]
  }

  lemma {:induction false} FromBigEndianOf(n: nat, v: nat)
    requires v < Pow256(n)
    ensures FromBigEndian(BigEndian(n, v)) == v
  {
    if n > 0 {
      FromBigEndianOf(n - 1, v / 256);
      assert BigEndian(n, v)[..n - 1] == BigEndian(n - 1, v / 256);
    }
  }

  lemma {:induction false} BigEndianOf(s: seq<Byte>)
    ensures FromBigEndian(s) < Pow256(|s|) && BigEndian(|s|, FromBigEndian(s)) == s
  {
    if s != [] {
      BigEndianOf(s[..|s| - 1]);
      assert s == s[..|s| - 1] + [s[|s| - 1]];
    }
  }

  lemma WordSizes()
    ensures Pow256(4) == WORD32 && Pow256(8) == WORD64
    ensures TypeUtils.Pow2(64) == WORD64 && TypeUtils.Pow2(63) * 2 == WORD64
  {
    assert Pow256(4) == 256 * 256 * 256 * 256;
    assert Pow256(8) == 256 * 256 * 256 * 256 * Pow256(4);
    assert TypeUtils.Pow2(8) == 256;
    assert TypeUtils.Pow2(16) == 256 * TypeUtils.Pow2(8);
    assert TypeUtils.Pow2(24) == 256 * TypeUtils.Pow2(16);
    assert TypeUtils.Pow2(32) == 256 * TypeUtils.Pow2(24);
    assert TypeUtils.Pow2(40) == 256 * TypeUtils.Pow2(32);
    assert TypeUtils.Pow2(48) == 256 * TypeUtils.Pow2(40);
    assert TypeUtils.Pow2(56) == 256 * TypeUtils.Pow2(48);
    assert TypeUtils.Pow2(64) == 256 * TypeUtils.Pow2(56);
  }

  // ---- the bytes of a word ----

  lemma DivDiv(v: nat, a: nat, b: nat)
    requires a > 0 && b > 0
    ensures a * b > 0 && v / a / b == v / (a * b)
  {
    var q, r := v / a, v % a;
    var q2, r2 := q / b, q % b;
    assert v == a * q + r && q == b * q2 + r2;
    TypeUtils.MulAssoc(a, b, q2);
    assert v == q2 * (a * b) + (a * r2 + r);
    TypeUtils.MulMono(a, r2, b - 1);
    assert a * (b - 1) == a * b - a;
    Quotient(v, a * b, q2, a * r2 + r);
  }

  lemma Quotient(v: int, d: nat, q: int, r: nat)
    requires r < d && v == q * d + r
    ensures v / d == q
  {
    var p := v / d;
    assert v == p * d + v % d;
    TypeUtils.MulMinus(q, p, d);
    TypeUtils.MultipleGrows(q - p, d);
  }

  /** A byte with the weight `d` only depends on the value modulo a multiple of `256 * d`. */
  lemma LowByte(n: int, d: nat, e: nat)
    requires d > 0 && e > 0
    ensures d * (256 * e) > 0 && n % (d * (256 * e)) / d % 256 == n / d % 256
  {
    TypeUtils.MulMono(d, 1, 256 * e);
    var w := d * (256 * e);
    var q, r := n / w, n % w;
    var x, y := r / d, r % d;
    assert n == q * w + r && r == x * d + y;
    Regrouped(q, d, e);
    assert n == (q * (256 * e) + x) * d + y;
    Quotient(n, d, q * (256 * e) + x, y);
    SameByte(q, e, x);
  }

  lemma Regrouped(q: int, d: nat, e: nat)
    ensures q * (d * (256 * e)) == (q * (256 * e)) * d
  {}

  lemma SameByte(q: int, e: int, x: int)
    ensures (q * (256 * e) + x) % 256 == x % 256
  {
    assert q * (256 * e) == 256 * (q * e);
    Modulo(q * e, x);
  }

  lemma Modulo(k: int, x: int)
    ensures (256 * k + x) % 256 == x % 256
  {}

  /** Byte `i` of `n` is the one with the weight 256^(n - 1 - i). */
  lemma {:induction false} BigEndianAt(n: nat, v: nat, i: nat)
    requires i < n
    ensures BigEndian(n, v)[i] == v / Pow256(n - 1 - i) % 256
  {
    if i < n - 1 {
      BigEndianAt(n - 1, v / 256, i);
      DivDiv(v, 256, Pow256(n - 2 - i));
    } else {
      assert Pow256(0) == 1;
    }
  }

  lemma Powers()
    ensures Pow256(0) == 1 && Pow256(1) == 256 && Pow256(2) == 65536 && Pow256(3) == 16777216
    ensures Pow256(4) == 4294967296 && Pow256(5) == 1099511627776
    ensures Pow256(6) == 281474976710656 && Pow256(7) == 72057594037927936
  {
    assert Pow256(0) == 1;
    assert Pow256(1) == 256 * Pow256(0);
    assert Pow256(2) == 256 * Pow256(1);
    assert Pow256(3) == 256 * Pow256(2);
    assert Pow256(4) == 256 * Pow256(3);
    assert Pow256(5) == 256 * Pow256(4);
    assert Pow256(6) == 256 * Pow256(5);
    assert Pow256(7) == 256 * Pow256(6);
  }

  /** The bytes that htobe32 puts out. */
  lemma Word32Bytes(v: nat)
    ensures BigEndian(4, v) == [v / 16777216 % 256, v / 65536 % 256, v / 256 % 256, v % 256]
  {
    Powers();
    BigEndianAt(4, v, 0);
    BigEndianAt(4, v, 1);
    BigEndianAt(4, v, 2);
    BigEndianAt(4, v, 3);
    hide BigEndian, Pow256;
  }

  /** The bytes that htobe64 puts out. */
  lemma Word64Bytes(v: nat)
    ensures BigEndian(8, v) == [v / 72057594037927936 % 256, v / 281474976710656 % 256, v / 1099511627776 % 256,
                                v / 4294967296 % 256, v / 16777216 % 256, v / 65536 % 256, v / 256 % 256, v % 256]
  {
    Powers();
    BigEndianAt(8, v, 0);
    BigEndianAt(8, v, 1);
    BigEndianAt(8, v, 2);
    BigEndianAt(8, v, 3);
    BigEndianAt(8, v, 4);
    BigEndianAt(8, v, 5);
    BigEndianAt(8, v, 6);
    BigEndianAt(8, v, 7);
    hide BigEndian, Pow256;
  }

  lemma ValueSnoc(s: seq<Byte>, c: Byte)
    ensures FromBigEndian(s + [c]) == 256 * FromBigEndian(s) + c
  {
    assert (s + [c])[..|s|] == s;
  }

  /** What be16toh makes of two bytes. */
  lemma Word16Value(s: seq<Byte>)
    requires |s| == 2
    ensures FromBigEndian(s) == 256 * s[0] as int + s[1] as int
  {
    ValueSnoc([], s[0]);
    ValueSnoc([s[0]], s[1]);
    hide FromBigEndian;
    assert s == [s[0]] + [s[1]] && [] + [s[0]] == [s[0]];
    assert FromBigEndian([]) == 0 by { NoValue(); }
  }

  lemma NoValue()
    ensures FromBigEndian([]) == 0
  {}

  /** What be32toh makes of four bytes. */
  lemma Word32Value(s: seq<Byte>)
    requires |s| == 4
    ensures FromBigEndian(s) == 16777216 * s[0] as int + 65536 * s[1] as int + 256 * s[2] as int + s[3] as int
  {
    hide FromBigEndian;
    Word16Value(s[..2]);
    ValueSnoc(s[..2], s[2]);
    ValueSnoc(s[..3], s[3]);
    assert s[..2] + [s[2]] == s[..3] && s[..3] + [s[3]] == s;
  }

  /** What be64toh makes of eight bytes. */
  lemma Word64Value(s: seq<Byte>)
    requires |s| == 8
    ensures FromBigEndian(s) == 72057594037927936 * s[0] as int + 281474976710656 * s[1] as int
                                + 1099511627776 * s[2] as int + 4294967296 * s[3] as int + 16777216 * s[4] as int
                                + 65536 * s[5] as int + 256 * s[6] as int + s[7] as int
  {
    hide FromBigEndian;
    Word32Value(s[..4]);
    ValueSnoc(s[..4], s[4]);
    ValueSnoc(s[..5], s[5]);
    ValueSnoc(s[..6], s[6]);
    ValueSnoc(s[..7], s[7]);
    assert s[..4] + [s[4]] == s[..5] && s[..5] + [s[5]] == s[..6];
    assert s[..6] + [s[6]] == s[..7] && s[..7] + [s[7]] == s;
  }

  // ---- records ----

  datatype Record =
    | U32(v: nat)
    | U64(v: nat)
    | Time(t: int)
    | Buf(b: seq<Byte>)
    | Str(s: seq<Byte>)

  /** What the reader expects: the type and, for buffers it provides, their size. */
  datatype Slot =
    | SlotU32
    | SlotU64
    | SlotTime
    | SlotBuf(room: nat)
    | SlotStr(max: nat)
    | SlotBufAlloc
    | SlotStrAlloc

  function EncodeBuf(b: seq<Byte>): seq<Byte> {
    BigEndian(4, |b| % WORD32) + b
  }

  function Encode(r: Record): seq<Byte> {
    match r
    case U32(v) => BigEndian(4, v)
    case U64(v) => BigEndian(8, v)
    case Time(t) => BigEndian(8, UINT64.Convert(t))
    case Buf(b) => EncodeBuf(b)
    case Str(s) => EncodeBuf(s)
  }

  function EncodeAll(rs: seq<Record>): seq<Byte> {
    if rs == [] then [] else Encode(rs[0]) + EncodeAll(rs[1..])
  }

  function DecodeInt(n: nat, s: seq<Byte>): Option<(nat, seq<Byte>)> {
    if n <= |s| then Some((FromBigEndian(s[..n]), s[n..])) else None
  }

  /** A buffer of at most `room` bytes; no limit, if there is no `room`. */
  function DecodeBuf(room: Option<nat>, s: seq<Byte>): (r: Option<(seq<Byte>, seq<Byte>)>)
    ensures r.Some? ==> 4 <= |s| && s == s[..4] + r.value.0 + r.value.1
  {
    if |s| < 4 then None else
      var l := FromBigEndian(s[..4]);
      if (room.Some? && room.value < l) || |s| - 4 < l then None
      else Some((s[4..][..l], s[4..][l..]))
  }

  function Mapped<A, B>(o: Option<(A, seq<Byte>)>, f: A -> B): Option<(B, seq<Byte>)> {
    match o
    case None => None
    case Some((a, rest)) => Some((f(a), rest))
  }

  function Decode(slot: Slot, s: seq<Byte>): Option<(Record, seq<Byte>)> {
    match slot
    case SlotU32 => Mapped(DecodeInt(4, s), v => U32(v))
    case SlotU64 => Mapped(DecodeInt(8, s), v => U64(v))
    case SlotTime => Mapped(DecodeInt(8, s), v => Time(TIME.Convert(v)))
    case SlotBuf(room) => Mapped(DecodeBuf(Some(room), s), b => Buf(b))
    case SlotStr(max) => if max == 0 then None else Mapped(DecodeBuf(Some(max - 1), s), b => Str(b))
    case SlotBufAlloc => Mapped(DecodeBuf(None, s), b => Buf(b))
    case SlotStrAlloc => Mapped(DecodeBuf(None, s), b => Str(b))
  }

  function DecodeAll(slots: seq<Slot>, s: seq<Byte>): Option<(seq<Record>, seq<Byte>)>
    decreases |slots|
  {
    if slots == [] then Some(([], s)) else
      match Decode(slots[0], s)
      case None => None
      case Some((r, rest)) => Mapped(DecodeAll(slots[1..], rest), rs => [r] + rs)
  }

  /** `r` is a value of the type that `slot` expects, and the destination is large enough. */
  predicate Fits(r: Record, slot: Slot) {
    match (r, slot)
    case (U32(v), SlotU32) => v < WORD32
    case (U64(v), SlotU64) => v < WORD64
    case (Time(t), SlotTime) => TIME.Has(t)
    case (Buf(b), SlotBuf(room)) => |b| < WORD32 && |b| <= room
    case (Str(s), SlotStr(max)) => |s| < WORD32 && |s| < max
    case (Buf(b), SlotBufAlloc) => |b| < WORD32
    case (Str(s), SlotStrAlloc) => |s| < WORD32
    case _ => false
  }

  ghost predicate FitAll(rs: seq<Record>, slots: seq<Slot>) {
    |rs| == |slots| && forall i :: 0 <= i < |rs| ==> Fits(rs[i], slots[i])
  }

  /** A time goes out as its 64-bit two's complement: division rounds down here, also for dates
      before 1970. */
  lemma TimeBytes(t: int)
    ensures Encode(Time(t)) == [t / 72057594037927936 % 256, t / 281474976710656 % 256, t / 1099511627776 % 256,
                                t / 4294967296 % 256, t / 16777216 % 256, t / 65536 % 256, t / 256 % 256, t % 256]
  {
    WordSizes();
    hide BigEndian;
    Word64Bytes(t % WORD64);
    LowByte(t, 72057594037927936, 1);
    LowByte(t, 281474976710656, 256);
    LowByte(t, 1099511627776, 65536);
    LowByte(t, 4294967296, 16777216);
    LowByte(t, 16777216, 4294967296);
    LowByte(t, 65536, 1099511627776);
    LowByte(t, 256, 281474976710656);
    LowByte(t, 1, 72057594037927936);
  }

  /** A time is the value of its bytes, or that minus 2^64 if the sign bit is set. */
  lemma TimeValue(s: seq<Byte>)
    requires |s| == 8
    ensures var v := 72057594037927936 * s[0] as int + 281474976710656 * s[1] as int
                     + 1099511627776 * s[2] as int + 4294967296 * s[3] as int + 16777216 * s[4] as int
                     + 65536 * s[5] as int + 256 * s[6] as int + s[7] as int;
            TIME.Convert(FromBigEndian(s)) == if s[0] < 128 then v else v - 18446744073709551616
  {
    WordSizes();
    hide FromBigEndian;
    Word64Value(s);
  }

  // ---- decoding is the inverse of encoding ----

  lemma DecodeIntOf(n: nat, v: nat, tail: seq<Byte>)
    requires v < Pow256(n)
    ensures DecodeInt(n, BigEndian(n, v) + tail) == Some((v, tail))
  {
    FromBigEndianOf(n, v);
    var s := BigEndian(n, v) + tail;
    assert s[..n] == BigEndian(n, v) && s[n..] == tail;
  }

  lemma TimeRoundTrip(t: int)
    ensures UINT64.Convert(t) < WORD64
    ensures TIME.Has(t) ==> TIME.Convert(UINT64.Convert(t)) == t
  {
    WordSizes();
    var k := TypeUtils.ConvertShift(UINT64, t);
    if TIME.Has(t) {
      TypeUtils.ConvertIs(TIME, UINT64.Convert(t), t, -k);
    }
  }

  lemma Sliced(a: seq<Byte>, b: seq<Byte>, c: seq<Byte>)
    ensures (a + b + c)[..|a|] == a
    ensures (a + b + c)[|a|..][..|b|] == b && (a + b + c)[|a|..][|b|..] == c
  {}

  lemma DecodeBufOf(room: Option<nat>, b: seq<Byte>, tail: seq<Byte>)
    requires |b| < WORD32 && (room.Some? ==> |b| <= room.value)
    ensures DecodeBuf(room, EncodeBuf(b) + tail) == Some((b, tail))
  {
    hide FromBigEndian;
    WordSizes();
    FromBigEndianOf(4, |b|);
    Sliced(BigEndian(4, |b|), b, tail);
  }

  lemma DecodeOf(r: Record, slot: Slot, tail: seq<Byte>)
    requires Fits(r, slot)
    ensures Decode(slot, Encode(r) + tail) == Some((r, tail))
  {
    hide BigEndian, FromBigEndian;
    WordSizes();
    match (r, slot)
    case (U32(v), SlotU32) => DecodeIntOf(4, v, tail);
    case (U64(v), SlotU64) => DecodeIntOf(8, v, tail);
    case (Time(t), SlotTime) => TimeRoundTrip(t); DecodeIntOf(8, UINT64.Convert(t), tail);
    case (Buf(b), SlotBuf(room)) => DecodeBufOf(Some(room), b, tail);
    case (Str(s), SlotStr(max)) => DecodeBufOf(Some(max - 1), s, tail);
    case (Buf(b), SlotBufAlloc) => DecodeBufOf(None, b, tail);
    case (Str(s), SlotStrAlloc) => DecodeBufOf(None, s, tail);
  }

  /** Every list of records is read back by the same schema, and the rest is left untouched. */
  lemma {:induction false} RoundTrip(rs: seq<Record>, slots: seq<Slot>, tail: seq<Byte>)
    requires FitAll(rs, slots)
    ensures DecodeAll(slots, EncodeAll(rs) + tail) == Some((rs, tail))
  {
    hide Decode, Encode, Fits;
    if rs != [] {
      var rest := EncodeAll(rs[1..]) + tail;
      assert EncodeAll(rs) + tail == Encode(rs[0]) + rest;
      DecodeOf(rs[0], slots[0], rest);
      RoundTrip(rs[1..], slots[1..], tail);
      assert [rs[0]] + rs[1..] == rs;
    } else {
      assert [] + tail == tail;
    }
  }

  // ---- encoding is the inverse of decoding ----

  lemma EncodeIntOf(n: nat, s: seq<Byte>)
    requires n <= |s|
    ensures FromBigEndian(s[..n]) < Pow256(n) && BigEndian(n, FromBigEndian(s[..n])) + s[n..] == s
  {
    BigEndianOf(s[..n]);
  }

  lemma EncodeTimeOf(v: nat)
    requires v < WORD64
    ensures TIME.Has(TIME.Convert(v)) && UINT64.Convert(TIME.Convert(v)) == v
  {
    WordSizes();
    var k := TypeUtils.ConvertShift(TIME, v);
    TypeUtils.ConvertIs(UINT64, TIME.Convert(v), v, -k);
  }

  lemma EncodeBufOf(room: Option<nat>, s: seq<Byte>)
    requires DecodeBuf(room, s).Some?
    ensures var (b, rest) := DecodeBuf(room, s).value;
            |b| < WORD32 && (room.Some? ==> |b| <= room.value) && EncodeBuf(b) + rest == s
  {
    WordSizes();
    EncodeIntOf(4, s);
    var (b, rest) := DecodeBuf(room, s).value;
    assert s[..4] == BigEndian(4, |b|) && |b| % WORD32 == |b|;
  }

  lemma EncodeOf(slot: Slot, s: seq<Byte>)
    requires Decode(slot, s).Some?
    ensures var (r, rest) := Decode(slot, s).value; Fits(r, slot) && Encode(r) + rest == s
  {
    hide BigEndian, FromBigEndian, DecodeBuf, EncodeBuf;
    WordSizes();
    match slot
    case SlotU32 => EncodeIntOf(4, s);
    case SlotU64 => EncodeIntOf(8, s);
    case SlotTime => EncodeIntOf(8, s); EncodeTimeOf(FromBigEndian(s[..8]));
    case SlotBuf(room) => EncodeBufOf(Some(room), s);
    case SlotStr(max) => EncodeBufOf(Some(max - 1), s);
    case SlotBufAlloc => EncodeBufOf(None, s);
    case SlotStrAlloc => EncodeBufOf(None, s);
  }

  /** Whatever is decoded had been encoded: the bytes consumed are the encoding of the result. */
  lemma {:induction false} OnlyEncodingsDecode(slots: seq<Slot>, s: seq<Byte>)
    requires DecodeAll(slots, s).Some?
    ensures var (rs, rest) := DecodeAll(slots, s).value; FitAll(rs, slots) && EncodeAll(rs) + rest == s
    decreases |slots|
  {
    hide Decode, Encode, Fits;
    if slots != [] {
      EncodeOf(slots[0], s);
      var (r, rest1) := Decode(slots[0], s).value;
      OnlyEncodingsDecode(slots[1..], rest1);
      var (rs, rest) := DecodeAll(slots[1..], rest1).value;
      assert ([r] + rs)[1..] == rs;
      assert EncodeAll([r] + rs) + rest == Encode(r) + (EncodeAll(rs) + rest);
    }
  }

  // ---- the bytes of a frame ----

  /** A frame, byte by byte: the low 32 bits of the length, most significant byte first. */
  lemma FrameBytes(b: seq<Byte>)
    ensures EncodeBuf(b) == [|b| / 16777216 % 256, |b| / 65536 % 256, |b| / 256 % 256, |b| % 256] + b
  {
    hide BigEndian;
    Word32Bytes(|b| % WORD32);
    LowBytes(|b|);
  }

  lemma LowBytes(n: nat)
    ensures n % WORD32 / 16777216 % 256 == n / 16777216 % 256 && n % WORD32 / 65536 % 256 == n / 65536 % 256
    ensures n % WORD32 / 256 % 256 == n / 256 % 256 && n % WORD32 % 256 == n % 256
  {
    LowByte(n, 16777216, 1);
    LowByte(n, 65536, 256);
    LowByte(n, 256, 65536);
    LowByte(n, 1, 16777216);
  }

  /** What decodes is such a frame, and every such frame that fits decodes. */
  lemma DecodeBufIff(room: Option<nat>, s: seq<Byte>, b: seq<Byte>, rest: seq<Byte>)
    ensures DecodeBuf(room, s) == Some((b, rest))
       <==> && |b| < WORD32 && (room.Some? ==> |b| <= room.value)
            && s == [|b| / 16777216 % 256, |b| / 65536 % 256, |b| / 256 % 256, |b| % 256] + b + rest
  {
    hide DecodeBuf, EncodeBuf;
    FrameBytes(b);
    if |b| < WORD32 && (room.Some? ==> |b| <= room.value) {
      DecodeBufOf(room, b, rest);
    }
    if DecodeBuf(room, s).Some? {
      EncodeBufOf(room, s);
    }
  }

  /** One record is appended behind the others. */
  lemma {:induction false} EncodeAllSnoc(rs: seq<Record>, r: Record)
    ensures EncodeAll(rs + [r]) == EncodeAll(rs) + Encode(r)
  {
    hide Encode;
    if rs == [] {
      assert [r][1..] == [] && Encode(r) + [] == Encode(r) && [] + Encode(r) == Encode(r) && [] + [r] == [r];
    } else {
      EncodeAllSnoc(rs[1..], r);
      assert (rs + [r])[0] == rs[0] && (rs + [r])[1..] == rs[1..] + [r];
    }
  }

  // ---- consequences ----

  /** Concatenated encodings under one schema can be taken apart in one way only. */
  lemma UniquelyDecodable(rs: seq<Record>, qs: seq<Record>, slots: seq<Slot>, t: seq<Byte>, u: seq<Byte>)
    requires FitAll(rs, slots) && FitAll(qs, slots)
    requires EncodeAll(rs) + t == EncodeAll(qs) + u
    ensures rs == qs && t == u
  {
    RoundTrip(rs, slots, t);
    RoundTrip(qs, slots, u);
  }

  lemma Regroup(s: seq<Byte>, n: nat, a: seq<Byte>, b: seq<Byte>)
    requires n < |s| && a + b == s[..n]
    ensures s + [] == a + (b + s[n..]) && b + s[n..] != []
  {
    assert s == s[..n] + s[n..];
  }

  /** No strict prefix of an encoded list decodes: truncation is always noticed. */
  lemma TruncationFails(rs: seq<Record>, slots: seq<Slot>, n: nat)
    requires FitAll(rs, slots) && n < |EncodeAll(rs)|
    ensures DecodeAll(slots, EncodeAll(rs)[..n]) == None
  {
    var s := EncodeAll(rs);
    if DecodeAll(slots, s[..n]).Some? {
      var (qs, rest) := DecodeAll(slots, s[..n]).value;
      OnlyEncodingsDecode(slots, s[..n]);
      Regroup(s, n, EncodeAll(qs), rest);
      UniquelyDecodable(rs, qs, slots, [], rest + s[n..]);
    }
  }

  /** serialize_buf keeps only 32 bits of the length: a buffer is read back exactly when its
      length fits in them. */
  lemma BufReadBackIff(b: seq<Byte>, tail: seq<Byte>)
    ensures DecodeBuf(None, EncodeBuf(b) + tail) == Some((b, tail)) <==> |b| < WORD32
  {
    if |b| < WORD32 {
      DecodeBufOf(None, b, tail);
    } else if DecodeBuf(None, EncodeBuf(b) + tail).Some? {
      EncodeBufOf(None, EncodeBuf(b) + tail);
    }
  }

  /** For example, 2^32 zero bytes are read back as the empty buffer, and stay in the input. */
  lemma LongBufferIsLost()
    ensures var b: seq<Byte> := seq(WORD32, _ => 0); DecodeBuf(None, EncodeBuf(b)) == Some(([], b))
  {
    var b: seq<Byte> := seq(WORD32, _ => 0);
    WordSizes();
    FromBigEndianOf(4, 0);
    var s := EncodeBuf(b);
    assert s[..4] == BigEndian(4, 0) && s[4..] == b;
  }

  // ---- one read call on an input ----

  /** What reading one frame from `s` gives. `max` is the size of the buffer of read_str; there is
      none for read_stra. A frame that is too long costs its header only. */
  datatype Call = Frame(s: seq<Byte>, rest: seq<Byte>) | TooLong(rest: seq<Byte>) | TooShort

  function ReadCall(max: Option<nat>, s: seq<Byte>): Call {
    if |s| < 4 then TooShort else
      var l := FromBigEndian(s[..4]);
      if max.Some? && l >= max.value then TooLong(s[4..])
      else if |s| - 4 < l then TooShort
      else Frame(s[4..][..l], s[4..][l..])
  }

  /** The same, in terms of the bytes of the input. */
  lemma ReadCallIff(max: Option<nat>, s: seq<Byte>, b: seq<Byte>, rest: seq<Byte>)
    ensures ReadCall(max, s) == Frame(b, rest)
       <==> && |b| < WORD32 && (max.Some? ==> |b| < max.value)
            && s == [|b| / 16777216 % 256, |b| / 65536 % 256, |b| / 256 % 256, |b| % 256] + b + rest
    ensures ReadCall(max, s) == TooLong(rest)
       <==> && 4 <= |s| && max.Some? && rest == s[4..]
            && 16777216 * s[0] as int + 65536 * s[1] as int + 256 * s[2] as int + s[3] as int >= max.value
  {
    if max != Some(0) {
      ReadCallDecodes(max, s);
      hide DecodeBuf;
      DecodeBufIff(if max.Some? then Some(max.value - 1) else None, s, b, rest);
    }
    hide FromBigEndian;
    if 4 <= |s| {
      Word32Value(s[..4]);
    }
  }

  /** A frame is read exactly when it decodes into what the buffer leaves beside the NUL. */
  lemma ReadCallDecodes(max: Option<nat>, s: seq<Byte>)
    requires max != Some(0)
    ensures var room := if max.Some? then Some(max.value - 1) else None;
            DecodeBuf(room, s) == match ReadCall(max, s) case Frame(x, rest) => Some((x, rest)) case _ => None
  {}
}
