/** Integer types, conversions (section 6.3.1.3 of ISO/IEC 9899:2011, two's complement) and the
    overflow macros of type-utils.h, for every width. */
module TypeUtils {

  function Pow2(n: nat): (p: nat)
    ensures p > 0
  {
    if n == 0 then 1 else 2 * Pow2(n - 1)
  }

  datatype IntType = IntType(signed: bool, bits: nat) {
    predicate Proper() {
      bits > 0
    }

    /** variable_max_value */
    function Max(): int
      requires Proper()
    {
      if signed then Pow2(bits - 1) - 1 else Pow2(bits) - 1
    }

    /** variable_min_value */
    function Min(): int
      requires Proper()
    {
      if signed then 0 - Pow2(bits - 1) else 0
    }

    predicate Has(v: int)
      requires Proper()
    {
      Min() <= v <= Max()
    }

    /** The value of `(type)v`. */
    function Convert(v: int): int
      requires Proper()
    {
      var r := v % Pow2(bits);
      if signed && r >= Pow2(bits - 1) then r - Pow2(bits) else r
    }

    /** The type in which arithmetic on two operands of this type is done. */
    function Promoted(intBits: nat): IntType {
      if bits < intBits then IntType(true, intBits) else this
    }
  }

  /** The limits of the types that variable_max_value and variable_min_value know, for the usual
      widths. */
  lemma Limits()
    ensures IntType(true, 8).Min() == -128 && IntType(true, 8).Max() == 127 && IntType(false, 8).Max() == 255
    ensures IntType(true, 16).Min() == -32768 && IntType(true, 16).Max() == 32767 && IntType(false, 16).Max() == 65535
    ensures IntType(true, 32).Min() == -2147483648 && IntType(true, 32).Max() == 2147483647
    ensures IntType(false, 32).Max() == 4294967295
    ensures IntType(true, 64).Min() == -9223372036854775808 && IntType(true, 64).Max() == 9223372036854775807
    ensures IntType(false, 64).Max() == 18446744073709551615
    ensures forall bits: nat :: bits > 0 ==> IntType(false, bits).Min() == 0
    ensures IntType(false, 16).Promoted(32) == IntType(true, 32) && IntType(false, 64).Promoted(32) == IntType(false, 64)
  {
    assert Pow2(7) == 128;
    assert Pow2(15) == 256 * Pow2(7);
    assert Pow2(23) == 256 * Pow2(15);
    assert Pow2(31) == 256 * Pow2(23);
    assert Pow2(39) == 256 * Pow2(31);
    assert Pow2(47) == 256 * Pow2(39);
    assert Pow2(55) == 256 * Pow2(47);
    assert Pow2(63) == 256 * Pow2(55);
  }

  // ---- conversions ----

  lemma MultipleGrows(k: int, p: int)
    requires p > 0
    ensures k >= 1 ==> k * p >= p
    ensures k <= -1 ==> k * p <= -p
  {
    if k >= 1 {
      assert k * p == p + (k - 1) * p && (k - 1) * p >= 0;
    } else if k <= -1 {
      assert k * p == -p + (k + 1) * p && (k + 1) * p <= 0;
    }
  }

  /** A conversion changes a value by a multiple of 2^bits, into the range of the type. */
  lemma ConvertShift(t: IntType, v: int) returns (k: int)
    requires t.Proper()
    ensures t.Convert(v) == v + k * Pow2(t.bits) && t.Has(t.Convert(v))
  {
    var p := Pow2(t.bits);
    k := -(v / p);
    assert v == p * (v / p) + v % p;
    if t.signed && v % p >= Pow2(t.bits - 1) {
      k := k - 1;
    }
  }

  lemma MulMinus(a: int, b: int, c: int)
    ensures (a - b) * c == a * c - b * c
  {}

  /** ... and it is the only value that is. */
  lemma ConvertIs(t: IntType, v: int, w: int, k: int)
    requires t.Proper() && t.Has(w) && w == v + k * Pow2(t.bits)
    ensures t.Convert(v) == w
  {
    var p := Pow2(t.bits);
    var j := ConvertShift(t, v);
    MulMinus(k, j, p);
    MultipleGrows(k - j, p);
  }

  lemma MulAssoc(a: int, b: int, c: int)
    ensures (a * b) * c == a * (b * c)
  {}

  lemma MulNeg(a: int, b: int)
    ensures (-a) * b == -(a * b)
  {}

  lemma MulMono(a: nat, b: int, c: int)
    requires b <= c
    ensures a * b <= a * c
  {
    assert a * c == a * b + a * (c - b) && a * (c - b) >= 0;
  }

  lemma {:induction false} Pow2Split(a: nat, b: nat)
    requires a <= b
    ensures Pow2(b) == Pow2(b - a) * Pow2(a)
  {
    if a < b {
      Pow2Split(a, b - 1);
      MulAssoc(2, Pow2(b - 1 - a), Pow2(a));
    }
  }

  /** A multiple of a higher power of two, as a multiple of a lower one. */
  lemma Rescale(k: int, a: nat, b: nat) returns (j: int)
    requires a <= b
    ensures k * Pow2(b) == j * Pow2(a)
  {
    Pow2Split(a, b);
    j := k * Pow2(b - a);
    MulAssoc(k, Pow2(b - a), Pow2(a));
  }

  // ---- integer_safe_assign ----

  /** The test of the macro: there and back again. */
  predicate Survives(dst: IntType, src: IntType, v: int)
    requires dst.Proper() && src.Proper()
  {
    src.Convert(dst.Convert(v)) == v
  }

  /** The macro accepts exactly the values that some value of the destination type converts to. */
  lemma SurvivesIffImage(dst: IntType, src: IntType, v: int)
    requires dst.Proper() && src.Proper() && src.Has(v)
    ensures Survives(dst, src, v) <==> exists w :: dst.Has(w) && src.Convert(w) == v
  {
    if src.bits < dst.bits {
      SurvivesWider(dst, src, v);
      var k := ConvertShift(dst, v);
    } else {
      if w: int :| dst.Has(w) && src.Convert(w) == v {
        ImageInNarrower(dst, src, v, w);
      }
      var k := ConvertShift(dst, v);
    }
  }

  lemma SurvivesWider(dst: IntType, src: IntType, v: int)
    requires dst.Proper() && src.Proper() && src.Has(v) && src.bits <= dst.bits
    ensures Survives(dst, src, v)
  {
    var k := ConvertShift(dst, v);
    MulNeg(k, Pow2(dst.bits));
    var j := Rescale(-k, src.bits, dst.bits);
    ConvertIs(src, dst.Convert(v), v, j);
  }

  lemma ImageInNarrower(dst: IntType, src: IntType, v: int, w: int)
    requires dst.Proper() && src.Proper() && dst.bits <= src.bits && dst.Has(w) && src.Convert(w) == v
    ensures dst.Convert(v) == w
  {
    var i := ConvertShift(src, w);
    MulNeg(i, Pow2(src.bits));
    var j := Rescale(-i, dst.bits, src.bits);
    ConvertIs(dst, v, w, j);
  }

  /** With equal signedness that is: exactly the values of the destination type. */
  lemma SurvivesIffFits(dst: IntType, src: IntType, v: int)
    requires dst.Proper() && src.Proper() && src.Has(v) && dst.signed == src.signed
    ensures Survives(dst, src, v) <==> dst.Has(v)
    ensures dst.Has(v) ==> dst.Convert(v) == v
  {
    if dst.Has(v) {
      ConvertIs(dst, v, v, 0);
      ConvertIs(src, v, v, 0);
    } else {
      var k := ConvertShift(dst, v);
      if src.bits <= dst.bits {
        Pow2Mono(src.bits, dst.bits);
        Pow2Mono(src.bits - 1, dst.bits - 1);
      } else {
        Pow2Mono(dst.bits, src.bits);
        Pow2Mono(dst.bits - 1, src.bits - 1);
        ConvertIs(src, dst.Convert(v), dst.Convert(v), 0);
      }
    }
  }

  lemma {:induction false} Pow2Mono(a: nat, b: nat)
    requires a <= b
    ensures Pow2(a) <= Pow2(b)
    ensures a < b ==> 2 * Pow2(a) <= Pow2(b)
  {
    if a < b {
      Pow2Mono(a, b - 1);
    }
  }

  /** With different signedness the macro also accepts values that it changes; these are exactly
      the ones below. */
  lemma ChangedIff(dst: IntType, src: IntType, v: int)
    requires dst.Proper() && src.Proper() && src.Has(v)
    ensures Survives(dst, src, v) && dst.Convert(v) != v
       <==> || (src.signed && !dst.signed && src.bits <= dst.bits && v < 0)
            || (!src.signed && dst.signed && dst.bits <= src.bits && v >= Pow2(src.bits) - Pow2(dst.bits - 1))
  {
    if src.signed == dst.signed {
      SurvivesIffFits(dst, src, v);
    } else if src.signed {
      SignedToUnsigned(dst, src, v);
    } else {
      UnsignedToSigned(dst, src, v);
    }
  }

  /** For example, -1 of 8 bits is stored as 255 of 8 bits. */
  lemma MinusOneChanges()
    ensures var char_, byte_ := IntType(true, 8), IntType(false, 8);
            char_.Has(-1) && Survives(byte_, char_, -1) && byte_.Convert(-1) == 255 && !byte_.Has(-1)
  {
    var char_, byte_ := IntType(true, 8), IntType(false, 8);
    assert Pow2(4) == 16 && Pow2(7) == 8 * Pow2(4) && Pow2(8) == 16 * Pow2(4);
    ConvertIs(byte_, -1, 255, 1);
    ChangedIff(byte_, char_, -1);
  }

  lemma SignedToUnsigned(dst: IntType, src: IntType, v: int)
    requires dst.Proper() && src.Proper() && src.Has(v) && src.signed && !dst.signed
    ensures Survives(dst, src, v) && dst.Convert(v) != v <==> src.bits <= dst.bits && v < 0
  {
    var k := ConvertShift(dst, v);
    if src.bits <= dst.bits {
      Pow2Mono(src.bits, dst.bits);
      SurvivesWider(dst, src, v);
      if v >= 0 {
        ConvertIs(dst, v, v, 0);
      }
    } else {
      Pow2Mono(dst.bits, src.bits - 1);
      ConvertIs(src, dst.Convert(v), dst.Convert(v), 0);
    }
  }

  lemma UnsignedToSigned(dst: IntType, src: IntType, v: int)
    requires dst.Proper() && src.Proper() && src.Has(v) && !src.signed && dst.signed
    ensures Survives(dst, src, v) && dst.Convert(v) != v
       <==> dst.bits <= src.bits && v >= Pow2(src.bits) - Pow2(dst.bits - 1)
  {
    if dst.bits > src.bits {
      Pow2Mono(src.bits, dst.bits - 1);
      ConvertIs(dst, v, v, 0);
    } else {
      Pow2Mono(dst.bits, src.bits);
      var c := dst.Convert(v);
      var k := ConvertShift(dst, v);
      if c >= 0 {
        ConvertIs(src, c, c, 0);
      } else {
        ConvertIs(src, c, c + Pow2(src.bits), 1);
      }
      if v >= Pow2(src.bits) - Pow2(dst.bits - 1) {
        var j := Rescale(-1, dst.bits, src.bits);
        ConvertIs(dst, v, v - Pow2(src.bits), j);
      }
    }
  }

  method SafeAssign(dstType: IntType, srcType: IntType, dst: int, src: int) returns (ok: bool, res: int)
    requires dstType.Proper() && srcType.Proper() && srcType.Has(src)
    ensures ok <==> exists w :: dstType.Has(w) && srcType.Convert(w) == src
    ensures res == if ok then dstType.Convert(src) else dst
    ensures dstType.signed == srcType.signed ==> ok == dstType.Has(src) && (ok ==> res == src)
  {
    SurvivesIffImage(dstType, srcType, src);
    if dstType.signed == srcType.signed {
      SurvivesIffFits(dstType, srcType, src);
    }
    if srcType.Convert(dstType.Convert(src)) != src {
      return false, dst;
    } else {
      return true, dstType.Convert(src);
    }
  }

  // ---- overflow tests ----

  lemma DivisionTest(m: nat, a: nat, b: nat)
    requires a > 0
    ensures m / a < b <==> a * b > m
  {
    var q := m / a;
    assert m == a * q + m % a;
    if q < b {
      MulMono(a, q + 1, b);
      assert a * (q + 1) == a * q + a;
    } else {
      MulMono(a, b, q);
    }
  }

  /** Values of an unsigned type are values of the type it is promoted to. */
  lemma PromotedHas(t: IntType, intBits: nat, v: int)
    requires t.Proper() && !t.signed && t.Has(v)
    ensures t.Promoted(intBits).Proper() && t.Promoted(intBits).Has(v)
    ensures t.Promoted(intBits).Convert(v) == v && t.Convert(v) == v
  {
    if t.bits < intBits {
      Pow2Mono(t.bits, intBits - 1);
    }
    ConvertIs(t, v, v, 0);
    ConvertIs(t.Promoted(intBits), v, v, 0);
  }

  /** The fallback _mul_overflow: `a * b` is computed in the promoted type, whose width is that of
      `int` for narrow operands. It reports overflow exactly, and the product never wraps. */
  method MulOverflow(t: IntType, intBits: nat, a: nat, b: nat, dst: int) returns (overflow: bool, res: int)
    requires t.Proper() && !t.signed && t.Has(a) && t.Has(b)
    ensures overflow <==> a * b > t.Max()
    ensures res == if overflow then dst else a * b
  {
    if a != 0 {
      DivisionTest(t.Max(), a, b);
    }
    assert a * b >= 0;
    if a != 0 && t.Max() / a < b {
      return true, dst;
    }
    PromotedHas(t, intBits, a * b);
    var wide := t.Promoted(intBits);
    var ok;
    ok, res := SafeAssign(t, wide, dst, wide.Convert(a * b));
    assert t.Has(a * b) && wide.Convert(a * b) == a * b;
    overflow := !ok;
  }

  /** The difference in _add_overflow, and then the sum, are computed without signed overflow. */
  predicate AddIsDefined(t: IntType, intBits: nat, a: int)
    requires t.Proper()
  {
    t.signed && intBits <= t.bits ==> a >= 0
  }

  /** The test is defined exactly for these operands, and then the sum is, unless it is refused. */
  lemma AddDefinedIff(t: IntType, intBits: nat, a: int, b: int)
    requires t.Proper() && t.Has(a) && t.Has(b)
    ensures t.Promoted(intBits).Proper()
    ensures AddIsDefined(t, intBits, a) <==> t.Promoted(intBits).Has(t.Max() - a)
    ensures AddIsDefined(t, intBits, a) && b <= t.Max() - a ==> t.Promoted(intBits).Has(a + b)
  {
    if t.bits < intBits {
      Pow2Mono(t.bits, intBits - 1);
      Pow2Mono(t.bits - 1, t.bits);
    }
  }

  /** The fallback _add_overflow, which has no test for signed types: for all operands on which it is
      defined it reports overflow exactly. */
  method AddOverflow(t: IntType, intBits: nat, a: int, b: int, dst: int) returns (overflow: bool, res: int)
    requires t.Proper() && t.Has(a) && t.Has(b) && AddIsDefined(t, intBits, a)
    ensures overflow <==> !t.Has(a + b)
    ensures res == if overflow then dst else a + b
  {
    AddDefinedIff(t, intBits, a, b);
    var wide := t.Promoted(intBits);
    if t.Max() - a < b {
      return true, dst;
    }
    ConvertIs(wide, a + b, a + b, 0);
    if t.Has(a + b) {
      ConvertIs(t, a + b, a + b, 0);
    } else {
      SurvivesIffFits(t, wide, a + b);
    }
    var ok;
    ok, res := SafeAssign(t, wide, dst, wide.Convert(a + b));
    overflow := !ok;
  }
}

/** Size computations of safe_calloc.h. */
module SafeCalloc {
  import opened TypeUtils

  /** _sizeof_flexarr: `sz0 + cnt * sz1`, or failure exactly when that is no size_t value. */
  method SizeofFlexarr(size: IntType, intBits: nat, old_: int, sz0: nat, cnt: nat, sz1: nat)
    returns (ok: bool, res: int)
    requires size.Proper() && !size.signed && size.Has(sz0) && size.Has(cnt) && size.Has(sz1)
    requires sz0 != 0 && sz1 != 0
    ensures ok <==> sz0 + cnt * sz1 <= size.Max()
    ensures res == if ok then sz0 + cnt * sz1 else old_
  {
    var overflow, flex := MulOverflow(size, intBits, sz1, cnt, 0);
    assert sz1 * cnt == cnt * sz1;
    if overflow {
      return false, old_;
    }
    overflow, res := AddOverflow(size, intBits, sz0, flex, old_);
    ok := !overflow;
  }
}
