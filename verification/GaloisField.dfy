/**
 * Arithmetic in GF(2^8) as the cipher uses it: bytes are polynomials over GF(2) of degree below
 * eight, reduced modulo m(x) = x^8 + x^4 + x^3 + x + 1 (section 4.2 of FIPS 197).
 */
module GaloisField {
  type Byte = bv8

  /** A polynomial over GF(2) of degree below sixteen, not reduced. */
  type Poly = bv16

  /** The reduction polynomial m(x), with its x^8 term. */
  const MODULUS: Poly := 0x11b

  /** Addition and subtraction of coefficients modulo two. */
  function Add(a: Byte, b: Byte): Byte {
    a ^ b
  }

  function PolyAdd(a: Poly, b: Poly): Poly {
    a ^ b
  }

  /** A byte as a polynomial, and a polynomial multiplied by x. */
  function Embed(a: Byte): Poly {
    a as Poly
  }

  function TimesX(p: Poly): Poly {
    p << 1
  }

  /** Multiplication by x: shift left, and subtract m(x) when the x^7 coefficient falls out. */
  function Xtime(a: Byte): Byte {
    if a & 0x80 != 0 then Add(a << 1, 0x1b) else a << 1
  }

  /** b_0 a: the byte a when the constant coefficient of b is one, and zero otherwise. */
  function Bit0(b: Byte, a: Byte): Byte {
    if b & 1 != 0 then a else 0
  }

  function PolyBit0(b: Byte, a: Poly): Poly {
    if b & 1 != 0 then a else 0
  }

  /** Product of polynomials over GF(2) with no reduction, by b(x) = b_0 + x b'(x). */
  function PolyMul(a: Poly, b: Byte): Poly
    decreases b
  {
    if b == 0 then 0 else PolyAdd(PolyBit0(b, a), TimesX(PolyMul(a, b >> 1)))
  }

  /** Product in the field, by the same recursion with x acting as Xtime. */
  function Mul(a: Byte, b: Byte): Byte
    decreases b
  {
    if b == 0 then 0 else Add(Bit0(b, a), Xtime(Mul(a, b >> 1)))
  }

  // ---- The additive group ----

  lemma {:induction false} AddLaws(a: Byte, b: Byte, c: Byte)
    ensures Add(a, b) == Add(b, a)
    ensures Add(Add(a, b), c) == Add(a, Add(b, c))
    ensures Add(a, 0) == a
    ensures Add(a, a) == 0
  {
  }

  /** The sum of two sums, regrouped. */
  lemma {:induction false} AddSwap(a: Byte, b: Byte, c: Byte, d: Byte)
    ensures Add(Add(a, b), Add(c, d)) == Add(Add(a, c), Add(b, d))
  {
    AddLaws(a, b, Add(c, d));
    AddLaws(b, c, d);
    AddLaws(c, b, d);
    AddLaws(a, c, Add(b, d));
  }

  lemma {:induction false} XtimeAdditive(a: Byte, b: Byte)
    ensures Xtime(Add(a, b)) == Add(Xtime(a), Xtime(b))
  {
    if a & 0x80 != 0 {
      if b & 0x80 != 0 {} else {}
    } else {
      if b & 0x80 != 0 {} else {}
    }
  }

  lemma {:induction false} Bit0Additive(b: Byte, a: Byte, c: Byte)
    ensures Bit0(b, Add(a, c)) == Add(Bit0(b, a), Bit0(b, c))
    ensures Bit0(Add(a, c), b) == Add(Bit0(a, b), Bit0(c, b))
    ensures Xtime(Bit0(b, a)) == Bit0(b, Xtime(a))
  {
  }

  lemma {:induction false} ShiftAdditive(a: Byte, b: Byte)
    ensures Add(a, b) >> 1 == Add(a >> 1, b >> 1)
  {
  }

  /** Every byte is its constant coefficient plus x times the rest. */
  lemma {:induction false} Horner(b: Byte)
    ensures b == Add(Bit0(b, 1), Xtime(b >> 1))
  {
  }

  // ---- Mul is bilinear and commutes with multiplication by x ----

  lemma {:induction false} MulUnfold(a: Byte, b: Byte)
    ensures Mul(a, b) == Add(Bit0(b, a), Xtime(Mul(a, b >> 1)))
  {
  }

  lemma {:induction false} MulAddLeft(a: Byte, b: Byte, c: Byte)
    ensures Mul(Add(a, b), c) == Add(Mul(a, c), Mul(b, c))
    decreases c
  {
    if c != 0 {
      var x, y := Mul(a, c >> 1), Mul(b, c >> 1);
      MulAddLeft(a, b, c >> 1);
      XtimeAdditive(x, y);
      Bit0Additive(c, a, b);
      AddSwap(Bit0(c, a), Bit0(c, b), Xtime(x), Xtime(y));
    }
  }

  lemma {:induction false} MulAddRight(a: Byte, b: Byte, c: Byte)
    ensures Mul(a, Add(b, c)) == Add(Mul(a, b), Mul(a, c))
    decreases b, c
  {
    if b != 0 {
      var x, y := Mul(a, b >> 1), Mul(a, c >> 1);
      MulAddRight(a, b >> 1, c >> 1);
      ShiftAdditive(b, c);
      XtimeAdditive(x, y);
      Bit0Additive(a, b, c);
      AddSwap(Bit0(b, a), Bit0(c, a), Xtime(x), Xtime(y));
      MulUnfold(a, b);
      MulUnfold(a, c);
      MulUnfold(a, Add(b, c));
    }
  }

  lemma {:induction false} MulXtimeLeft(a: Byte, b: Byte)
    ensures Mul(Xtime(a), b) == Xtime(Mul(a, b))
    decreases b
  {
    if b != 0 {
      MulXtimeLeft(a, b >> 1);
      Bit0Additive(b, a, 0);
      XtimeAdditive(Bit0(b, a), Xtime(Mul(a, b >> 1)));
    }
  }

  lemma {:induction false} MulXtimeRight(a: Byte, b: Byte)
    ensures Mul(a, Xtime(b)) == Xtime(Mul(a, b))
  {
    if b & 0x80 != 0 {
      var low := b ^ 0x80;
      assert b == Add(low, 0x80);
      XtimeAdditive(low, 0x80);
      MulAddRight(a, low, 0x80);
      MulAddRight(a, Xtime(low), Xtime(0x80));
      MulShift(a, low);
      MulTop(a);
      XtimeAdditive(Mul(a, low), Mul(a, 0x80));
    } else {
      MulShift(a, b);
    }
  }

  lemma {:induction false} MulShift(a: Byte, b: Byte)
    requires b & 0x80 == 0
    ensures Mul(a, b << 1) == Xtime(Mul(a, b))
  {
    assert (b << 1) >> 1 == b;
    AddLaws(0, Xtime(Mul(a, b)), 0);
  }

  /** x^8 reduces to x^4 + x^3 + x + 1 under any factor. */
  lemma {:induction false} MulTop(a: Byte)
    ensures Mul(a, Xtime(0x80)) == Xtime(Mul(a, 0x80))
  {
    var a1 := Xtime(a);
    var a2 := Xtime(a1);
    var a3 := Xtime(a2);
    var a4 := Xtime(a3);
    MulShift(a, 0x01);
    MulShift(a, 0x02);
    MulShift(a, 0x04);
    MulShift(a, 0x08);
    MulShift(a, 0x10);
    MulShift(a, 0x20);
    MulShift(a, 0x40);
    MulAddRight(a, 0x08, 0x10);
    MulAddRight(a, 0x02, 0x18);
    MulAddRight(a, 0x01, 0x1a);
    assert Mul(a, 0x01) == a;
    assert Mul(a, 0x1b) == Add(a, Add(a1, Add(a3, a4)));
    XtimeEight(a);
  }

  lemma {:induction false} XtimeEight(a: Byte)
    ensures Xtime(Xtime(Xtime(Xtime(Xtime(Xtime(Xtime(Xtime(a)))))))) ==
      Add(a, Add(Xtime(a), Add(Xtime(Xtime(Xtime(a))), Xtime(Xtime(Xtime(Xtime(a)))))))
  {
  }

  // ---- The commutative ring ----

  lemma {:induction false} MulOneRight(a: Byte)
    ensures Mul(a, 1) == a
  {
    AddLaws(a, 0, 0);
    assert Xtime(Mul(a, 0)) == 0;
  }

  lemma {:induction false} MulOneLeft(a: Byte)
    ensures Mul(1, a) == a
    decreases a
  {
    if a != 0 {
      MulOneLeft(a >> 1);
      Horner(a);
    }
  }

  lemma {:induction false} MulZeroLeft(a: Byte)
    ensures Mul(0, a) == 0
    decreases a
  {
    if a != 0 {
      MulZeroLeft(a >> 1);
      AddLaws(0, 0, 0);
    }
  }

  lemma {:induction false} MulBit0(b: Byte, a: Byte)
    ensures Mul(Bit0(b, 1), a) == Bit0(b, a)
  {
    MulOneLeft(a);
    MulZeroLeft(a);
  }

  lemma {:induction false} MulCommutative(a: Byte, b: Byte)
    ensures Mul(a, b) == Mul(b, a)
    decreases b
  {
    if b == 0 {
      MulZeroLeft(a);
    } else {
      MulCommutative(a, b >> 1);
      Horner(b);
      MulAddLeft(Bit0(b, 1), Xtime(b >> 1), a);
      MulXtimeLeft(b >> 1, a);
      MulBit0(b, a);
    }
  }

  lemma {:induction false} MulAssociative(a: Byte, b: Byte, c: Byte)
    ensures Mul(Mul(a, b), c) == Mul(a, Mul(b, c))
    decreases c
  {
    if c != 0 {
      var rest := Mul(b, c >> 1);
      MulAssociative(a, b, c >> 1);
      MulAddRight(a, Bit0(c, b), Xtime(rest));
      MulXtimeRight(a, rest);
    }
  }

  // ---- The field: m(x) is irreducible, so every nonzero byte has an inverse ----

  /** t is a multiple of a in the ring. */
  ghost predicate IsMultiple(t: Byte, a: Byte) {
    exists q :: Mul(a, q) == t
  }

  /** Cancels the given term of t with the multiple c, if t has that term. */
  function Cancel(t: Byte, c: Byte, term: Byte): Byte {
    if t & term != 0 then Add(t, c) else t
  }

  /**
   * The remainder of m(x) on division by a(x) of degree one to seven: a(x) is shifted up until
   * the next shift reaches x^8 and wraps, then every term down to the degree of a(x) is cancelled.
   */
  function Remainder(a: Byte): Byte {
    var b := Xtime(a);
    var c := Xtime(b);
    var d := Xtime(c);
    var e := Xtime(d);
    var f := Xtime(e);
    var g := Xtime(f);
    if a & 0x80 != 0 then Cancel(Xtime(a), a, 0x80)
    else if a & 0x40 != 0 then Cancel(Cancel(Xtime(b), b, 0x80), a, 0x40)
    else if a & 0x20 != 0 then Cancel(Cancel(Cancel(Xtime(c), c, 0x80), b, 0x40), a, 0x20)
    else if a & 0x10 != 0 then
      Cancel(Cancel(Cancel(Cancel(Xtime(d), d, 0x80), c, 0x40), b, 0x20), a, 0x10)
    else if a & 0x08 != 0 then
      Cancel(Cancel(Cancel(Cancel(Cancel(Xtime(e), e, 0x80), d, 0x40), c, 0x20), b, 0x10), a, 0x08)
    else if a & 0x04 != 0 then
      Cancel(Cancel(Cancel(Cancel(Cancel(Cancel(
        Xtime(f), f, 0x80), e, 0x40), d, 0x20), c, 0x10), b, 0x08), a, 0x04)
    else
      Cancel(Cancel(Cancel(Cancel(Cancel(Cancel(Cancel(
        Xtime(g), g, 0x80), f, 0x40), e, 0x20), d, 0x10), c, 0x08), b, 0x04), a, 0x02)
  }

  /** No polynomial of degree one to seven divides m(x). */
  lemma {:induction false} ModulusIrreducible(a: Byte)
    requires a >= 2
    ensures 0 < Remainder(a) < a
  {
  }

  lemma {:induction false} MultiplesClosed(a: Byte)
    ensures IsMultiple(a, a)
    ensures forall t :: IsMultiple(t, a) ==> IsMultiple(Xtime(t), a)
    ensures forall t, c, term :: IsMultiple(t, a) && IsMultiple(c, a) ==> IsMultiple(Cancel(t, c, term), a)
  {
    MulOneRight(a);
    forall t | IsMultiple(t, a)
      ensures IsMultiple(Xtime(t), a)
    {
      var q :| Mul(a, q) == t;
      MulXtimeRight(a, q);
    }
    forall t, c, term | IsMultiple(t, a) && IsMultiple(c, a)
      ensures IsMultiple(Cancel(t, c, term), a)
    {
      var p, q :| Mul(a, p) == t && Mul(a, q) == c;
      MulAddRight(a, p, q);
    }
  }

  lemma {:induction false} RemainderIsMultiple(a: Byte)
    ensures IsMultiple(Remainder(a), a)
  {
    MultiplesClosed(a);
  }

  /** Euclid's descent: a smaller nonzero multiple of a has an inverse, hence so does a. */
  lemma {:induction false} InverseExists(a: Byte) returns (s: Byte)
    requires a != 0
    ensures Mul(a, s) == 1
    decreases a
  {
    if a == 1 {
      s := 1;
      MulOneRight(1);
    } else {
      ModulusIrreducible(a);
      RemainderIsMultiple(a);
      var q :| Mul(a, q) == Remainder(a);
      var t := InverseExists(Remainder(a));
      MulAssociative(a, q, t);
      s := Mul(q, t);
    }
  }

  /** A product is zero only if a factor is. */
  lemma {:induction false} NoZeroDivisors(a: Byte, b: Byte)
    ensures Mul(a, b) == 0 <==> a == 0 || b == 0
  {
    MulZeroLeft(b);
    if a != 0 && Mul(a, b) == 0 {
      var s := InverseExists(a);
      MulCommutative(a, s);
      MulAssociative(s, a, b);
      MulOneLeft(b);
    }
  }

  // ---- Mul is the polynomial product modulo m(x) ----

  /** q(x) has degree below that of b(x), or is zero with it. */
  predicate DegreeBelow(q: Byte, b: Byte) {
    && (b < 2 ==> q < 1) && (b < 4 ==> q < 2) && (b < 8 ==> q < 4) && (b < 16 ==> q < 8)
    && (b < 32 ==> q < 16) && (b < 64 ==> q < 32) && (b < 128 ==> q < 64) && q < 128
  }

  /** The multiple of m(x) that Xtime subtracts. */
  function Carry(r: Byte): Poly {
    if r & 0x80 != 0 then MODULUS else 0
  }

  /** The quotient of a(x) b(x) by m(x). */
  function Quotient(a: Byte, b: Byte): Byte
    decreases b
  {
    if b == 0 then 0 else Grow(Quotient(a, b >> 1), Mul(a, b >> 1))
  }

  /** The quotient grows by a unit whenever multiplying r(x) by x takes in a multiple of m(x). */
  function Grow(q: Byte, r: Byte): Byte {
    if r & 0x80 != 0 then (q << 1) | 1 else q << 1
  }

  lemma {:induction false} QuotientDegree(a: Byte, b: Byte)
    ensures DegreeBelow(Quotient(a, b), b)
    decreases b
  {
    if b != 0 {
      QuotientDegree(a, b >> 1);
      GrowDegree(b, Quotient(a, b >> 1), Mul(a, b >> 1));
    }
  }

  lemma {:induction false} GrowDegree(b: Byte, q: Byte, r: Byte)
    requires b != 0 && DegreeBelow(q, b >> 1)
    requires b == 1 ==> r == 0
    ensures DegreeBelow(Grow(q, r), b)
  {
  }

  lemma {:induction false} GrowMultiple(q: Byte, r: Byte)
    requires q < 0x80
    ensures PolyMul(MODULUS, Grow(q, r)) == PolyAdd(Carry(r), TimesX(PolyMul(MODULUS, q)))
  {
    GrowBits(q, r);
    PolyMulUnfold(MODULUS, Grow(q, r));
  }

  lemma {:induction false} GrowBits(q: Byte, r: Byte)
    requires q < 0x80
    ensures Grow(q, r) >> 1 == q && PolyBit0(Grow(q, r), MODULUS) == Carry(r)
  {
  }

  lemma {:induction false} PolyMulUnfold(a: Poly, b: Byte)
    ensures PolyMul(a, b) == PolyAdd(PolyBit0(b, a), TimesX(PolyMul(a, b >> 1)))
  {
  }

  /**
   * a(x) b(x) differs from Mul(a, b) by the multiple q(x) m(x): Mul(a, b) lies in the residue
   * class of the product.
   */
  lemma {:induction false} MulIsResidue(a: Byte, b: Byte)
    ensures PolyMul(Embed(a), b) == PolyAdd(PolyMul(MODULUS, Quotient(a, b)), Embed(Mul(a, b)))
    decreases b
  {
    if b != 0 {
      MulIsResidue(a, b >> 1);
      QuotientDegree(a, b >> 1);
      GrowMultiple(Quotient(a, b >> 1), Mul(a, b >> 1));
      ResidueStep(a, b, PolyMul(MODULUS, Quotient(a, b >> 1)), Mul(a, b >> 1));
      PolyMulUnfold(Embed(a), b);
      MulUnfold(a, b);
    }
  }

  lemma {:induction false} PolyAddLaws(a: Poly, b: Poly, c: Poly)
    ensures PolyAdd(a, b) == PolyAdd(b, a)
    ensures PolyAdd(PolyAdd(a, b), c) == PolyAdd(a, PolyAdd(b, c))
  {
  }

  lemma {:induction false} PolyRegroup(b: Poly, p: Poly, c: Poly, x: Poly)
    ensures PolyAdd(b, PolyAdd(p, PolyAdd(c, x))) == PolyAdd(PolyAdd(c, p), PolyAdd(b, x))
  {
    PolyAddLaws(p, c, x);
    PolyAddLaws(p, c, b);
    PolyAddLaws(b, PolyAdd(c, p), x);
    PolyAddLaws(PolyAdd(c, p), b, x);
  }

  lemma {:induction false} TimesXAdditive(p: Poly, r: Poly)
    ensures TimesX(PolyAdd(p, r)) == PolyAdd(TimesX(p), TimesX(r))
  {
  }

  lemma {:induction false} XtimeCarry(r: Byte)
    ensures TimesX(Embed(r)) == PolyAdd(Carry(r), Embed(Xtime(r)))
  {
    if r & 0x80 != 0 {} else {}
  }

  lemma {:induction false} AddEmbeds(a: Byte, b: Byte)
    ensures Embed(Add(a, b)) == PolyAdd(Embed(a), Embed(b))
  {
  }

  /** One step of the recursion on b(x), seen before and after reduction. */
  lemma {:induction false} ResidueStep(a: Byte, b: Byte, p: Poly, r: Byte)
    ensures PolyAdd(PolyBit0(b, Embed(a)), TimesX(PolyAdd(p, Embed(r)))) ==
      PolyAdd(PolyAdd(Carry(r), TimesX(p)), Embed(Add(Bit0(b, a), Xtime(r))))
  {
    TimesXAdditive(p, Embed(r));
    XtimeCarry(r);
    AddEmbeds(Bit0(b, a), Xtime(r));
    assert PolyBit0(b, Embed(a)) == Embed(Bit0(b, a));
    PolyRegroup(Embed(Bit0(b, a)), TimesX(p), Carry(r), Embed(Xtime(r)));
  }

  // ---- The residue of degree below eight is unique ----

  lemma {:induction false} PolyMulAdditive(a: Poly, b: Byte, c: Byte)
    ensures PolyMul(a, Add(b, c)) == PolyAdd(PolyMul(a, b), PolyMul(a, c))
    decreases b, c
  {
    if b != 0 {
      var x, y := PolyMul(a, b >> 1), PolyMul(a, c >> 1);
      PolyMulAdditive(a, b >> 1, c >> 1);
      ShiftAdditive(b, c);
      PolyMulUnfold(a, b);
      PolyMulUnfold(a, c);
      PolyMulUnfold(a, Add(b, c));
      TimesXAdditive(x, y);
      PolyBit0Additive(a, b, c);
      PolyAddSwap(PolyBit0(b, a), PolyBit0(c, a), TimesX(x), TimesX(y));
    }
  }

  lemma {:induction false} PolyBit0Additive(a: Poly, b: Byte, c: Byte)
    ensures PolyBit0(Add(b, c), a) == PolyAdd(PolyBit0(b, a), PolyBit0(c, a))
  {
  }

  lemma {:induction false} PolyAddSwap(a: Poly, b: Poly, c: Poly, d: Poly)
    ensures PolyAdd(PolyAdd(a, b), PolyAdd(c, d)) == PolyAdd(PolyAdd(a, c), PolyAdd(b, d))
  {
    PolyAddLaws(a, b, PolyAdd(c, d));
    PolyAddLaws(b, c, d);
    PolyAddLaws(c, b, d);
    PolyAddLaws(a, c, PolyAdd(b, d));
  }

  /** A nonzero multiple of m(x) has degree eight or more. */
  lemma {:induction false} MultipleDegree(q: Byte)
    requires 0 < q < 0x80
    ensures 0x100 <= PolyMul(MODULUS, q)
    ensures (q < 2 ==> PolyMul(MODULUS, q) < 0x200) && (q < 4 ==> PolyMul(MODULUS, q) < 0x400)
    ensures (q < 8 ==> PolyMul(MODULUS, q) < 0x800) && (q < 16 ==> PolyMul(MODULUS, q) < 0x1000)
    ensures (q < 32 ==> PolyMul(MODULUS, q) < 0x2000) && (q < 64 ==> PolyMul(MODULUS, q) < 0x4000)
    decreases q
  {
    PolyMulUnfold(MODULUS, q);
    if q >= 2 {
      MultipleDegree(q >> 1);
    }
  }

  /** The product modulo m(x) is Mul(a, b), and no other byte. */
  lemma {:induction false} MulIsTheResidue(a: Byte, b: Byte, q: Byte, r: Byte)
    requires q < 0x80 && PolyMul(Embed(a), b) == PolyAdd(PolyMul(MODULUS, q), Embed(r))
    ensures r == Mul(a, b)
  {
    MulIsResidue(a, b);
    QuotientDegree(a, b);
    var q', r' := Quotient(a, b), Mul(a, b);
    PolyMulAdditive(MODULUS, q, q');
    DifferenceOfResidues(PolyMul(MODULUS, q), PolyMul(MODULUS, q'), r, r');
    if Add(q, q') == 0 {
      assert PolyMul(MODULUS, 0) == 0;
    } else {
      BelowTop(q, q');
      MultipleDegree(Add(q, q'));
    }
  }

  lemma {:induction false} BelowTop(q: Byte, q': Byte)
    requires q < 0x80 && q' < 0x80
    ensures Add(q, q') < 0x80
  {
  }

  lemma {:induction false} DifferenceOfResidues(p: Poly, p': Poly, r: Byte, r': Byte)
    requires PolyAdd(p, Embed(r)) == PolyAdd(p', Embed(r'))
    ensures PolyAdd(p, p') < 0x100
    ensures PolyAdd(p, p') == 0 ==> r == r'
  {
  }

  // ---- The shift-and-reduce loop ----

  /** Multiplication as the cipher computes it, one bit of b at a time. */
  method Gmult(a0: Byte, b0: Byte) returns (p: Byte)
    ensures p == Mul(a0, b0)
  {
    var a, b := a0, b0;
    p := 0;
    AddLaws(0, Mul(a, b), 0);
    for i := 0 to 8
      invariant Add(p, Mul(a, b)) == Mul(a0, b0)
      invariant (i == 1 ==> b < 0x80) && (i == 2 ==> b < 0x40) && (i == 3 ==> b < 0x20) && (i == 4 ==> b < 0x10)
      invariant (i == 5 ==> b < 0x08) && (i == 6 ==> b < 0x04) && (i == 7 ==> b < 0x02) && (i == 8 ==> b == 0)
    {
      MulUnfold(a, b);
      MulXtimeLeft(a, b >> 1);
      AddLaws(p, Bit0(b, a), Mul(Xtime(a), b >> 1));
      AddLaws(p, 0, 0);
      if b & 1 != 0 {
        p := Add(p, a);
      }
      var hbs := a & 0x80;
      a := a << 1;
      if hbs != 0 {
        a := Add(a, 0x1b);
      }
      b := b >> 1;
    }
    AddLaws(p, 0, 0);
  }
}
