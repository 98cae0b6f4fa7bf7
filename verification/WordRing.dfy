/**
 * Four-byte words as polynomials over GF(2^8) modulo x^4 + 1 (section 4.3 of FIPS 197), and the
 * two array routines that compute in that ring.
 */
module WordRing {
  import opened GaloisField
  import opened SBox

  /** c0 + c1 x + c2 x^2 + c3 x^3 */
  datatype Word = Word(c0: Byte, c1: Byte, c2: Byte, c3: Byte)

  const ONE := Word(1, 0, 0, 0)

  function AddWords(a: Word, b: Word): Word {
    Word(Add(a.c0, b.c0), Add(a.c1, b.c1), Add(a.c2, b.c2), Add(a.c3, b.c3))
  }

  /** The product with a constant. */
  function Scale(c: Byte, a: Word): Word {
    Word(Mul(a.c0, c), Mul(a.c1, c), Mul(a.c2, c), Mul(a.c3, c))
  }

  /** The product with x, in which x^4 = 1. */
  function TimesY(a: Word): Word {
    Word(a.c3, a.c0, a.c1, a.c2)
  }

  /** The product in the ring, by b(x) = b_0 + x (b_1 + x (b_2 + x b_3)). */
  function Multiply(a: Word, b: Word): Word {
    AddWords(Scale(b.c0, a), TimesY(AddWords(Scale(b.c1, a), TimesY(AddWords(Scale(b.c2, a), TimesY(Scale(b.c3, a)))))))
  }

  // ---- The ring is a module over the field ----

  lemma {:induction false} AddWordsLaws(a: Word, b: Word, c: Word)
    ensures AddWords(a, b) == AddWords(b, a)
    ensures AddWords(AddWords(a, b), c) == AddWords(a, AddWords(b, c))
  {
    AddLaws(a.c0, b.c0, c.c0);
    AddLaws(a.c1, b.c1, c.c1);
    AddLaws(a.c2, b.c2, c.c2);
    AddLaws(a.c3, b.c3, c.c3);
  }

  lemma {:induction false} AddWordsSwap(a: Word, b: Word, c: Word, d: Word)
    ensures AddWords(AddWords(a, b), AddWords(c, d)) == AddWords(AddWords(a, c), AddWords(b, d))
  {
    AddSwap(a.c0, b.c0, c.c0, d.c0);
    AddSwap(a.c1, b.c1, c.c1, d.c1);
    AddSwap(a.c2, b.c2, c.c2, d.c2);
    AddSwap(a.c3, b.c3, c.c3, d.c3);
  }

  lemma {:induction false} ScaleSum(c: Byte, a: Word, b: Word)
    ensures Scale(c, AddWords(a, b)) == AddWords(Scale(c, a), Scale(c, b))
  {
    MulAddLeft(a.c0, b.c0, c);
    MulAddLeft(a.c1, b.c1, c);
    MulAddLeft(a.c2, b.c2, c);
    MulAddLeft(a.c3, b.c3, c);
  }

  lemma {:induction false} SumScale(c: Byte, d: Byte, a: Word)
    ensures Scale(Add(c, d), a) == AddWords(Scale(c, a), Scale(d, a))
  {
    MulAddRight(a.c0, c, d);
    MulAddRight(a.c1, c, d);
    MulAddRight(a.c2, c, d);
    MulAddRight(a.c3, c, d);
  }

  lemma {:induction false} ScaleScale(c: Byte, d: Byte, a: Word)
    ensures Scale(Mul(d, c), a) == Scale(c, Scale(d, a))
  {
    MulAssociative(a.c0, d, c);
    MulAssociative(a.c1, d, c);
    MulAssociative(a.c2, d, c);
    MulAssociative(a.c3, d, c);
  }

  // ---- Multiply(a, _) is linear and commutes with x ----

  lemma {:induction false} MultiplyAdd(a: Word, b: Word, c: Word)
    ensures Multiply(a, AddWords(b, c)) == AddWords(Multiply(a, b), Multiply(a, c))
  {
    SumScale(b.c0, c.c0, a);
    SumScale(b.c1, c.c1, a);
    SumScale(b.c2, c.c2, a);
    SumScale(b.c3, c.c3, a);
    var b3, c3 := TimesY(Scale(b.c3, a)), TimesY(Scale(c.c3, a));
    AddWordsSwap(Scale(b.c2, a), Scale(c.c2, a), b3, c3);
    var b2, c2 := TimesY(AddWords(Scale(b.c2, a), b3)), TimesY(AddWords(Scale(c.c2, a), c3));
    AddWordsSwap(Scale(b.c1, a), Scale(c.c1, a), b2, c2);
    var b1, c1 := TimesY(AddWords(Scale(b.c1, a), b2)), TimesY(AddWords(Scale(c.c1, a), c2));
    AddWordsSwap(Scale(b.c0, a), Scale(c.c0, a), b1, c1);
  }

  lemma {:induction false} MultiplyTimesY(a: Word, b: Word)
    ensures Multiply(a, TimesY(b)) == TimesY(Multiply(a, b))
  {
    var s0, s1, s2, s3 := Scale(b.c0, a), TimesY(Scale(b.c1, a)), TimesY(TimesY(Scale(b.c2, a))),
      TimesY(TimesY(TimesY(Scale(b.c3, a))));
    assert Multiply(a, b) == AddWords(s0, AddWords(s1, AddWords(s2, s3)));
    assert Multiply(a, TimesY(b)) ==
      AddWords(TimesY(s3), AddWords(TimesY(s0), AddWords(TimesY(s1), TimesY(s2))));
    AddWordsLaws(TimesY(s3), AddWords(TimesY(s0), AddWords(TimesY(s1), TimesY(s2))), ONE);
    AddWordsLaws(TimesY(s0), AddWords(TimesY(s1), TimesY(s2)), TimesY(s3));
    AddWordsLaws(TimesY(s1), TimesY(s2), TimesY(s3));
  }

  lemma {:induction false} MultiplyScale(a: Word, c: Byte, b: Word)
    ensures Multiply(a, Scale(c, b)) == Scale(c, Multiply(a, b))
  {
    ScaleScale(c, b.c0, a);
    ScaleScale(c, b.c1, a);
    ScaleScale(c, b.c2, a);
    ScaleScale(c, b.c3, a);
    var t3 := TimesY(Scale(b.c3, a));
    var t2 := TimesY(AddWords(Scale(b.c2, a), t3));
    var t1 := TimesY(AddWords(Scale(b.c1, a), t2));
    ScaleSum(c, Scale(b.c2, a), t3);
    ScaleSum(c, Scale(b.c1, a), t2);
    ScaleSum(c, Scale(b.c0, a), t1);
  }

  /** The product of words is associative. */
  lemma {:induction false} MultiplyAssociative(a: Word, b: Word, c: Word)
    ensures Multiply(Multiply(a, b), c) == Multiply(a, Multiply(b, c))
  {
    MultiplyScale(a, c.c0, b);
    MultiplyScale(a, c.c1, b);
    MultiplyScale(a, c.c2, b);
    MultiplyScale(a, c.c3, b);
    var t3 := Scale(c.c3, b);
    MultiplyTimesY(a, t3);
    var t2 := AddWords(Scale(c.c2, b), TimesY(t3));
    MultiplyAdd(a, Scale(c.c2, b), TimesY(t3));
    MultiplyTimesY(a, t2);
    var t1 := AddWords(Scale(c.c1, b), TimesY(t2));
    MultiplyAdd(a, Scale(c.c1, b), TimesY(t2));
    MultiplyTimesY(a, t1);
    MultiplyAdd(a, Scale(c.c0, b), TimesY(t1));
  }

  lemma {:induction false} MultiplyOne(a: Word)
    ensures Multiply(ONE, a) == a
  {
    OneByte(a.c0);
    OneByte(a.c1);
    OneByte(a.c2);
    OneByte(a.c3);
  }

  lemma {:induction false} OneByte(b: Byte)
    ensures Mul(1, b) == b && Mul(0, b) == 0 && Add(b, 0) == b && Add(0, b) == b
  {
    MulOneLeft(b);
    MulZeroLeft(b);
    AddLaws(b, 0, 0);
  }

  // ---- The ring is polynomials modulo x^4 + 1 ----

  /** The seven coefficients of a polynomial product before reduction. */
  datatype Expansion = Expansion(e0: Byte, e1: Byte, e2: Byte, e3: Byte, e4: Byte, e5: Byte, e6: Byte)

  /** Coefficient k is the sum of a_i b_j over i + j = k. */
  function Expand(a: Word, b: Word): Expansion {
    Expansion(
      Mul(a.c0, b.c0),
      Add(Mul(a.c1, b.c0), Mul(a.c0, b.c1)),
      Add(Mul(a.c2, b.c0), Add(Mul(a.c1, b.c1), Mul(a.c0, b.c2))),
      Add(Mul(a.c3, b.c0), Add(Mul(a.c2, b.c1), Add(Mul(a.c1, b.c2), Mul(a.c0, b.c3)))),
      Add(Mul(a.c3, b.c1), Add(Mul(a.c2, b.c2), Mul(a.c1, b.c3))),
      Add(Mul(a.c3, b.c2), Mul(a.c2, b.c3)),
      Mul(a.c3, b.c3))
  }

  /** x^i reduces to x^(i mod 4). */
  function Fold(e: Expansion): Word {
    Word(Add(e.e0, e.e4), Add(e.e1, e.e5), Add(e.e2, e.e6), e.e3)
  }

  /** Multiply is the product of polynomials reduced modulo x^4 + 1. */
  lemma {:induction false} MultiplyIsReduced(a: Word, b: Word)
    ensures Multiply(a, b) == Fold(Expand(a, b))
  {
    AddLaws(Mul(a.c1, b.c0), Mul(a.c0, b.c1), Add(Mul(a.c3, b.c2), Mul(a.c2, b.c3)));
    var p, q, r, t := Mul(a.c2, b.c0), Mul(a.c1, b.c1), Mul(a.c0, b.c2), Mul(a.c3, b.c3);
    AddLaws(p, Add(q, r), t);
    AddLaws(q, r, t);
  }

  // ---- MixColumns and its inverse are units of the ring ----

  const MIX := Word(0x02, 0x01, 0x01, 0x03)
  const INV_MIX := Word(0x0e, 0x09, 0x0d, 0x0b)

  lemma {:induction false} MixUnits()
    ensures Multiply(INV_MIX, MIX) == ONE && Multiply(MIX, INV_MIX) == ONE
  {
    SmallProducts(0x0e);
    SmallProducts(0x09);
    SmallProducts(0x0d);
    SmallProducts(0x0b);
    MultiplyIsReduced(INV_MIX, MIX);
    MultiplyIsReduced(MIX, INV_MIX);
    assert Fold(Expand(INV_MIX, MIX)) == ONE;
    assert Fold(Expand(MIX, INV_MIX)) == ONE;
  }

  lemma {:induction false} SmallProducts(b: Byte)
    ensures Mul(b, 0x01) == b && Mul(b, 0x02) == Xtime(b) && Mul(b, 0x03) == Add(b, Xtime(b))
    ensures Mul(0x01, b) == b && Mul(0x02, b) == Xtime(b) && Mul(0x03, b) == Add(b, Xtime(b))
  {
    MulIsProduct(b, 0x01);
    MulIsProduct(b, 0x02);
    MulIsProduct(b, 0x03);
    MulCommutative(b, 0x01);
    MulCommutative(b, 0x02);
    MulCommutative(b, 0x03);
    AddLaws(b, 0, 0);
    AddLaws(0, Xtime(b), 0);
  }

  /** Multiplying by either polynomial undoes multiplying by the other. */
  lemma {:induction false} MixUndone(a: Word)
    ensures Multiply(INV_MIX, Multiply(MIX, a)) == a
    ensures Multiply(MIX, Multiply(INV_MIX, a)) == a
  {
    MixUnits();
    MultiplyAssociative(INV_MIX, MIX, a);
    MultiplyAssociative(MIX, INV_MIX, a);
    MultiplyOne(a);
  }

  /** Equation 5.6 of FIPS 197: the matrix of MixColumns. */
  lemma {:induction false} MixMatrix(w: Word)
    ensures Multiply(MIX, w) == Word(
      Add(Add(Mul(2, w.c0), Mul(3, w.c1)), Add(w.c2, w.c3)),
      Add(Add(w.c0, Mul(2, w.c1)), Add(Mul(3, w.c2), w.c3)),
      Add(Add(w.c0, w.c1), Add(Mul(2, w.c2), Mul(3, w.c3))),
      Add(Add(Mul(3, w.c0), w.c1), Add(w.c2, Mul(2, w.c3))))
  {
    hide Mul;
    MulOneLeft(w.c0);
    MulOneLeft(w.c1);
    MulOneLeft(w.c2);
    MulOneLeft(w.c3);
    Sum4Regroup(Mul(2, w.c0), Mul(3, w.c1), w.c2, w.c3);
    Sum4Regroup(w.c0, Mul(2, w.c1), Mul(3, w.c2), w.c3);
    Sum4Regroup(w.c0, w.c1, Mul(2, w.c2), Mul(3, w.c3));
    Sum4Regroup(Mul(3, w.c0), w.c1, w.c2, Mul(2, w.c3));
  }

  // ---- The array routines ----

  /** The word held in four array elements from index k. */
  function WordAt(a: array<Byte>, k: nat): Word
    requires k + 4 <= a.Length
    reads a
  {
    Word(a[k], a[k + 1], a[k + 2], a[k + 3])
  }

  /** d := a + b. The destination may be one of the operands. */
  method CoefAdd(a: array<Byte>, b: array<Byte>, d: array<Byte>)
    requires a.Length == 4 && b.Length == 4 && d.Length == 4
    modifies d
    ensures WordAt(d, 0) == old(AddWords(WordAt(a, 0), WordAt(b, 0)))
  {
    hide Add;
    d[0] := Add(a[0], b[0]);
    d[1] := Add(a[1], b[1]);
    d[2] := Add(a[2], b[2]);
    d[3] := Add(a[3], b[3]);
  }

  /** One output coefficient of coef_mult, in the order the code sums its four products. */
  method Sum4(a0: Byte, b0: Byte, a1: Byte, b1: Byte, a2: Byte, b2: Byte, a3: Byte, b3: Byte) returns (s: Byte)
    ensures s == Add(Add(Add(Mul(a0, b0), Mul(a1, b1)), Mul(a2, b2)), Mul(a3, b3))
  {
    var p := Gmult(a0, b0);
    var q := Gmult(a1, b1);
    var r := Gmult(a2, b2);
    var t := Gmult(a3, b3);
    s := Add(Add(Add(p, q), r), t);
  }

  lemma {:induction false} Sum4Regroup(p: Byte, q: Byte, r: Byte, t: Byte)
    ensures Add(Add(Add(p, q), r), t) == Add(p, Add(q, Add(r, t)))
    ensures Add(Add(Add(p, q), r), t) == Add(Add(p, q), Add(r, t))
    ensures Add(Add(Add(p, q), r), t) == Add(Add(p, Add(q, r)), t)
  {
    AddLaws(Add(p, q), r, t);
    AddLaws(p, q, Add(r, t));
    AddLaws(p, q, r);
  }

  /** d := a b in the ring. */
  method CoefMult(a: array<Byte>, b: array<Byte>, d: array<Byte>)
    requires a.Length == 4 && b.Length == 4 && d.Length == 4
    requires d != a && d != b
    modifies d
    ensures WordAt(d, 0) == Multiply(WordAt(a, 0), WordAt(b, 0))
  {
    hide Add;
    hide Mul;
    ghost var m := Mul;
    var r := Sum4(a[0], b[0], a[3], b[1], a[2], b[2], a[1], b[3]);
    d[0] := r;
    r := Sum4(a[1], b[0], a[0], b[1], a[3], b[2], a[2], b[3]);
    d[1] := r;
    r := Sum4(a[2], b[0], a[1], b[1], a[0], b[2], a[3], b[3]);
    d[2] := r;
    r := Sum4(a[3], b[0], a[2], b[1], a[1], b[2], a[0], b[3]);
    d[3] := r;
    Sum4Regroup(m(a[0], b[0]), m(a[3], b[1]), m(a[2], b[2]), m(a[1], b[3]));
    Sum4Regroup(m(a[1], b[0]), m(a[0], b[1]), m(a[3], b[2]), m(a[2], b[3]));
    Sum4Regroup(m(a[2], b[0]), m(a[1], b[1]), m(a[0], b[2]), m(a[3], b[3]));
    Sum4Regroup(m(a[3], b[0]), m(a[2], b[1]), m(a[1], b[2]), m(a[0], b[3]));
  }
}
