/**
 * The two substitution tables of the cipher. They are written as rows of sixteen, selected by the
 * upper nibble of the byte and then by the lower one. Both are proved to be the tables that
 * section 5.1.1 of FIPS 197 defines: inversion in GF(2^8) followed by an affine map of the bits,
 * and the reverse of it. That they undo each other follows from the field laws.
 */
module SBox {
  import opened GaloisField

  /** Entry c of a row of sixteen. */
  function Pick(c: Byte, e0: Byte, e1: Byte, e2: Byte, e3: Byte, e4: Byte, e5: Byte, e6: Byte, e7: Byte,
                e8: Byte, e9: Byte, ea: Byte, eb: Byte, ec: Byte, ed: Byte, ee: Byte, ef: Byte): Byte {
    if c & 8 == 0 then
      if c & 4 == 0 then
        if c & 2 == 0 then if c & 1 == 0 then e0 else e1 else if c & 1 == 0 then e2 else e3
      else
        if c & 2 == 0 then if c & 1 == 0 then e4 else e5 else if c & 1 == 0 then e6 else e7
    else
      if c & 4 == 0 then
        if c & 2 == 0 then if c & 1 == 0 then e8 else e9 else if c & 1 == 0 then ea else eb
      else
        if c & 2 == 0 then if c & 1 == 0 then ec else ed else if c & 1 == 0 then ee else ef
  }

  function SubByte(b: Byte): Byte {
    var c := b & 0x0f;
    match b >> 4
    case 0x0 => Pick(c, 0x63, 0x7c, 0x77, 0x7b, 0xf2, 0x6b, 0x6f, 0xc5, 0x30, 0x01, 0x67, 0x2b, 0xfe, 0xd7, 0xab, 0x76)
    case 0x1 => Pick(c, 0xca, 0x82, 0xc9, 0x7d, 0xfa, 0x59, 0x47, 0xf0, 0xad, 0xd4, 0xa2, 0xaf, 0x9c, 0xa4, 0x72, 0xc0)
    case 0x2 => Pick(c, 0xb7, 0xfd, 0x93, 0x26, 0x36, 0x3f, 0xf7, 0xcc, 0x34, 0xa5, 0xe5, 0xf1, 0x71, 0xd8, 0x31, 0x15)
    case 0x3 => Pick(c, 0x04, 0xc7, 0x23, 0xc3, 0x18, 0x96, 0x05, 0x9a, 0x07, 0x12, 0x80, 0xe2, 0xeb, 0x27, 0xb2, 0x75)
    case 0x4 => Pick(c, 0x09, 0x83, 0x2c, 0x1a, 0x1b, 0x6e, 0x5a, 0xa0, 0x52, 0x3b, 0xd6, 0xb3, 0x29, 0xe3, 0x2f, 0x84)
    case 0x5 => Pick(c, 0x53, 0xd1, 0x00, 0xed, 0x20, 0xfc, 0xb1, 0x5b, 0x6a, 0xcb, 0xbe, 0x39, 0x4a, 0x4c, 0x58, 0xcf)
    case 0x6 => Pick(c, 0xd0, 0xef, 0xaa, 0xfb, 0x43, 0x4d, 0x33, 0x85, 0x45, 0xf9, 0x02, 0x7f, 0x50, 0x3c, 0x9f, 0xa8)
    case 0x7 => Pick(c, 0x51, 0xa3, 0x40, 0x8f, 0x92, 0x9d, 0x38, 0xf5, 0xbc, 0xb6, 0xda, 0x21, 0x10, 0xff, 0xf3, 0xd2)
    case 0x8 => Pick(c, 0xcd, 0x0c, 0x13, 0xec, 0x5f, 0x97, 0x44, 0x17, 0xc4, 0xa7, 0x7e, 0x3d, 0x64, 0x5d, 0x19, 0x73)
    case 0x9 => Pick(c, 0x60, 0x81, 0x4f, 0xdc, 0x22, 0x2a, 0x90, 0x88, 0x46, 0xee, 0xb8, 0x14, 0xde, 0x5e, 0x0b, 0xdb)
    case 0xa => Pick(c, 0xe0, 0x32, 0x3a, 0x0a, 0x49, 0x06, 0x24, 0x5c, 0xc2, 0xd3, 0xac, 0x62, 0x91, 0x95, 0xe4, 0x79)
    case 0xb => Pick(c, 0xe7, 0xc8, 0x37, 0x6d, 0x8d, 0xd5, 0x4e, 0xa9, 0x6c, 0x56, 0xf4, 0xea, 0x65, 0x7a, 0xae, 0x08)
    case 0xc => Pick(c, 0xba, 0x78, 0x25, 0x2e, 0x1c, 0xa6, 0xb4, 0xc6, 0xe8, 0xdd, 0x74, 0x1f, 0x4b, 0xbd, 0x8b, 0x8a)
    case 0xd => Pick(c, 0x70, 0x3e, 0xb5, 0x66, 0x48, 0x03, 0xf6, 0x0e, 0x61, 0x35, 0x57, 0xb9, 0x86, 0xc1, 0x1d, 0x9e)
    case 0xe => Pick(c, 0xe1, 0xf8, 0x98, 0x11, 0x69, 0xd9, 0x8e, 0x94, 0x9b, 0x1e, 0x87, 0xe9, 0xce, 0x55, 0x28, 0xdf)
    case _ => Pick(c, 0x8c, 0xa1, 0x89, 0x0d, 0xbf, 0xe6, 0x42, 0x68, 0x41, 0x99, 0x2d, 0x0f, 0xb0, 0x54, 0xbb, 0x16)
  }

  function InvSubByte(b: Byte): Byte {
    var c := b & 0x0f;
    match b >> 4
    case 0x0 => Pick(c, 0x52, 0x09, 0x6a, 0xd5, 0x30, 0x36, 0xa5, 0x38, 0xbf, 0x40, 0xa3, 0x9e, 0x81, 0xf3, 0xd7, 0xfb)
    case 0x1 => Pick(c, 0x7c, 0xe3, 0x39, 0x82, 0x9b, 0x2f, 0xff, 0x87, 0x34, 0x8e, 0x43, 0x44, 0xc4, 0xde, 0xe9, 0xcb)
    case 0x2 => Pick(c, 0x54, 0x7b, 0x94, 0x32, 0xa6, 0xc2, 0x23, 0x3d, 0xee, 0x4c, 0x95, 0x0b, 0x42, 0xfa, 0xc3, 0x4e)
    case 0x3 => Pick(c, 0x08, 0x2e, 0xa1, 0x66, 0x28, 0xd9, 0x24, 0xb2, 0x76, 0x5b, 0xa2, 0x49, 0x6d, 0x8b, 0xd1, 0x25)
    case 0x4 => Pick(c, 0x72, 0xf8, 0xf6, 0x64, 0x86, 0x68, 0x98, 0x16, 0xd4, 0xa4, 0x5c, 0xcc, 0x5d, 0x65, 0xb6, 0x92)
    case 0x5 => Pick(c, 0x6c, 0x70, 0x48, 0x50, 0xfd, 0xed, 0xb9, 0xda, 0x5e, 0x15, 0x46, 0x57, 0xa7, 0x8d, 0x9d, 0x84)
    case 0x6 => Pick(c, 0x90, 0xd8, 0xab, 0x00, 0x8c, 0xbc, 0xd3, 0x0a, 0xf7, 0xe4, 0x58, 0x05, 0xb8, 0xb3, 0x45, 0x06)
    case 0x7 => Pick(c, 0xd0, 0x2c, 0x1e, 0x8f, 0xca, 0x3f, 0x0f, 0x02, 0xc1, 0xaf, 0xbd, 0x03, 0x01, 0x13, 0x8a, 0x6b)
    case 0x8 => Pick(c, 0x3a, 0x91, 0x11, 0x41, 0x4f, 0x67, 0xdc, 0xea, 0x97, 0xf2, 0xcf, 0xce, 0xf0, 0xb4, 0xe6, 0x73)
    case 0x9 => Pick(c, 0x96, 0xac, 0x74, 0x22, 0xe7, 0xad, 0x35, 0x85, 0xe2, 0xf9, 0x37, 0xe8, 0x1c, 0x75, 0xdf, 0x6e)
    case 0xa => Pick(c, 0x47, 0xf1, 0x1a, 0x71, 0x1d, 0x29, 0xc5, 0x89, 0x6f, 0xb7, 0x62, 0x0e, 0xaa, 0x18, 0xbe, 0x1b)
    case 0xb => Pick(c, 0xfc, 0x56, 0x3e, 0x4b, 0xc6, 0xd2, 0x79, 0x20, 0x9a, 0xdb, 0xc0, 0xfe, 0x78, 0xcd, 0x5a, 0xf4)
    case 0xc => Pick(c, 0x1f, 0xdd, 0xa8, 0x33, 0x88, 0x07, 0xc7, 0x31, 0xb1, 0x12, 0x10, 0x59, 0x27, 0x80, 0xec, 0x5f)
    case 0xd => Pick(c, 0x60, 0x51, 0x7f, 0xa9, 0x19, 0xb5, 0x4a, 0x0d, 0x2d, 0xe5, 0x7a, 0x9f, 0x93, 0xc9, 0x9c, 0xef)
    case 0xe => Pick(c, 0xa0, 0xe0, 0x3b, 0x4d, 0xae, 0x2a, 0xf5, 0xb0, 0xc8, 0xeb, 0xbb, 0x3c, 0x83, 0x53, 0x99, 0x61)
    case _ => Pick(c, 0x17, 0x2b, 0x04, 0x7e, 0xba, 0x77, 0xd6, 0x26, 0xe1, 0x69, 0x14, 0x63, 0x55, 0x21, 0x0c, 0x7d)
  }

  // ---- The definition in FIPS 197 ----

  /** Bit i of the result is b_i + b_(i+4) + b_(i+5) + b_(i+6) + b_(i+7) + c_i, indices modulo eight. */
  function Affine(b: Byte): Byte {
    b ^ ((b << 1) | (b >> 7)) ^ ((b << 2) | (b >> 6)) ^ ((b << 3) | (b >> 5)) ^ ((b << 4) | (b >> 4)) ^ 0x63
  }

  function InvAffine(s: Byte): Byte {
    ((s << 1) | (s >> 7)) ^ ((s << 3) | (s >> 5)) ^ ((s << 6) | (s >> 2)) ^ 0x05
  }

  lemma {:induction false} AffineBijective(b: Byte)
    ensures InvAffine(Affine(b)) == b && Affine(InvAffine(b)) == b
  {
  }

  /** The multiplicative inverse in GF(2^8), with zero mapped to itself. */
  predicate IsInverse(b: Byte, i: Byte) {
    if b == 0 then i == 0 else Mul(b, i) == 1
  }

  lemma {:induction false} InverseUnique(b: Byte, i: Byte, j: Byte)
    requires IsInverse(b, i) && IsInverse(b, j)
    ensures i == j
  {
    if b != 0 {
      MulCommutative(b, i);
      MulAssociative(i, b, j);
      MulOneRight(i);
      MulOneLeft(j);
    }
  }

  /** Mul with its recursion written out. */
  function Product(a: Byte, b: Byte): Byte {
    Add(Bit0(b, a), Xtime(Add(Bit0(b >> 1, a), Xtime(Add(Bit0(b >> 2, a), Xtime(Add(Bit0(b >> 3, a),
      Xtime(Add(Bit0(b >> 4, a), Xtime(Add(Bit0(b >> 5, a), Xtime(Add(Bit0(b >> 6, a),
        Xtime(Bit0(b >> 7, a)))))))))))))))
  }

  lemma {:induction false} MulIsProduct(a: Byte, b: Byte)
    ensures Mul(a, b) == Product(a, b)
  {
    MulUnfold(a, b);
    MulUnfold(a, b >> 1);
    MulUnfold(a, b >> 2);
    MulUnfold(a, b >> 3);
    MulUnfold(a, b >> 4);
    MulUnfold(a, b >> 5);
    MulUnfold(a, b >> 6);
    MulUnfold(a, b >> 7);
    AddLaws(Bit0(b >> 7, a), 0, 0);
    ShiftCompose(b);
    assert Xtime(Mul(a, 0)) == 0;
  }

  lemma {:induction false} ShiftCompose(b: Byte)
    ensures (b >> 1) >> 1 == b >> 2 && (b >> 2) >> 1 == b >> 3 && (b >> 3) >> 1 == b >> 4 && (b >> 4) >> 1 == b >> 5
    ensures (b >> 5) >> 1 == b >> 6 && (b >> 6) >> 1 == b >> 7 && (b >> 7) >> 1 == 0
  {
  }

  // ---- The entries of the tables, half a table at a time ----

  lemma {:induction false} SubEntriesLow(b: Byte)
    requires 0 < b < 0x80
    ensures Product(b, InvAffine(SubByte(b))) == 1
  {
  }

  lemma {:induction false} SubEntriesHigh(b: Byte)
    requires 0x80 <= b
    ensures Product(b, InvAffine(SubByte(b))) == 1
  {
  }

  lemma {:induction false} InvSubEntriesLow(b: Byte)
    requires b < 0x80 && b != 0x63
    ensures Product(InvAffine(b), InvSubByte(b)) == 1
  {
  }

  lemma {:induction false} InvSubEntriesHigh(b: Byte)
    requires 0x80 <= b
    ensures Product(InvAffine(b), InvSubByte(b)) == 1
  {
  }

  lemma {:induction false} ZeroEntries()
    ensures SubByte(0) == Affine(0) && InvSubByte(0x63) == 0 && InvAffine(0x63) == 0
  {
  }

  /** The S-box is inversion followed by the affine map, for every byte. */
  lemma {:induction false} SubByteDefinition(b: Byte, i: Byte)
    requires IsInverse(b, i)
    ensures SubByte(b) == Affine(i)
  {
    ZeroEntries();
    if b != 0 {
      var j := InvAffine(SubByte(b));
      if b < 0x80 {
        SubEntriesLow(b);
      } else {
        SubEntriesHigh(b);
      }
      MulIsProduct(b, j);
      InverseUnique(b, i, j);
      AffineBijective(SubByte(b));
    }
  }

  /** The inverse S-box is the inverse affine map followed by inversion, for every byte. */
  lemma {:induction false} InvSubByteDefinition(b: Byte)
    ensures IsInverse(InvAffine(b), InvSubByte(b))
  {
    ZeroEntries();
    if b != 0x63 {
      if b < 0x80 {
        InvSubEntriesLow(b);
      } else {
        InvSubEntriesHigh(b);
      }
      MulIsProduct(InvAffine(b), InvSubByte(b));
      MulZeroLeft(InvSubByte(b));
    }
  }

  lemma {:induction false} IsInverseSymmetric(b: Byte, i: Byte)
    requires IsInverse(b, i)
    ensures IsInverse(i, b)
  {
    MulCommutative(b, i);
    MulZeroLeft(b);
  }

  /** inv_s_box undoes s_box. */
  lemma {:induction false} InvSubSub(b: Byte)
    ensures InvSubByte(SubByte(b)) == b
  {
    var i := 0;
    if b != 0 {
      i := InverseExists(b);
    }
    SubByteDefinition(b, i);
    InvSubByteDefinition(SubByte(b));
    AffineBijective(i);
    IsInverseSymmetric(b, i);
    InverseUnique(i, b, InvSubByte(SubByte(b)));
  }

  /** s_box undoes inv_s_box. */
  lemma {:induction false} SubInvSub(b: Byte)
    ensures SubByte(InvSubByte(b)) == b
  {
    InvSubByteDefinition(b);
    IsInverseSymmetric(InvAffine(b), InvSubByte(b));
    SubByteDefinition(InvSubByte(b), InvAffine(b));
    AffineBijective(b);
  }
}
