/** The cipher byte by byte: what each byte of the state is in terms of the bytes before the round. */
module RoundBytes {
  import opened Arith
  import opened GaloisField
  import opened SBox
  import opened WordRing
  import opened AesSpec

  /** The byte that substitution and row shift bring to row j of column c. */
  function Source(s: State, nb: nat, j: nat, c: nat): Byte
    requires s.Shape(nb) && j < 4 && c < nb
  {
    SubByte(s.Row(j)[(c + j) % nb])
  }

  /** Row i of the matrix of equation 5.6 of FIPS 197, applied to a column. */
  function MixByte(i: nat, a: Byte, b: Byte, c: Byte, d: Byte): Byte
    requires i < 4
  {
    match i
    case 0 => Add(Add(Mul(2, a), Mul(3, b)), Add(c, d))
    case 1 => Add(Add(a, Mul(2, b)), Add(Mul(3, c), d))
    case 2 => Add(Add(a, b), Add(Mul(2, c), Mul(3, d)))
    case _ => Add(Add(Mul(3, a), b), Add(c, Mul(2, d)))
  }

  lemma {:induction false} ShiftRowsAt(s: State, nb: nat, i: nat, c: nat)
    requires s.Shape(nb) && i < 4 && c < nb
    ensures ShiftRows(s).Row(i)[c] == s.Row(i)[(c + i) % nb]
  {
    hide RotateLeft;
    SmallMod(c, nb);
    RotateIndex(s.r1, 1, c);
    RotateIndex(s.r2, 2, c);
    RotateIndex(s.r3, 3, c);
  }

  lemma {:induction false} ShiftedAt(s: State, nb: nat, i: nat, c: nat)
    requires s.Shape(nb) && i < 4 && c < nb
    ensures ShiftRows(SubBytes(s)).Row(i)[c] == Source(s, nb, i, c)
  {
    hide SubBytes, ShiftRows, State.Row, SubByte;
    ShiftRowsAt(SubBytes(s), nb, i, c);
    SubBytesAt(s, nb, i, (c + i) % nb);
  }

  lemma {:induction false} MixedAt(s: State, nb: nat, i: nat, c: nat)
    requires s.Shape(nb) && i < 4 && c < nb
    ensures Mixed(s, nb).Row(i)[c] == MixByte(i, Source(s, nb, 0, c), Source(s, nb, 1, c), Source(s, nb, 2, c), Source(s, nb, 3, c))
  {
    hide SubBytes, ShiftRows, Source, Mul, Add;
    var t := ShiftRows(SubBytes(s));
    ShiftedAt(s, nb, 0, c);
    ShiftedAt(s, nb, 1, c);
    ShiftedAt(s, nb, 2, c);
    ShiftedAt(s, nb, 3, c);
    MixMatrix(t.Column(nb, c));
    hide Multiply;
  }

  /** Byte k of round key r, where it stands in the schedule. */
  function KeyByte(w: seq<Byte>, nb: nat, nr: nat, r: nat, k: nat): Byte
    requires IsSchedule(w, nb, nr) && r <= nr && k < 4 * nb
  {
    RoundKeyBounds(nb, nr, r);
    var first := 4 * nb * r;
    w[first + k]
  }

  lemma {:induction false} KeyedAt(s: State, w: seq<Byte>, nb: nat, nr: nat, r: nat, i: nat, c: nat)
    requires s.Shape(nb) && IsSchedule(w, nb, nr) && r <= nr && i < 4 && c < nb
    ensures AddRoundKey(s, RoundKey(w, nb, nr, r), nb).Row(i)[c] == Add(s.Row(i)[c], KeyByte(w, nb, nr, r, 4 * c + i))
  {
    hide Add, AddRoundKey, State.Row;
    RoundKeyBounds(nb, nr, r);
    AddRoundKeyAt(s, RoundKey(w, nb, nr, r), nb, i, c);
  }

  /** Before the first round, byte (i, c) is byte 4c + i of the block plus that byte of the schedule. */
  lemma {:induction false} StartInBytes(input: seq<Byte>, w: seq<Byte>, nb: nat, nr: nat, i: nat, c: nat)
    requires |input| == 4 * nb && IsSchedule(w, nb, nr) && i < 4 && c < nb
    ensures Start(input, w, nb, nr).Row(i)[c] == Add(input[4 * c + i], KeyByte(w, nb, nr, 0, 4 * c + i))
  {
    hide Add, AddRoundKey, RoundKey, KeyByte;
    KeyedAt(Load(input, nb), w, nb, nr, 0, i, c);
  }

  /** A round: the four substituted bytes of a shifted column, mixed, plus the round's own byte of the schedule. */
  lemma {:induction false} RoundInBytes(s: State, w: seq<Byte>, nb: nat, nr: nat, r: nat, i: nat, c: nat)
    requires s.Shape(nb) && IsSchedule(w, nb, nr) && 1 <= r <= nr && i < 4 && c < nb
    ensures var t := AfterRound(s, w, nb, nr, r - 1);
      AfterRound(s, w, nb, nr, r).Row(i)[c]
      == Add(MixByte(i, Source(t, nb, 0, c), Source(t, nb, 1, c), Source(t, nb, 2, c), Source(t, nb, 3, c)), KeyByte(w, nb, nr, r, 4 * c + i))
  {
    hide Add, AddRoundKey, RoundKey, KeyByte, MixByte, Mixed, Source, State.Row;
    var t := AfterRound(s, w, nb, nr, r - 1);
    MixedAt(t, nb, i, c);
    KeyedAt(Mixed(t, nb), w, nb, nr, r, i, c);
  }

  /** The last round does not mix: byte 4c + i of the result is one substituted byte plus a byte of the last round key. */
  lemma {:induction false} FinalInBytes(input: seq<Byte>, w: seq<Byte>, nb: nat, nr: nat, i: nat, c: nat)
    requires nr >= 1 && |input| == 4 * nb && IsSchedule(w, nb, nr) && i < 4 && c < nb
    ensures var t := AfterRound(Start(input, w, nb, nr), w, nb, nr, nr - 1);
      Cipher(input, w, nb, nr)[4 * c + i] == Add(Source(t, nb, i, c), KeyByte(w, nb, nr, nr, 4 * c + i))
  {
    hide Add, AddRoundKey, RoundKey, KeyByte, Source, AfterRound, Start, SubBytes, ShiftRows, State.Row;
    var t := AfterRound(Start(input, w, nb, nr), w, nb, nr, nr - 1);
    ShiftedAt(t, nb, i, c);
    KeyedAt(ShiftRows(SubBytes(t)), w, nb, nr, nr, i, c);
    assert (4 * c + i) % 4 == i && (4 * c + i) / 4 == c;
  }
}
