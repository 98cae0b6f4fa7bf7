/**
 * The cipher of section 5 of FIPS 197 over a state of four rows and Nb columns, for every Nb and
 * every number of rounds.
 */
module AesSpec {
  import opened Arith
  import opened Grid
  import opened GaloisField
  import opened SBox
  import opened WordRing

  /** The four rows of the state. */
  datatype State = State(r0: seq<Byte>, r1: seq<Byte>, r2: seq<Byte>, r3: seq<Byte>) {
    predicate Shape(nb: nat) {
      |r0| == nb && |r1| == nb && |r2| == nb && |r3| == nb
    }

    function Row(i: nat): (row: seq<Byte>)
      requires i < 4
      ensures forall nb :: Shape(nb) ==> |row| == nb
    {
      if i == 0 then r0 else if i == 1 then r1 else if i == 2 then r2 else r3
    }

    function Column(nb: nat, c: nat): Word
      requires Shape(nb) && c < nb
    {
      Word(r0[c], r1[c], r2[c], r3[c])
    }
  }

  // ---- The transformations of one round ----

  function MapRow(f: Byte -> Byte, row: seq<Byte>): (r: seq<Byte>)
    ensures |r| == |row|
  {
    seq(|row|, c requires 0 <= c < |row| => f(row[c]))
  }

  function MapState(f: Byte -> Byte, s: State): (t: State)
    ensures forall nb :: s.Shape(nb) ==> t.Shape(nb)
  {
    State(MapRow(f, s.r0), MapRow(f, s.r1), MapRow(f, s.r2), MapRow(f, s.r3))
  }

  function SubBytes(s: State): (t: State)
    ensures forall nb :: s.Shape(nb) ==> t.Shape(nb)
  {
    MapState(SubByte, s)
  }

  function InvSubBytes(s: State): (t: State)
    ensures forall nb :: s.Shape(nb) ==> t.Shape(nb)
  {
    MapState(InvSubByte, s)
  }

  function RotateLeft(row: seq<Byte>, k: nat): (r: seq<Byte>)
    ensures |r| == |row|
  {
    if k == 0 then row else StepLeft(RotateLeft(row, k - 1))
  }

  function RotateRight(row: seq<Byte>, k: nat): (r: seq<Byte>)
    ensures |r| == |row|
  {
    if k == 0 then row else StepRight(RotateRight(row, k - 1))
  }

  function ShiftRows(s: State): (t: State)
    ensures forall nb :: s.Shape(nb) ==> t.Shape(nb)
  {
    State(s.r0, RotateLeft(s.r1, 1), RotateLeft(s.r2, 2), RotateLeft(s.r3, 3))
  }

  function InvShiftRows(s: State): (t: State)
    ensures forall nb :: s.Shape(nb) ==> t.Shape(nb)
  {
    State(s.r0, RotateRight(s.r1, 1), RotateRight(s.r2, 2), RotateRight(s.r3, 3))
  }

  /** Every column multiplied by the polynomial m. */
  function MultiplyColumns(m: Word, s: State, nb: nat): (t: State)
    requires s.Shape(nb)
    ensures t.Shape(nb)
  {
    State(
      seq(nb, c requires 0 <= c < nb => Multiply(m, s.Column(nb, c)).c0),
      seq(nb, c requires 0 <= c < nb => Multiply(m, s.Column(nb, c)).c1),
      seq(nb, c requires 0 <= c < nb => Multiply(m, s.Column(nb, c)).c2),
      seq(nb, c requires 0 <= c < nb => Multiply(m, s.Column(nb, c)).c3))
  }

  /** Byte i of column c of a round key is byte 4c + i of its part of the schedule. */
  function AddRoundKey(s: State, key: seq<Byte>, nb: nat): (t: State)
    requires s.Shape(nb) && |key| == 4 * nb
    ensures t.Shape(nb)
  {
    State(
      seq(nb, c requires 0 <= c < nb => Add(s.r0[c], key[4 * c])),
      seq(nb, c requires 0 <= c < nb => Add(s.r1[c], key[4 * c + 1])),
      seq(nb, c requires 0 <= c < nb => Add(s.r2[c], key[4 * c + 2])),
      seq(nb, c requires 0 <= c < nb => Add(s.r3[c], key[4 * c + 3])))
  }

  // ---- Each transformation is undone by its inverse ----

  lemma {:induction false} SubBytesUndone(s: State)
    ensures InvSubBytes(SubBytes(s)) == s && SubBytes(InvSubBytes(s)) == s
  {
    hide SubByte;
    hide InvSubByte;
    SubRowUndone(s.r0);
    SubRowUndone(s.r1);
    SubRowUndone(s.r2);
    SubRowUndone(s.r3);
  }

  lemma {:induction false} SubRowUndone(row: seq<Byte>)
    ensures MapRow(InvSubByte, MapRow(SubByte, row)) == row
    ensures MapRow(SubByte, MapRow(InvSubByte, row)) == row
  {
    hide SubByte;
    hide InvSubByte;
    forall c | 0 <= c < |row|
      ensures InvSubByte(SubByte(row[c])) == row[c] && SubByte(InvSubByte(row[c])) == row[c]
    {
      InvSubSub(row[c]);
      SubInvSub(row[c]);
    }
  }

  lemma {:induction false} SubBytesAt(s: State, nb: nat, i: nat, c: nat)
    requires s.Shape(nb) && i < 4 && c < nb
    ensures SubBytes(s).Row(i)[c] == SubByte(s.Row(i)[c])
  {
    hide SubByte;
  }

  lemma {:induction false} RotateUndone(row: seq<Byte>, k: nat)
    ensures RotateRight(RotateLeft(row, k), k) == row
    ensures RotateLeft(RotateRight(row, k), k) == row
  {
    hide StepLeft, StepRight;
    if k > 0 {
      StepUndone(RotateLeft(row, k - 1));
      RotateUndone(row, k - 1);
      RotateRightInner(RotateLeft(row, k), k);
      RotateLeftInner(RotateRight(row, k), k);
      StepUndone(RotateRight(row, k - 1));
    }
  }

  lemma {:induction false} StepUndone(row: seq<Byte>)
    ensures StepRight(StepLeft(row)) == row && StepLeft(StepRight(row)) == row
  {
  }

  /** The steps of a rotation may be taken from the inside. */
  lemma {:induction false} RotateRightInner(row: seq<Byte>, k: nat)
    requires k > 0
    ensures RotateRight(row, k) == RotateRight(StepRight(row), k - 1)
  {
    if k > 1 {
      RotateRightInner(row, k - 1);
    }
  }

  lemma {:induction false} RotateLeftInner(row: seq<Byte>, k: nat)
    requires k > 0
    ensures RotateLeft(row, k) == RotateLeft(StepLeft(row), k - 1)
  {
    if k > 1 {
      RotateLeftInner(row, k - 1);
    }
  }

  lemma {:induction false} ShiftRowsUndone(s: State)
    ensures InvShiftRows(ShiftRows(s)) == s && ShiftRows(InvShiftRows(s)) == s
  {
    RotateUndone(s.r1, 1);
    RotateUndone(s.r2, 2);
    RotateUndone(s.r3, 3);
  }

  /** Row i of ShiftRows is s'[i, c] = s[i, (c + i) mod Nb], equation 5.3 of FIPS 197. */
  lemma {:induction false} RotateIndex(row: seq<Byte>, k: nat, c: nat)
    requires c < |row|
    ensures RotateLeft(row, k)[c] == row[(c + k) % |row|]
  {
    if k > 0 {
      var n := |row|;
      var next := if c + 1 == n then 0 else c + 1;
      RotateIndex(row, k - 1, next);
      assert (next + (k - 1)) % n == (c + k) % n by {
        if c + 1 == n {
          assert c + k == n + (k - 1);
          ModAddsPeriod(k - 1, n);
        }
      }
    }
  }

  lemma {:induction false} MultiplyColumnsUndone(s: State, nb: nat)
    requires s.Shape(nb)
    ensures MultiplyColumns(INV_MIX, MultiplyColumns(MIX, s, nb), nb) == s
    ensures MultiplyColumns(MIX, MultiplyColumns(INV_MIX, s, nb), nb) == s
  {
    hide Multiply;
    forall c | 0 <= c < nb
      ensures Multiply(INV_MIX, Multiply(MIX, s.Column(nb, c))) == s.Column(nb, c)
      ensures Multiply(MIX, Multiply(INV_MIX, s.Column(nb, c))) == s.Column(nb, c)
    {
      MixUndone(s.Column(nb, c));
    }
    var t, u := MultiplyColumns(MIX, s, nb), MultiplyColumns(INV_MIX, s, nb);
    assert forall c | 0 <= c < nb :: t.Column(nb, c) == Multiply(MIX, s.Column(nb, c));
    assert forall c | 0 <= c < nb :: u.Column(nb, c) == Multiply(INV_MIX, s.Column(nb, c));
  }

  lemma {:induction false} AddRoundKeyUndone(s: State, key: seq<Byte>, nb: nat)
    requires s.Shape(nb) && |key| == 4 * nb
    ensures AddRoundKey(AddRoundKey(s, key, nb), key, nb) == s
  {
    hide Add;
    forall a, k
      ensures Add(Add(a, k), k) == a
    {
      AddLaws(a, k, k);
      AddLaws(k, 0, 0);
      AddLaws(a, 0, 0);
    }
  }

  lemma {:induction false} AddRoundKeyAt(s: State, key: seq<Byte>, nb: nat, i: nat, c: nat)
    requires s.Shape(nb) && |key| == 4 * nb && i < 4 && c < nb
    ensures AddRoundKey(s, key, nb).Row(i)[c] == Add(s.Row(i)[c], key[4 * c + i])
  {
    hide Add;
    var t := AddRoundKey(s, key, nb);
    assert t.r0[c] == Add(s.r0[c], key[4 * c]);
    assert t.r1[c] == Add(s.r1[c], key[4 * c + 1]);
    assert t.r2[c] == Add(s.r2[c], key[4 * c + 2]);
    assert t.r3[c] == Add(s.r3[c], key[4 * c + 3]);
    match i
    case 0 =>
    case 1 =>
    case 2 =>
    case _ =>
  }

  // ---- The cipher and its inverse ----

  /** A schedule of nr + 1 round keys. */
  predicate IsSchedule(w: seq<Byte>, nb: nat, nr: nat) {
    |w| == 4 * nb * (nr + 1)
  }

  function RoundKey(w: seq<Byte>, nb: nat, nr: nat, r: nat): (key: seq<Byte>)
    requires IsSchedule(w, nb, nr) && r <= nr
    ensures |key| == 4 * nb
  {
    RoundKeyBounds(nb, nr, r);
    w[4 * nb * r..4 * nb * r + 4 * nb]
  }

  lemma {:induction false} RoundKeyBounds(nb: nat, nr: nat, r: nat)
    requires r <= nr
    ensures 0 <= 4 * nb * r && 4 * nb * r + 4 * nb <= 4 * nb * (nr + 1)
  {
    assert 4 * nb * (nr + 1) - (4 * nb * r + 4 * nb) == 4 * nb * (nr - r);
  }

  /** The state is loaded and stored column by column: s[i, c] = in[i + 4c]. */
  function Load(input: seq<Byte>, nb: nat): (s: State)
    requires |input| == 4 * nb
    ensures s.Shape(nb)
  {
    State(
      seq(nb, c requires 0 <= c < nb => input[4 * c]),
      seq(nb, c requires 0 <= c < nb => input[4 * c + 1]),
      seq(nb, c requires 0 <= c < nb => input[4 * c + 2]),
      seq(nb, c requires 0 <= c < nb => input[4 * c + 3]))
  }

  function Store(s: State, nb: nat): (output: seq<Byte>)
    requires s.Shape(nb)
    ensures |output| == 4 * nb
  {
    seq(4 * nb, k requires 0 <= k < 4 * nb => s.Row(k % 4)[k / 4])
  }

  /** SubBytes, ShiftRows and MixColumns: a round before its key is added. */
  function Mixed(s: State, nb: nat): (t: State)
    requires s.Shape(nb)
    ensures t.Shape(nb)
  {
    MultiplyColumns(MIX, ShiftRows(SubBytes(s)), nb)
  }

  /** The state after round r, from the state s after the initial key addition. */
  function AfterRound(s: State, w: seq<Byte>, nb: nat, nr: nat, r: nat): (t: State)
    requires s.Shape(nb) && IsSchedule(w, nb, nr) && r <= nr
    ensures t.Shape(nb)
  {
    if r == 0 then s
    else AddRoundKey(Mixed(AfterRound(s, w, nb, nr, r - 1), nb), RoundKey(w, nb, nr, r), nb)
  }

  /** The final round mixes no columns. */
  function FinalRound(s: State, w: seq<Byte>, nb: nat, nr: nat): (t: State)
    requires s.Shape(nb) && IsSchedule(w, nb, nr)
    ensures t.Shape(nb)
  {
    AddRoundKey(ShiftRows(SubBytes(s)), RoundKey(w, nb, nr, nr), nb)
  }

  function Start(input: seq<Byte>, w: seq<Byte>, nb: nat, nr: nat): (s: State)
    requires |input| == 4 * nb && IsSchedule(w, nb, nr)
    ensures s.Shape(nb)
  {
    AddRoundKey(Load(input, nb), RoundKey(w, nb, nr, 0), nb)
  }

  function Cipher(input: seq<Byte>, w: seq<Byte>, nb: nat, nr: nat): (output: seq<Byte>)
    requires nr >= 1 && |input| == 4 * nb && IsSchedule(w, nb, nr)
    ensures |output| == 4 * nb
  {
    Store(FinalRound(AfterRound(Start(input, w, nb, nr), w, nb, nr, nr - 1), w, nb, nr), nb)
  }

  /** InvShiftRows, InvSubBytes and the addition of round key r. */
  function Unkeyed(s: State, w: seq<Byte>, nb: nat, nr: nat, r: nat): (t: State)
    requires s.Shape(nb) && IsSchedule(w, nb, nr) && r <= nr
    ensures t.Shape(nb)
  {
    AddRoundKey(InvSubBytes(InvShiftRows(s)), RoundKey(w, nb, nr, r), nb)
  }

  /** The state of the inverse cipher once it has undone the rounds above r, from the state s. */
  function BackTo(s: State, w: seq<Byte>, nb: nat, nr: nat, r: nat): (t: State)
    requires s.Shape(nb) && IsSchedule(w, nb, nr) && r < nr
    ensures t.Shape(nb)
    decreases nr - r
  {
    if r == nr - 1 then s
    else MultiplyColumns(INV_MIX, Unkeyed(BackTo(s, w, nb, nr, r + 1), w, nb, nr, r + 1), nb)
  }

  function InvCipher(input: seq<Byte>, w: seq<Byte>, nb: nat, nr: nat): (output: seq<Byte>)
    requires nr >= 1 && |input| == 4 * nb && IsSchedule(w, nb, nr)
    ensures |output| == 4 * nb
  {
    var s := AddRoundKey(Load(input, nb), RoundKey(w, nb, nr, nr), nb);
    Store(Unkeyed(BackTo(s, w, nb, nr, 0), w, nb, nr, 0), nb)
  }

  // ---- Decryption undoes encryption, and encryption undoes decryption ----

  lemma {:induction false} StoreAt(s: State, nb: nat, i: nat, c: nat)
    requires s.Shape(nb) && i < 4 && c < nb
    ensures Store(s, nb)[4 * c + i] == s.Row(i)[c]
  {
    DivModUnique(4 * c + i, 4, c, i);
  }

  lemma {:induction false} SameColumns(s: State, t: State, nb: nat)
    requires s.Shape(nb) && t.Shape(nb)
    requires forall c | 0 <= c < nb :: s.Column(nb, c) == t.Column(nb, c)
    ensures s == t
  {
    forall c | 0 <= c < nb
      ensures s.r0[c] == t.r0[c] && s.r1[c] == t.r1[c] && s.r2[c] == t.r2[c] && s.r3[c] == t.r3[c]
    {
      assert s.Column(nb, c) == t.Column(nb, c);
    }
  }

  lemma {:induction false} LoadStore(s: State, nb: nat)
    requires s.Shape(nb)
    ensures Load(Store(s, nb), nb) == s
  {
    hide Store;
    forall c | 0 <= c < nb
      ensures Load(Store(s, nb), nb).Column(nb, c) == s.Column(nb, c)
    {
      StoreAt(s, nb, 0, c);
      StoreAt(s, nb, 1, c);
      StoreAt(s, nb, 2, c);
      StoreAt(s, nb, 3, c);
    }
    SameColumns(Load(Store(s, nb), nb), s, nb);
  }

  lemma {:induction false} StoreLoad(b: seq<Byte>, nb: nat)
    requires |b| == 4 * nb
    ensures Store(Load(b, nb), nb) == b
  {
  }

  /** Undoing the rounds above r of a run of the cipher gives the substituted state of round r. */
  lemma {:induction false} BackToUndoes(s: State, w: seq<Byte>, nb: nat, nr: nat, r: nat)
    requires s.Shape(nb) && IsSchedule(w, nb, nr) && r < nr
    ensures BackTo(ShiftRows(SubBytes(AfterRound(s, w, nb, nr, nr - 1))), w, nb, nr, r) ==
      ShiftRows(SubBytes(AfterRound(s, w, nb, nr, r)))
    decreases nr - r
  {
    hide SubBytes, InvSubBytes, ShiftRows, InvShiftRows, MultiplyColumns, AddRoundKey, RoundKey;
    if r < nr - 1 {
      BackToUndoes(s, w, nb, nr, r + 1);
      var t := AfterRound(s, w, nb, nr, r);
      var u := AfterRound(s, w, nb, nr, r + 1);
      SubShiftUndone(u);
      AddRoundKeyUndone(Mixed(t, nb), RoundKey(w, nb, nr, r + 1), nb);
      MultiplyColumnsUndone(ShiftRows(SubBytes(t)), nb);
    }
  }

  lemma {:induction false} SubShiftUndone(s: State)
    ensures InvSubBytes(InvShiftRows(ShiftRows(SubBytes(s)))) == s
    ensures ShiftRows(SubBytes(InvSubBytes(InvShiftRows(s)))) == s
  {
    ShiftRowsUndone(SubBytes(s));
    SubBytesUndone(s);
    SubBytesUndone(InvShiftRows(s));
    ShiftRowsUndone(s);
  }

  /** Running the rounds forward again retraces the states of the inverse cipher. */
  lemma {:induction false} AfterRoundRedoes(s: State, w: seq<Byte>, nb: nat, nr: nat, r: nat)
    requires s.Shape(nb) && IsSchedule(w, nb, nr) && r < nr
    ensures AfterRound(InvSubBytes(InvShiftRows(BackTo(s, w, nb, nr, 0))), w, nb, nr, r) ==
      InvSubBytes(InvShiftRows(BackTo(s, w, nb, nr, r)))
  {
    hide SubBytes, InvSubBytes, ShiftRows, InvShiftRows, MultiplyColumns, AddRoundKey, RoundKey;
    if r > 0 {
      AfterRoundRedoes(s, w, nb, nr, r - 1);
      var u := BackTo(s, w, nb, nr, r);
      var t := BackTo(s, w, nb, nr, r - 1);
      SubShiftUndone(t);
      MultiplyColumnsUndone(Unkeyed(u, w, nb, nr, r), nb);
      AddRoundKeyUndone(InvSubBytes(InvShiftRows(u)), RoundKey(w, nb, nr, r), nb);
    }
  }

  /** inv_cipher undoes cipher on every block, for every schedule and every number of rounds. */
  lemma {:induction false} InvCipherCipher(input: seq<Byte>, w: seq<Byte>, nb: nat, nr: nat)
    requires nr >= 1 && |input| == 4 * nb && IsSchedule(w, nb, nr)
    ensures InvCipher(Cipher(input, w, nb, nr), w, nb, nr) == input
  {
    hide SubBytes, InvSubBytes, ShiftRows, InvShiftRows, MultiplyColumns, AddRoundKey, RoundKey, Load, Store;
    var s := Start(input, w, nb, nr);
    var last := AfterRound(s, w, nb, nr, nr - 1);
    LoadStore(FinalRound(last, w, nb, nr), nb);
    AddRoundKeyUndone(ShiftRows(SubBytes(last)), RoundKey(w, nb, nr, nr), nb);
    BackToUndoes(s, w, nb, nr, 0);
    SubShiftUndone(s);
    AddRoundKeyUndone(Load(input, nb), RoundKey(w, nb, nr, 0), nb);
    StoreLoad(input, nb);
  }

  /** cipher undoes inv_cipher. */
  lemma {:induction false} CipherInvCipher(input: seq<Byte>, w: seq<Byte>, nb: nat, nr: nat)
    requires nr >= 1 && |input| == 4 * nb && IsSchedule(w, nb, nr)
    ensures Cipher(InvCipher(input, w, nb, nr), w, nb, nr) == input
  {
    hide SubBytes, InvSubBytes, ShiftRows, InvShiftRows, MultiplyColumns, AddRoundKey, RoundKey, Load, Store;
    var s := AddRoundKey(Load(input, nb), RoundKey(w, nb, nr, nr), nb);
    var first := BackTo(s, w, nb, nr, 0);
    LoadStore(Unkeyed(first, w, nb, nr, 0), nb);
    AddRoundKeyUndone(InvSubBytes(InvShiftRows(first)), RoundKey(w, nb, nr, 0), nb);
    AfterRoundRedoes(s, w, nb, nr, nr - 1);
    SubShiftUndone(s);
    AddRoundKeyUndone(Load(input, nb), RoundKey(w, nb, nr, nr), nb);
    StoreLoad(input, nb);
  }
}
