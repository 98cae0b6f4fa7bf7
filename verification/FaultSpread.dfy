/**
 * How a single faulty byte of the state shows in the ciphertext. The fault-injection scripts
 * classify a corrupted ciphertext by the number of bytes in which it differs from the correct
 * one: four for a fault before the last MixColumns, fewer for a later one.
 */
module FaultSpread {
  import opened Arith
  import opened GaloisField
  import opened SBox
  import opened WordRing
  import opened AesSpec

  /** The number of positions in which two blocks differ. */
  function DiffBytes(x: seq<Byte>, y: seq<Byte>): nat
    requires |x| == |y|
  {
    if x == [] then 0
    else (if x[|x| - 1] != y[|x| - 1] then 1 else 0) + DiffBytes(x[..|x| - 1], y[..|x| - 1])
  }

  function DiffPositions(x: seq<Byte>, y: seq<Byte>): set<nat>
    requires |x| == |y|
  {
    set k: nat | k < |x| && x[k] != y[k]
  }

  lemma {:induction false} DiffBytesCounts(x: seq<Byte>, y: seq<Byte>)
    requires |x| == |y|
    ensures DiffBytes(x, y) == |DiffPositions(x, y)|
  {
    if x != [] {
      var n := |x| - 1;
      DiffBytesCounts(x[..n], y[..n]);
      var rest := DiffPositions(x[..n], y[..n]);
      assert DiffPositions(x, y) == if x[n] != y[n] then rest + {n} else rest;
    }
  }

  /** The rest of the cipher, from the state at entry to round r. */
  function Finish(s: State, w: seq<Byte>, nb: nat, nr: nat, r: nat): (output: seq<Byte>)
    requires s.Shape(nb) && IsSchedule(w, nb, nr) && 1 <= r <= nr
    ensures |output| == 4 * nb
    decreases nr - r
  {
    if r == nr then Store(FinalRound(s, w, nb, nr), nb)
    else Finish(AddRoundKey(Mixed(s, nb), RoundKey(w, nb, nr, r), nb), w, nb, nr, r + 1)
  }

  lemma {:induction false} FinishStep(s: State, w: seq<Byte>, nb: nat, nr: nat, r: nat)
    requires s.Shape(nb) && IsSchedule(w, nb, nr) && 1 <= r < nr
    ensures Finish(s, w, nb, nr, r) == Finish(AddRoundKey(Mixed(s, nb), RoundKey(w, nb, nr, r), nb), w, nb, nr, r + 1)
  {
  }

  /** The cipher is its first rounds followed by the rest. */
  lemma {:induction false} CipherFinishes(input: seq<Byte>, w: seq<Byte>, nb: nat, nr: nat, r: nat)
    requires |input| == 4 * nb && IsSchedule(w, nb, nr) && 1 <= r <= nr
    ensures Cipher(input, w, nb, nr) ==
      Finish(AfterRound(Start(input, w, nb, nr), w, nb, nr, r - 1), w, nb, nr, r)
    decreases nr - r
  {
    hide AddRoundKey, Mixed, RoundKey, Start, FinalRound, Store;
    if r < nr {
      CipherFinishes(input, w, nb, nr, r + 1);
    }
  }

  // ---- Where two states differ ----

  predicate Differ(s: State, t: State, nb: nat, i: nat, c: nat)
    requires s.Shape(nb) && t.Shape(nb) && i < 4 && c < nb
  {
    s.Row(i)[c] != t.Row(i)[c]
  }

  /** The states differ in byte (i, c) and nowhere else. */
  ghost predicate OneByte(s: State, t: State, nb: nat, i: nat, c: nat) {
    s.Shape(nb) && t.Shape(nb) && i < 4 && c < nb &&
    forall i', c' | 0 <= i' < 4 && 0 <= c' < nb :: Differ(s, t, nb, i', c') <==> i' == i && c' == c
  }

  /** The states differ in all of column c and nowhere else. */
  ghost predicate OneColumn(s: State, t: State, nb: nat, c: nat) {
    s.Shape(nb) && t.Shape(nb) && c < nb &&
    forall i', c' | 0 <= i' < 4 && 0 <= c' < nb :: Differ(s, t, nb, i', c') <==> c' == c
  }

  /** The column that ShiftRows moves column c of row i to. */
  function Target(nb: nat, i: nat, c: nat): (c': nat)
    requires c < nb
    ensures c' < nb
  {
    (c - i) % nb
  }

  lemma {:induction false} TargetUnique(nb: nat, i: nat, c: nat, c': nat)
    requires c < nb && c' < nb
    ensures (c' + i) % nb == c <==> c' == Target(nb, i, c)
  {
    var q, t := (c - i) / nb, (c - i) % nb;
    assert t + i == nb * -q + c;
    DivModUnique(t + i, nb, -q, c);
    if (c' + i) % nb == c {
      var p := (c' + i) / nb;
      assert c - i == nb * -p + c';
      DivModUnique(c - i, nb, -p, c');
    }
  }

  lemma {:induction false} SubBytesDiffer(s: State, t: State, nb: nat, i: nat, c: nat)
    requires s.Shape(nb) && t.Shape(nb) && i < 4 && c < nb
    ensures Differ(SubBytes(s), SubBytes(t), nb, i, c) <==> Differ(s, t, nb, i, c)
  {
    hide SubByte, InvSubByte, SubBytes, State.Row;
    SubBytesAt(s, nb, i, c);
    SubBytesAt(t, nb, i, c);
    InvSubSub(s.Row(i)[c]);
    InvSubSub(t.Row(i)[c]);
  }

  lemma {:induction false} AddRoundKeyDiffer(s: State, t: State, key: seq<Byte>, nb: nat, i: nat, c: nat)
    requires s.Shape(nb) && t.Shape(nb) && |key| == 4 * nb && i < 4 && c < nb
    ensures Differ(AddRoundKey(s, key, nb), AddRoundKey(t, key, nb), nb, i, c) <==> Differ(s, t, nb, i, c)
  {
    hide Add, AddRoundKey, State.Row;
    AddRoundKeyAt(s, key, nb, i, c);
    AddRoundKeyAt(t, key, nb, i, c);
    AddCancels(s.Row(i)[c], key[4 * c + i]);
    AddCancels(t.Row(i)[c], key[4 * c + i]);
  }

  lemma {:induction false} AddCancels(a: Byte, k: Byte)
    ensures Add(Add(a, k), k) == a
  {
    AddLaws(a, k, k);
    AddLaws(k, 0, 0);
    AddLaws(a, 0, 0);
  }

  lemma {:induction false} ShiftRowsDiffer(s: State, t: State, nb: nat, i: nat, c: nat)
    requires s.Shape(nb) && t.Shape(nb) && i < 4 && c < nb
    ensures Differ(ShiftRows(s), ShiftRows(t), nb, i, c) <==> Differ(s, t, nb, i, (c + i) % nb)
  {
    SmallMod(c, nb);
    RotateIndex(s.Row(i), i, c);
    RotateIndex(t.Row(i), i, c);
  }

  // ---- MixColumns spreads one byte over its column ----

  /** A word with one nonzero coefficient has no zero coefficient after MixColumns. */
  lemma {:induction false} MixUnit(w: Word, i: nat)
    requires i < 4 && w != Word(0, 0, 0, 0)
    requires (i != 0 ==> w.c0 == 0) && (i != 1 ==> w.c1 == 0) && (i != 2 ==> w.c2 == 0) && (i != 3 ==> w.c3 == 0)
    ensures var m := Multiply(MIX, w); m.c0 != 0 && m.c1 != 0 && m.c2 != 0 && m.c3 != 0
  {
    hide Mul;
    var d := if i == 0 then w.c0 else if i == 1 then w.c1 else if i == 2 then w.c2 else w.c3;
    NoZeroDivisors(1, d);
    NoZeroDivisors(2, d);
    NoZeroDivisors(3, d);
    NoZeroDivisors(1, 0);
    NoZeroDivisors(2, 0);
    NoZeroDivisors(3, 0);
    ZeroSums(Mul(1, d), Mul(2, d), Mul(3, d));
  }

  lemma {:induction false} ZeroSums(a: Byte, b: Byte, c: Byte)
    ensures Add(a, 0) == a && Add(0, a) == a && Add(b, 0) == b && Add(0, b) == b
    ensures Add(c, 0) == c && Add(0, c) == c && Add(0, 0) == 0
  {
  }

  /** Two words that differ in one coefficient differ in all four after MixColumns. */
  lemma {:induction false} MixDiffuses(x: Word, y: Word, i: nat)
    requires i < 4
    requires (x.c0 != y.c0 <==> i == 0) && (x.c1 != y.c1 <==> i == 1)
    requires (x.c2 != y.c2 <==> i == 2) && (x.c3 != y.c3 <==> i == 3)
    ensures var p, q := Multiply(MIX, x), Multiply(MIX, y);
      p.c0 != q.c0 && p.c1 != q.c1 && p.c2 != q.c2 && p.c3 != q.c3
  {
    hide Multiply;
    var d := AddWords(x, y);
    AddZero(x.c0, y.c0);
    AddZero(x.c1, y.c1);
    AddZero(x.c2, y.c2);
    AddZero(x.c3, y.c3);
    MixUnit(d, i);
    MultiplyAdd(MIX, x, y);
    var p, q := Multiply(MIX, x), Multiply(MIX, y);
    AddZero(p.c0, q.c0);
    AddZero(p.c1, q.c1);
    AddZero(p.c2, q.c2);
    AddZero(p.c3, q.c3);
  }

  lemma {:induction false} AddZero(a: Byte, b: Byte)
    ensures Add(a, b) == 0 <==> a == b
  {
  }

  lemma {:induction false} MultiplyColumnsAt(s: State, nb: nat, c: nat)
    requires s.Shape(nb) && c < nb
    ensures MultiplyColumns(MIX, s, nb).Column(nb, c) == Multiply(MIX, s.Column(nb, c))
  {
    hide Multiply;
  }

  lemma {:induction false} MixDiffer(s: State, t: State, nb: nat, i: nat, c: nat)
    requires OneByte(s, t, nb, i, c)
    ensures OneColumn(MultiplyColumns(MIX, s, nb), MultiplyColumns(MIX, t, nb), nb, c)
  {
    hide MultiplyColumns, Multiply;
    var s', t' := MultiplyColumns(MIX, s, nb), MultiplyColumns(MIX, t, nb);
    forall i', c' | 0 <= i' < 4 && 0 <= c' < nb
      ensures Differ(s', t', nb, i', c') <==> c' == c
    {
      MultiplyColumnsAt(s, nb, c');
      MultiplyColumnsAt(t, nb, c');
      assert Differ(s, t, nb, 0, c') <==> i == 0 && c' == c;
      assert Differ(s, t, nb, 1, c') <==> i == 1 && c' == c;
      assert Differ(s, t, nb, 2, c') <==> i == 2 && c' == c;
      assert Differ(s, t, nb, 3, c') <==> i == 3 && c' == c;
      if c' == c {
        MixDiffuses(s.Column(nb, c), t.Column(nb, c), i);
      } else {
        assert s.Column(nb, c') == t.Column(nb, c');
      }
    }
  }

  // ---- Whole rounds ----

  /** A round moves one faulty byte to one faulty column. */
  lemma {:induction false} RoundDiffer(s: State, t: State, key: seq<Byte>, nb: nat, i: nat, c: nat)
    requires OneByte(s, t, nb, i, c) && |key| == 4 * nb
    ensures OneColumn(AddRoundKey(Mixed(s, nb), key, nb), AddRoundKey(Mixed(t, nb), key, nb), nb, Target(nb, i, c))
  {
    hide AddRoundKey, MultiplyColumns, ShiftRows, SubBytes, Differ, Target;
    var s', t' := ShiftRows(SubBytes(s)), ShiftRows(SubBytes(t));
    forall i', c' | 0 <= i' < 4 && 0 <= c' < nb
      ensures Differ(s', t', nb, i', c') <==> i' == i && c' == Target(nb, i, c)
    {
      ShiftRowsDiffer(SubBytes(s), SubBytes(t), nb, i', c');
      SubBytesDiffer(s, t, nb, i', (c' + i') % nb);
      TargetUnique(nb, i, c, c');
    }
    MixDiffer(s', t', nb, i, Target(nb, i, c));
    forall i', c' | 0 <= i' < 4 && 0 <= c' < nb {
      AddRoundKeyDiffer(Mixed(s, nb), Mixed(t, nb), key, nb, i', c');
    }
  }

  /** The output bytes in which the final round of two states differs. */
  lemma {:induction false} FinalDiffer(s: State, t: State, w: seq<Byte>, nb: nat, nr: nat, i: nat, c: nat)
    requires s.Shape(nb) && t.Shape(nb) && IsSchedule(w, nb, nr) && nr >= 1 && i < 4 && c < nb
    ensures Finish(s, w, nb, nr, nr)[4 * c + i] != Finish(t, w, nb, nr, nr)[4 * c + i] <==>
      Differ(s, t, nb, i, (c + i) % nb)
  {
    hide AddRoundKey, ShiftRows, SubBytes, RoundKey, Store, State.Row;
    StoreAt(FinalRound(s, w, nb, nr), nb, i, c);
    StoreAt(FinalRound(t, w, nb, nr), nb, i, c);
    AddRoundKeyDiffer(ShiftRows(SubBytes(s)), ShiftRows(SubBytes(t)), RoundKey(w, nb, nr, nr), nb, i, c);
    ShiftRowsDiffer(SubBytes(s), SubBytes(t), nb, i, c);
    SubBytesDiffer(s, t, nb, i, (c + i) % nb);
  }

  /** A byte changed at entry to the final round changes exactly one byte of the ciphertext. */
  lemma {:induction false} LateFault(s: State, t: State, w: seq<Byte>, nb: nat, nr: nat, i: nat, c: nat)
    requires OneByte(s, t, nb, i, c) && IsSchedule(w, nb, nr) && nr >= 1
    ensures DiffBytes(Finish(s, w, nb, nr, nr), Finish(t, w, nb, nr, nr)) == 1
  {
    hide Finish, Differ;
    var x, y := Finish(s, w, nb, nr, nr), Finish(t, w, nb, nr, nr);
    var hit := 4 * Target(nb, i, c) + i;
    forall k: nat | k < 4 * nb
      ensures x[k] != y[k] <==> k == hit
    {
      FinalDiffer(s, t, w, nb, nr, k % 4, k / 4);
      TargetUnique(nb, i, c, k / 4);
    }
    assert DiffPositions(x, y) == {hit};
    DiffBytesCounts(x, y);
  }

  /** A byte changed at entry to round Nr - 1 changes exactly four bytes of the ciphertext. */
  lemma {:induction false} FaultBeforeLastMix(s: State, t: State, w: seq<Byte>, nb: nat, nr: nat, i: nat, c: nat)
    requires OneByte(s, t, nb, i, c) && IsSchedule(w, nb, nr) && nr >= 2
    ensures DiffBytes(Finish(s, w, nb, nr, nr - 1), Finish(t, w, nb, nr, nr - 1)) == 4
  {
    hide AddRoundKey, Mixed, RoundKey, Differ, Target, Finish;
    FinishStep(s, w, nb, nr, nr - 1);
    FinishStep(t, w, nb, nr, nr - 1);
    var key := RoundKey(w, nb, nr, nr - 1);
    var s', t' := AddRoundKey(Mixed(s, nb), key, nb), AddRoundKey(Mixed(t, nb), key, nb);
    RoundDiffer(s, t, key, nb, i, c);
    ColumnFault(s', t', w, nb, nr, Target(nb, i, c));
  }

  lemma {:induction false} ColumnFault(s: State, t: State, w: seq<Byte>, nb: nat, nr: nat, c: nat)
    requires OneColumn(s, t, nb, c) && IsSchedule(w, nb, nr) && nr >= 1
    ensures DiffBytes(Finish(s, w, nb, nr, nr), Finish(t, w, nb, nr, nr)) == 4
  {
    hide Finish, Differ, Target;
    var x, y := Finish(s, w, nb, nr, nr), Finish(t, w, nb, nr, nr);
    var t0, t1, t2, t3 := Target(nb, 0, c), Target(nb, 1, c), Target(nb, 2, c), Target(nb, 3, c);
    forall k: nat | k < 4 * nb
      ensures x[k] != y[k] <==> k in {4 * t0, 4 * t1 + 1, 4 * t2 + 2, 4 * t3 + 3}
    {
      var i, c' := k % 4, k / 4;
      FinalDiffer(s, t, w, nb, nr, i, c');
      TargetUnique(nb, i, c, c');
      assert k == 4 * c' + i;
    }
    assert DiffPositions(x, y) == {4 * t0, 4 * t1 + 1, 4 * t2 + 2, 4 * t3 + 3};
    FourRows(t0, t1, t2, t3);
    DiffBytesCounts(x, y);
  }

  lemma {:induction false} FourRows(t0: nat, t1: nat, t2: nat, t3: nat)
    ensures |{4 * t0, 4 * t1 + 1, 4 * t2 + 2, 4 * t3 + 3}| == 4
  {
  }

  /** With four columns, ShiftRows moves the bytes of one column to four different columns. */
  lemma {:induction false} ColumnScatters(s: State, t: State, c: nat, i: nat, c': nat)
    requires OneColumn(s, t, 4, c) && i < 4 && c' < 4
    ensures Differ(ShiftRows(SubBytes(s)), ShiftRows(SubBytes(t)), 4, i, c') <==> i == (c - c') % 4
  {
    hide ShiftRows, SubBytes, Differ;
    ShiftRowsDiffer(SubBytes(s), SubBytes(t), 4, i, c');
    SubBytesDiffer(s, t, 4, i, (c' + i) % 4);
  }

  lemma {:induction false} ColumnDiffuses(s: State, t: State, key: seq<Byte>, c: nat, i': nat, c': nat)
    requires OneColumn(s, t, 4, c) && |key| == 16 && i' < 4 && c' < 4
    ensures Differ(AddRoundKey(Mixed(s, 4), key, 4), AddRoundKey(Mixed(t, 4), key, 4), 4, i', c')
  {
    hide AddRoundKey, MultiplyColumns, ShiftRows, SubBytes, Multiply;
    var s', t' := ShiftRows(SubBytes(s)), ShiftRows(SubBytes(t));
    MultiplyColumnsAt(s', 4, c');
    MultiplyColumnsAt(t', 4, c');
    ColumnScatters(s, t, c, 0, c');
    ColumnScatters(s, t, c, 1, c');
    ColumnScatters(s, t, c, 2, c');
    ColumnScatters(s, t, c, 3, c');
    MixDiffuses(s'.Column(4, c'), t'.Column(4, c'), (c - c') % 4);
    AddRoundKeyDiffer(Mixed(s, 4), Mixed(t, 4), key, 4, i', c');
  }

  /** With four columns, a byte changed at entry to round Nr - 2 changes all sixteen bytes. */
  lemma {:induction false} EarlyFault(s: State, t: State, w: seq<Byte>, nr: nat, i: nat, c: nat)
    requires OneByte(s, t, 4, i, c) && IsSchedule(w, 4, nr) && nr >= 3
    ensures DiffBytes(Finish(s, w, 4, nr, nr - 2), Finish(t, w, 4, nr, nr - 2)) == 16
  {
    hide AddRoundKey, Mixed, RoundKey, Differ, Target, Finish;
    var key, key' := RoundKey(w, 4, nr, nr - 2), RoundKey(w, 4, nr, nr - 1);
    var s', t' := AddRoundKey(Mixed(s, 4), key, 4), AddRoundKey(Mixed(t, 4), key, 4);
    var s'', t'' := AddRoundKey(Mixed(s', 4), key', 4), AddRoundKey(Mixed(t', 4), key', 4);
    RoundDiffer(s, t, key, 4, i, c);
    var x, y := Finish(s'', w, 4, nr, nr), Finish(t'', w, 4, nr, nr);
    FinishStep(s, w, 4, nr, nr - 2);
    FinishStep(s', w, 4, nr, nr - 1);
    FinishStep(t, w, 4, nr, nr - 2);
    FinishStep(t', w, 4, nr, nr - 1);
    forall k: nat | k < 16
      ensures x[k] != y[k]
    {
      FinalDiffer(s'', t'', w, 4, nr, k % 4, k / 4);
      ColumnDiffuses(s', t', key', Target(4, i, c), k % 4, (k / 4 + k % 4) % 4);
    }
    AllDiffer(x, y);
  }

  lemma {:induction false} AllDiffer(x: seq<Byte>, y: seq<Byte>)
    requires |x| == |y| && forall k | 0 <= k < |x| :: x[k] != y[k]
    ensures DiffBytes(x, y) == |x|
  {
    if x != [] {
      AllDiffer(x[..|x| - 1], y[..|x| - 1]);
    }
  }
}
