/**
 * The cipher as it is coded: byte arrays changed in place by nested loops, a state stored row
 * after row, and a global round-constant buffer that every call overwrites.
 */
module AesCode {
  import opened Arith
  import opened Grid
  import opened GaloisField
  import opened SBox
  import opened WordRing
  import opened AesSpec
  import opened KeySchedule

  /** The rows held in an array of 4 Nb bytes, row i at index Nb i. */
  function StateOf(a: seq<Byte>, nb: nat): (s: State)
    requires |a| == 4 * nb
    ensures s.Shape(nb)
  {
    State(a[..nb], a[nb..2 * nb], a[2 * nb..3 * nb], a[3 * nb..])
  }

  /** The words held in an array of bytes, four to a word. */
  function WordsOf(a: seq<Byte>, n: nat): (ws: seq<Word>)
    requires 4 * n <= |a|
    ensures |ws| == n
  {
    seq(n, i requires 0 <= i < n => Word(a[4 * i], a[4 * i + 1], a[4 * i + 2], a[4 * i + 3]))
  }

  function Flatten(s: State, nb: nat): (a: seq<Byte>)
    requires s.Shape(nb)
    ensures |a| == 4 * nb
  {
    s.r0 + s.r1 + s.r2 + s.r3
  }

  lemma {:induction false} FlattenInverse(s: State, nb: nat)
    requires s.Shape(nb)
    ensures StateOf(Flatten(s, nb), nb) == s
  {
  }

  lemma {:induction false} FlattenAt(s: State, nb: nat, c: nat)
    requires s.Shape(nb) && c < nb
    ensures var a := Flatten(s, nb);
      a[c] == s.r0[c] && a[nb + c] == s.r1[c] && a[2 * nb + c] == s.r2[c] && a[3 * nb + c] == s.r3[c]
  {
  }

  lemma {:induction false} StateOfAt(a: seq<Byte>, nb: nat, c: nat)
    requires |a| == 4 * nb && c < nb
    ensures StateOf(a, nb).Column(nb, c) == Word(a[c], a[nb + c], a[2 * nb + c], a[3 * nb + c])
  {
  }

  lemma {:induction false} KeyedColumn(s: seq<Byte>, key: seq<Byte>, nb: nat, c: nat)
    requires |s| == |key| == 4 * nb && c < nb
    ensures var b := Flatten(AddRoundKey(StateOf(s, nb), key, nb), nb);
      && b[c] == Add(s[c], key[4 * c])
      && b[nb + c] == Add(s[nb + c], key[4 * c + 1])
      && b[2 * nb + c] == Add(s[2 * nb + c], key[4 * c + 2])
      && b[3 * nb + c] == Add(s[3 * nb + c], key[4 * c + 3])
  {
    hide Add, StateOf, Flatten;
    FlattenAt(AddRoundKey(StateOf(s, nb), key, nb), nb, c);
    StateOfAt(s, nb, c);
  }

  /** Column c of the state has had bytes base + 4c to base + 4c + 3 of the schedule added to it. */
  ghost predicate ColumnKeyed(after: seq<Byte>, before: seq<Byte>, w: seq<Byte>, nb: nat, base: int, c: nat)
    requires |after| == |before| == 4 * nb && c < nb
  {
    && 0 <= base && base + 4 * nb <= |w|
    && after[nb * 0 + c] == Add(before[nb * 0 + c], w[base + 4 * c + 0])
    && after[nb * 1 + c] == Add(before[nb * 1 + c], w[base + 4 * c + 1])
    && after[nb * 2 + c] == Add(before[nb * 2 + c], w[base + 4 * c + 2])
    && after[nb * 3 + c] == Add(before[nb * 3 + c], w[base + 4 * c + 3])
  }

  lemma {:induction false} MixedColumn(m: Word, s: seq<Byte>, nb: nat, c: nat)
    requires |s| == 4 * nb && c < nb
    ensures var b := Flatten(MultiplyColumns(m, StateOf(s, nb), nb), nb);
      Word(b[c], b[nb + c], b[2 * nb + c], b[3 * nb + c]) ==
      Multiply(m, Word(s[c], s[nb + c], s[2 * nb + c], s[3 * nb + c]))
  {
    hide Multiply, StateOf, Flatten;
    FlattenAt(MultiplyColumns(m, StateOf(s, nb), nb), nb, c);
    StateOfAt(s, nb, c);
  }

  lemma {:induction false} RowBounds(nb: nat, i: nat)
    requires i < 4
    ensures nb * (i + 1) == nb * i + nb <= 4 * nb
  {
  }

  lemma {:induction false} MapPrefixState(f: Byte -> Byte, s: seq<Byte>, nb: nat)
    requires |s| == 4 * nb
    ensures StateOf(MapPrefix(f, s, nb * 4), nb) == MapState(f, StateOf(s, nb))
  {
  }

  /** Rows below i rotated by their index, row i by k, the rows above not yet. */
  function Turns(row: nat, i: nat, k: nat): nat {
    if i > row then row else if i == row then k else 0
  }

  function LeftProgress(s: State, i: nat, k: nat): State {
    State(s.r0, RotateLeft(s.r1, Turns(1, i, k)), RotateLeft(s.r2, Turns(2, i, k)), RotateLeft(s.r3, Turns(3, i, k)))
  }

  function RightProgress(s: State, i: nat, k: nat): State {
    State(s.r0, RotateRight(s.r1, Turns(1, i, k)), RotateRight(s.r2, Turns(2, i, k)), RotateRight(s.r3, Turns(3, i, k)))
  }

  function SetRow(s: State, i: nat, row: seq<Byte>): State
    requires i < 4
  {
    match i case 0 => s.(r0 := row) case 1 => s.(r1 := row) case 2 => s.(r2 := row) case _ => s.(r3 := row)
  }

  /** A row replaced in the array is a row replaced in the state. */
  lemma {:induction false} PutRowState(a: seq<Byte>, nb: nat, i: nat, base: nat, row: seq<Byte>)
    requires |a| == 4 * nb && i < 4 && |row| == nb
    requires base == if i == 0 then 0 else if i == 1 then nb else if i == 2 then 2 * nb else 3 * nb
    ensures StateOf(PutRow(a, base, row), nb) == SetRow(StateOf(a, nb), i, row)
    ensures a[base..base + nb] == StateOf(a, nb).Row(i)
  {
    hide PutRow;
    var b := PutRow(a, base, row);
    PutRowSlice(a, base, row, 0, nb);
    PutRowSlice(a, base, row, nb, 2 * nb);
    PutRowSlice(a, base, row, 2 * nb, 3 * nb);
    PutRowSlice(a, base, row, 3 * nb, 4 * nb);
    assert b[..nb] == b[0..nb] && a[..nb] == a[0..nb] && b[3 * nb..] == b[3 * nb..4 * nb] && a[3 * nb..] == a[3 * nb..4 * nb];
  }

  lemma {:induction false} LeftProgressSteps(s: State, i: nat, k: nat)
    ensures LeftProgress(s, 1, 0) == s && LeftProgress(s, 4, 0) == ShiftRows(s)
    ensures LeftProgress(s, i, i) == LeftProgress(s, i + 1, 0)
    ensures 1 <= i < 4 ==> SetRow(LeftProgress(s, i, k), i, StepLeft(LeftProgress(s, i, k).Row(i))) == LeftProgress(s, i, k + 1)
  {
  }

  lemma {:induction false} RightProgressSteps(s: State, i: nat, k: nat)
    ensures RightProgress(s, 1, 0) == s && RightProgress(s, 4, 0) == InvShiftRows(s)
    ensures RightProgress(s, i, i) == RightProgress(s, i + 1, 0)
    ensures 1 <= i < 4 ==> SetRow(RightProgress(s, i, k), i, StepRight(RightProgress(s, i, k).Row(i))) == RightProgress(s, i, k + 1)
  {
  }

  lemma {:induction false} StepLeftState(a: seq<Byte>, nb: nat, i: nat)
    requires |a| == 4 * nb && i < 4 && nb * i + nb <= 4 * nb
    ensures StateOf(PutRow(a, nb * i, StepLeft(a[nb * i..nb * i + nb])), nb) ==
      SetRow(StateOf(a, nb), i, StepLeft(StateOf(a, nb).Row(i)))
  {
    hide StateOf, PutRow;
    PutRowState(a, nb, i, nb * i, StepLeft(a[nb * i..nb * i + nb]));
  }

  lemma {:induction false} StepRightState(a: seq<Byte>, nb: nat, i: nat)
    requires |a| == 4 * nb && i < 4 && nb * i + nb <= 4 * nb
    ensures StateOf(PutRow(a, nb * i, StepRight(a[nb * i..nb * i + nb])), nb) ==
      SetRow(StateOf(a, nb), i, StepRight(StateOf(a, nb).Row(i)))
  {
    hide StateOf, PutRow;
    PutRowState(a, nb, i, nb * i, StepRight(a[nb * i..nb * i + nb]));
  }

  /** Row i of the loaded state, at its place in the array. */
  lemma {:induction false} LoadedAt(input: seq<Byte>, nb: nat, i: nat, c: nat)
    requires |input| == 4 * nb && i < 4 && c < nb && nb * i + nb <= 4 * nb
    ensures Flatten(Load(input, nb), nb)[nb * i + c] == input[i + 4 * c]
  {
    hide Flatten;
    FlattenAt(Load(input, nb), nb, c);
    match i
    case 0 =>
    case 1 =>
    case 2 =>
    case _ =>
  }

  lemma {:induction false} StoreIsTransposed(a: seq<Byte>, nb: nat)
    requires |a| == 4 * nb
    ensures Store(StateOf(a, nb), nb) == Transposed(a, nb)
  {
    hide StateOf;
    forall k | 0 <= k < 4 * nb
      ensures StateOf(a, nb).Row(k % 4)[k / 4] == At(a, nb, k % 4, k / 4)
    {
      StateOfAt(a, nb, k / 4);
    }
  }

  class Aes {
    /** Columns of the state, words of the key, rounds. */
    var nb: nat
    var nk: nat
    var nr: nat
    /** The buffer that Rcon fills and returns. */
    const R: array<Byte>

    ghost predicate Valid()
      reads this
    {
      1 <= nb <= 255 && R.Length == 4
    }

    constructor (nk: nat, nr: nat)
      ensures Valid() && this.nb == 4 && this.nk == nk && this.nr == nr
      ensures fresh(R) && R[..] == [2, 0, 0, 0]
    {
      this.nb := 4;
      this.nk := nk;
      this.nr := nr;
      R := new Byte[4] [2, 0, 0, 0];
    }

    /** Leaves x^(i-1) in the buffer, whatever it held; the counter is eight bits wide. */
    method Rcon(i0: nat)
      requires Valid() && i0 <= 255
      modifies R
      ensures i0 >= 1 ==> R[0] == PowerOfX(i0 - 1)
      ensures i0 == 0 ==> R[0] == old(R[0])
      ensures R[1..] == old(R[1..])
    {
      if i0 == 1 {
        R[0] := 1;
      } else if i0 > 1 {
        R[0] := 2;
        var i := i0 - 1;
        FirstPower();
        while i - 1 > 0
          invariant 1 <= i < i0
          invariant R[0] == PowerOfX(i0 - i)
          invariant R[1..] == old(R[1..])
        {
          var r := Gmult(R[0], 2);
          R[0] := r;
          i := i - 1;
        }
      }
    }

    lemma {:induction false} FirstPower()
      ensures PowerOfX(1) == 2
    {
      MulOneLeft(2);
    }

    method AddRoundKeyInPlace(state: array<Byte>, w: array<Byte>, r: nat)
      requires Valid() && state != w && state.Length == 4 * nb
      requires IsSchedule(w[..], nb, nr) && r <= nr
      modifies state
      ensures StateOf(state[..], nb) ==
        AddRoundKey(old(StateOf(state[..], nb)), RoundKey(w[..], nb, nr, r), nb)
      ensures forall c | 0 <= c < nb :: ColumnKeyed(state[..], old(state[..]), w[..], nb, 4 * nb * r, c)
    {
      hide Add, AddRoundKey, StateOf, Flatten, Blend, SetColumn;
      RoundKeyBounds(nb, nr, r);
      var n, base := nb, 4 * nb * r;
      ghost var s := state[..];
      ghost var key := RoundKey(w[..], n, nr, r);
      ghost var b := Flatten(AddRoundKey(StateOf(s, n), key, n), n);
      BlendEnds(b, s, n);
      for c := 0 to n
        invariant state[..] == Blend(b, s, n, c)
      {
        BlendAt(b, s, n, c);
        BlendStep(b, s, n, c);
        KeyedColumn(s, key, n, c);
        PutColumn(state, n, c, Add(state[c], w[base + 4 * c]), Add(state[n + c], w[base + 4 * c + 1]),
          Add(state[2 * n + c], w[base + 4 * c + 2]), Add(state[3 * n + c], w[base + 4 * c + 3]));
      }
      FlattenInverse(AddRoundKey(StateOf(s, n), key, n), n);
      forall c | 0 <= c < n
        ensures ColumnKeyed(state[..], s, w[..], n, base, c)
      {
        KeyedColumn(s, key, n, c);
      }
    }

    /** The body of the column loop of mix_columns: gather, multiply, scatter. */
    method MultiplyColumnInPlace(state: array<Byte>, a: array<Byte>, n: nat, j: nat)
      requires state.Length == 4 * n && j < n && a.Length == 4 && a != state
      modifies state
      ensures var s := old(state[..]);
        var r := Multiply(WordAt(a, 0), Word(s[j], s[n + j], s[2 * n + j], s[3 * n + j]));
        state[..] == SetColumn(s, n, j, r.c0, r.c1, r.c2, r.c3)
    {
      hide Multiply, SetColumn;
      var col, res := new Byte[4], new Byte[4];
      col[0], col[1], col[2], col[3] := state[j], state[n + j], state[2 * n + j], state[3 * n + j];
      CoefMult(a, col, res);
      PutColumn(state, n, j, res[0], res[1], res[2], res[3]);
    }

    /** The loops of mix_columns and inv_mix_columns, which differ only in the polynomial. */
    method MultiplyColumnsInPlace(state: array<Byte>, m: Word)
      requires Valid() && state.Length == 4 * nb
      modifies state
      ensures StateOf(state[..], nb) == MultiplyColumns(m, old(StateOf(state[..], nb)), nb)
    {
      hide Multiply, MultiplyColumns, StateOf, Flatten, Blend, SetColumn;
      var n := nb;
      var a := new Byte[4] [m.c0, m.c1, m.c2, m.c3];
      ghost var s := state[..];
      ghost var b := Flatten(MultiplyColumns(m, StateOf(s, n), n), n);
      BlendEnds(b, s, n);
      for j := 0 to n
        invariant state[..] == Blend(b, s, n, j)
        invariant WordAt(a, 0) == m
      {
        BlendAt(b, s, n, j);
        BlendStep(b, s, n, j);
        MixedColumn(m, s, n, j);
        MultiplyColumnInPlace(state, a, n, j);
      }
      FlattenInverse(MultiplyColumns(m, StateOf(s, n), n), n);
    }

    method MixColumns(state: array<Byte>)
      requires Valid() && state.Length == 4 * nb
      modifies state
      ensures StateOf(state[..], nb) == MultiplyColumns(MIX, old(StateOf(state[..], nb)), nb)
    {
      MultiplyColumnsInPlace(state, Word(0x02, 0x01, 0x01, 0x03));
    }

    method InvMixColumns(state: array<Byte>)
      requires Valid() && state.Length == 4 * nb
      modifies state
      ensures StateOf(state[..], nb) == MultiplyColumns(INV_MIX, old(StateOf(state[..], nb)), nb)
    {
      MultiplyColumnsInPlace(state, Word(0x0e, 0x09, 0x0d, 0x0b));
    }

    /** The doubly nested loop of sub_bytes, with the table lookup of the given function. */
    method SubstituteInPlace(state: array<Byte>, f: Byte -> Byte)
      requires Valid() && state.Length == 4 * nb
      modifies state
      ensures StateOf(state[..], nb) == MapState(f, old(StateOf(state[..], nb)))
    {
      hide StateOf, MapPrefix;
      var n := nb;
      ghost var s := state[..];
      MapPrefixEnds(f, s);
      for i := 0 to 4
        invariant state[..] == MapPrefix(f, s, n * i)
      {
        RowBounds(n, i);
        for j := 0 to n
          invariant state[..] == MapPrefix(f, s, n * i + j)
        {
          MapPrefixStep(f, s, n * i + j);
          state[n * i + j] := f(state[n * i + j]);
        }
      }
      MapPrefixState(f, s, n);
    }

    method SubBytesInPlace(state: array<Byte>)
      requires Valid() && state.Length == 4 * nb
      modifies state
      ensures StateOf(state[..], nb) == SubBytes(old(StateOf(state[..], nb)))
    {
      hide SubByte;
      SubstituteInPlace(state, SubByte);
    }

    method InvSubBytesInPlace(state: array<Byte>)
      requires Valid() && state.Length == 4 * nb
      modifies state
      ensures StateOf(state[..], nb) == InvSubBytes(old(StateOf(state[..], nb)))
    {
      hide InvSubByte;
      SubstituteInPlace(state, InvSubByte);
    }

    /** One cyclic step of row i: the inner loop of shift_rows. */
    method StepLeftInPlace(state: array<Byte>, i: nat)
      requires Valid() && state.Length == 4 * nb && i < 4
      modifies state
      ensures StateOf(state[..], nb) == old(SetRow(StateOf(state[..], nb), i, StepLeft(StateOf(state[..], nb).Row(i))))
    {
      hide StateOf, PutRow, SetRow, State.Row, StepLeft;
      RowBounds(nb, i);
      StepLeftState(state[..], nb, i);
      StepRowLeft(state, nb * i, nb);
    }

    method ShiftRowsInPlace(state: array<Byte>)
      requires Valid() && state.Length == 4 * nb
      modifies state
      ensures StateOf(state[..], nb) == ShiftRows(old(StateOf(state[..], nb)))
    {
      hide StateOf, LeftProgress, SetRow, State.Row, ShiftRows;
      ghost var t := StateOf(state[..], nb);
      LeftProgressSteps(t, 1, 0);
      for i := 1 to 4
        invariant StateOf(state[..], nb) == LeftProgress(t, i, 0)
      {
        var s := 0;
        while s < i
          invariant 0 <= s <= i
          invariant StateOf(state[..], nb) == LeftProgress(t, i, s)
        {
          LeftProgressSteps(t, i, s);
          StepLeftInPlace(state, i);
          s := s + 1;
        }
        LeftProgressSteps(t, i, s);
      }
    }

    /** One cyclic step of row i: the inner loop of inv_shift_rows. */
    method StepRightInPlace(state: array<Byte>, i: nat)
      requires Valid() && state.Length == 4 * nb && i < 4
      modifies state
      ensures StateOf(state[..], nb) == old(SetRow(StateOf(state[..], nb), i, StepRight(StateOf(state[..], nb).Row(i))))
    {
      hide StateOf, PutRow, SetRow, State.Row, StepRight;
      RowBounds(nb, i);
      StepRightState(state[..], nb, i);
      StepRowRight(state, nb * i, nb);
    }

    method InvShiftRowsInPlace(state: array<Byte>)
      requires Valid() && state.Length == 4 * nb
      modifies state
      ensures StateOf(state[..], nb) == InvShiftRows(old(StateOf(state[..], nb)))
    {
      hide StateOf, RightProgress, SetRow, State.Row, InvShiftRows;
      ghost var t := StateOf(state[..], nb);
      RightProgressSteps(t, 1, 0);
      for i := 1 to 4
        invariant StateOf(state[..], nb) == RightProgress(t, i, 0)
      {
        var s := 0;
        while s < i
          invariant 0 <= s <= i
          invariant StateOf(state[..], nb) == RightProgress(t, i, s)
        {
          RightProgressSteps(t, i, s);
          StepRightInPlace(state, i);
          s := s + 1;
        }
        RightProgressSteps(t, i, s);
      }
    }

    method SubWordInPlace(w: array<Byte>)
      requires w.Length == 4
      modifies w
      ensures WordAt(w, 0) == old(SubWord(WordAt(w, 0)))
    {
      hide SubByte;
      ghost var s := w[..];
      for i := 0 to 4
        invariant forall k | 0 <= k < i :: w[k] == SubByte(s[k])
        invariant forall k | i <= k < 4 :: w[k] == s[k]
      {
        w[i] := SubByte(w[i]);
      }
    }

    method RotWordInPlace(w: array<Byte>)
      requires w.Length == 4
      modifies w
      ensures WordAt(w, 0) == old(RotWord(WordAt(w, 0)))
    {
      ghost var s := w[..];
      var tmp := w[0];
      for i := 0 to 3
        invariant forall k | 0 <= k < i :: w[k] == s[k + 1]
        invariant forall k | i <= k < 4 :: w[k] == s[k]
      {
        w[i] := w[i + 1];
      }
      w[3] := tmp;
    }

    /** The number of schedule words, held in eight bits. */
    function ScheduleLength(): (len: nat)
      reads this
    {
      nb * (nr + 1) % 256
    }

    /** The first n words are those of the schedule of the key. */
    ghost predicate Expanded(ws: seq<Word>, key: seq<Word>, n: nat)
      requires |key| >= 1 && n <= |ws|
    {
      forall i | 0 <= i < n :: ws[i] == ScheduleWord(key, i)
    }

    method LoadWord(w: array<Byte>, i: nat) returns (x: Word)
      requires 4 * i + 4 <= w.Length
      ensures x == WordsOf(w[..], w.Length / 4)[i]
    {
      x := Word(w[4 * i + 0], w[4 * i + 1], w[4 * i + 2], w[4 * i + 3]);
    }

    method StoreWord(w: array<Byte>, i: nat, x: Word)
      requires 4 * i + 4 <= w.Length
      modifies w
      ensures WordsOf(w[..], w.Length / 4) == old(WordsOf(w[..], w.Length / 4))[i := x]
    {
      w[4 * i + 0] := x.c0;
      w[4 * i + 1] := x.c1;
      w[4 * i + 2] := x.c2;
      w[4 * i + 3] := x.c3;
    }

    /** The branches on i mod Nk: tmp becomes what is added to word i - Nk. */
    method TempInPlace(tmp: array<Byte>, i: nat)
      requires Valid() && 1 <= nk <= i <= 255 && tmp.Length == 4 && tmp != R
      requires R[1..] == [0, 0, 0]
      modifies tmp, R
      ensures WordAt(tmp, 0) == Temp(nk, i, old(WordAt(tmp, 0)))
      ensures R[1..] == [0, 0, 0]
    {
      hide SubByte, Add, PowerOfX;
      if i % nk == 0 {
        QuotientPositive(i, nk);
        RotWordInPlace(tmp);
        SubWordInPlace(tmp);
        Rcon(i / nk);
        assert R[1..][0] == 0 && R[1..][1] == 0 && R[1..][2] == 0;
        CoefAdd(tmp, R, tmp);
      } else if nk > 6 && i % nk == 4 {
        SubWordInPlace(tmp);
      }
    }

    /** Expands a key of Nk words to the schedule. */
    method KeyExpansion(key: array<Byte>, w: array<Byte>)
      requires Valid() && 1 <= nk <= 255 && key.Length == 4 * nk
      requires w != key && w != R && key != R
      requires 4 * nk <= w.Length && 4 * ScheduleLength() <= w.Length
      requires R[1..] == [0, 0, 0]
      modifies w, R
      ensures Expanded(WordsOf(w[..], w.Length / 4), WordsOf(key[..], nk), ScheduleLength())
      ensures WordsOf(w[..], w.Length / 4)[..nk] == WordsOf(key[..], nk)
      ensures forall i, j | nk <= i < ScheduleLength() && 0 <= j < 4 :: Recurs(WordsOf(w[..], w.Length / 4), nk, i, j)
      ensures R[1..] == [0, 0, 0]
    {
      hide Temp, AddWords, WordsOf, Recurs;
      var len, n, m := ScheduleLength(), nk, w.Length / 4;
      ghost var words := WordsOf(key[..], n);
      for i := 0 to n
        invariant R[1..] == [0, 0, 0] && key[..] == old(key[..])
        invariant forall j | 0 <= j < i :: WordsOf(w[..], m)[j] == words[j]
      {
        var x := LoadWord(key, i);
        StoreWord(w, i, x);
      }
      assert Expanded(WordsOf(w[..], m), words, n);
      var tmp := new Byte[4];
      for i := n to if len < n then n else len
        invariant R[1..] == [0, 0, 0]
        invariant Expanded(WordsOf(w[..], m), words, i) && WordsOf(w[..], m)[..n] == words
      {
        var x := LoadWord(w, i - 1);
        tmp[0], tmp[1], tmp[2], tmp[3] := x.c0, x.c1, x.c2, x.c3;
        TempInPlace(tmp, i);
        x := LoadWord(w, i - n);
        StoreWord(w, i, AddWords(x, WordAt(tmp, 0)));
      }
      forall i, j | n <= i < len && 0 <= j < 4
        ensures Recurs(WordsOf(w[..], m), n, i, j)
      {
        ScheduleRecurs(words, WordsOf(w[..], m), i, j);
      }
    }

    /** The column-major load that opens both ciphers. */
    method LoadInto(input: array<Byte>, state: array<Byte>)
      requires Valid() && input != state && input.Length == state.Length == 4 * nb
      modifies state
      ensures StateOf(state[..], nb) == Load(input[..], nb)
    {
      hide Load, StateOf, Flatten;
      var n := nb;
      ghost var b := Flatten(Load(input[..], n), n);
      for i := 0 to 4
        invariant n * i <= 4 * n && state[..n * i] == b[..n * i]
      {
        RowBounds(n, i);
        for j := 0 to n
          invariant state[..n * i + j] == b[..n * i + j]
        {
          LoadedAt(input[..], n, i, j);
          state[n * i + j] := input[i + 4 * j];
        }
      }
      assert state[..] == state[..n * 4] == b[..n * 4] == b;
      FlattenInverse(Load(input[..], n), n);
    }

    /** The column-major store that closes both ciphers. */
    method StoreFrom(state: array<Byte>, output: array<Byte>)
      requires Valid() && output != state && output.Length == state.Length == 4 * nb
      modifies output
      ensures output[..] == Store(StateOf(state[..], nb), nb)
    {
      TransposeOut(state, output, nb);
      StoreIsTransposed(state[..], nb);
    }

    /** One round of the cipher before the last. */
    method CipherRound(state: array<Byte>, w: array<Byte>, r: nat)
      requires Valid() && state != w && state.Length == 4 * nb && IsSchedule(w[..], nb, nr) && r <= nr
      modifies state
      ensures StateOf(state[..], nb) ==
        AddRoundKey(Mixed(old(StateOf(state[..], nb)), nb), RoundKey(w[..], nb, nr, r), nb)
    {
      hide StateOf, SubBytes, ShiftRows, MultiplyColumns, AddRoundKey, RoundKey;
      SubBytesInPlace(state);
      ShiftRowsInPlace(state);
      MixColumns(state);
      AddRoundKeyInPlace(state, w, r);
    }

    /** One round of the inverse cipher before its column mixing. */
    method InvCipherRound(state: array<Byte>, w: array<Byte>, r: nat)
      requires Valid() && state != w && state.Length == 4 * nb && IsSchedule(w[..], nb, nr) && r <= nr
      modifies state
      ensures StateOf(state[..], nb) == Unkeyed(old(StateOf(state[..], nb)), w[..], nb, nr, r)
    {
      hide StateOf, InvSubBytes, InvShiftRows, AddRoundKey, RoundKey;
      InvShiftRowsInPlace(state);
      InvSubBytesInPlace(state);
      AddRoundKeyInPlace(state, w, r);
    }

    /** Encrypts one block under an expanded key. */
    method EncryptBlock(input: array<Byte>, output: array<Byte>, w: array<Byte>)
      requires Valid() && 1 <= nr <= 255 && IsSchedule(w[..], nb, nr)
      requires input.Length == output.Length == 4 * nb && output != w
      modifies output
      ensures output[..] == Cipher(old(input[..]), w[..], nb, nr)
    {
      hide Load, Store, StateOf, SubBytes, ShiftRows, Mixed, AddRoundKey, RoundKey, IsSchedule;
      var state := new Byte[4 * nb];
      ghost var ws := w[..];
      LoadInto(input, state);
      AddRoundKeyInPlace(state, w, 0);
      ghost var s := StateOf(state[..], nb);
      for r := 1 to nr
        invariant StateOf(state[..], nb) == AfterRound(s, ws, nb, nr, r - 1)
        invariant w[..] == ws
      {
        CipherRound(state, w, r);
      }
      SubBytesInPlace(state);
      ShiftRowsInPlace(state);
      AddRoundKeyInPlace(state, w, nr);
      StoreFrom(state, output);
    }

    /** Decrypts one block under an expanded key; the round counter is eight bits wide. */
    method DecryptBlock(input: array<Byte>, output: array<Byte>, w: array<Byte>)
      requires Valid() && 1 <= nr <= 255 && IsSchedule(w[..], nb, nr)
      requires input.Length == output.Length == 4 * nb && output != w
      modifies output
      ensures output[..] == InvCipher(old(input[..]), w[..], nb, nr)
    {
      hide Load, Store, StateOf, Unkeyed, MultiplyColumns, AddRoundKey, RoundKey, IsSchedule;
      var state := new Byte[4 * nb];
      ghost var ws := w[..];
      LoadInto(input, state);
      AddRoundKeyInPlace(state, w, nr);
      ghost var s := StateOf(state[..], nb);
      var r := nr - 1;
      while r >= 1
        invariant 0 <= r < nr
        invariant StateOf(state[..], nb) == BackTo(s, ws, nb, nr, r)
        invariant w[..] == ws
      {
        InvCipherRound(state, w, r);
        InvMixColumns(state);
        r := r - 1;
      }
      InvCipherRound(state, w, 0);
      StoreFrom(state, output);
    }

    /** Encrypting and then decrypting in place restores the block. */
    method RoundTrip(block: array<Byte>, w: array<Byte>)
      requires Valid() && 1 <= nr <= 255 && IsSchedule(w[..], nb, nr)
      requires block.Length == 4 * nb && block != w
      modifies block
      ensures block[..] == old(block[..])
    {
      InvCipherCipher(block[..], w[..], nb, nr);
      EncryptBlock(block, block, w);
      DecryptBlock(block, block, w);
    }
  }
}
