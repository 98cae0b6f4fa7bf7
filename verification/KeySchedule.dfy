/**
 * The key schedule of section 5.2 of FIPS 197, for every key length Nk, and what a window of it
 * determines.
 */
module KeySchedule {
  import opened GaloisField
  import opened SBox
  import opened WordRing

  function SubWord(w: Word): Word {
    Word(SubByte(w.c0), SubByte(w.c1), SubByte(w.c2), SubByte(w.c3))
  }

  function RotWord(w: Word): Word {
    Word(w.c1, w.c2, w.c3, w.c0)
  }

  /** x^n in GF(2^8) */
  function PowerOfX(n: nat): Byte {
    if n == 0 then 1 else Mul(PowerOfX(n - 1), 2)
  }

  function RoundConstant(i: nat): Word
    requires i >= 1
  {
    Word(PowerOfX(i - 1), 0, 0, 0)
  }

  /** What is added to word i - Nk to give word i, from word i - 1. */
  function Temp(nk: nat, i: nat, t: Word): Word
    requires 1 <= nk <= i
  {
    if i % nk == 0 then
      QuotientPositive(i, nk);
      AddWords(SubWord(RotWord(t)), RoundConstant(i / nk))
    else if nk > 6 && i % nk == 4 then SubWord(t)
    else t
  }

  lemma {:induction false} QuotientPositive(i: nat, nk: nat)
    requires 1 <= nk <= i
    ensures 1 <= i / nk <= i
  {
  }

  /** Word i of the schedule of a key of Nk words. */
  function ScheduleWord(key: seq<Word>, i: nat): Word
    requires |key| >= 1
  {
    if i < |key| then key[i]
    else AddWords(ScheduleWord(key, i - |key|), Temp(|key|, i, ScheduleWord(key, i - 1)))
  }

  // ---- The recurrence, byte by byte ----

  function ByteOf(w: Word, j: nat): Byte
    requires j < 4
  {
    if j == 0 then w.c0 else if j == 1 then w.c1 else if j == 2 then w.c2 else w.c3
  }

  /**
   * What section 5.2 of FIPS 197 says of byte j of word i: it is the sum of byte j of word i - Nk
   * and a byte of word i - 1. That is substituted and taken from the next place at a multiple of
   * Nk, where the round constant also enters; for Nk above six it is substituted in place in the
   * middle of the key length; elsewhere it is plain.
   */
  predicate Recurs(ws: seq<Word>, nk: nat, i: nat, j: nat)
    requires 1 <= nk <= i < |ws| && j < 4
  {
    QuotientPositive(i, nk);
    ByteOf(ws[i], j) == Add(ByteOf(ws[i - nk], j),
      if i % nk == 0 then
        if j == 0 then Add(SubByte(ByteOf(ws[i - 1], 1)), PowerOfX(i / nk - 1)) else SubByte(ByteOf(ws[i - 1], (j + 1) % 4))
      else if nk > 6 && i % nk == 4 then SubByte(ByteOf(ws[i - 1], j))
      else ByteOf(ws[i - 1], j))
  }

  lemma {:induction false} TempBytes(nk: nat, i: nat, t: Word, j: nat)
    requires 1 <= nk <= i && j < 4
    ensures 1 <= i / nk
    ensures ByteOf(Temp(nk, i, t), j) ==
      if i % nk == 0 then
        if j == 0 then Add(SubByte(ByteOf(t, 1)), PowerOfX(i / nk - 1)) else SubByte(ByteOf(t, (j + 1) % 4))
      else if nk > 6 && i % nk == 4 then SubByte(ByteOf(t, j))
      else ByteOf(t, j)
  {
    hide SubByte, Add, PowerOfX;
    QuotientPositive(i, nk);
    AddZeroRight(SubByte(ByteOf(t, (j + 1) % 4)));
    match j
    case 0 =>
    case 1 =>
    case 2 =>
    case _ =>
  }

  lemma {:induction false} AddZeroRight(b: Byte)
    ensures Add(b, 0) == b
  {
  }

  lemma {:induction false} ScheduleRecurs(key: seq<Word>, ws: seq<Word>, i: nat, j: nat)
    requires 1 <= |key| <= i < |ws| && j < 4
    requires ws[i] == ScheduleWord(key, i) && ws[i - 1] == ScheduleWord(key, i - 1) && ws[i - |key|] == ScheduleWord(key, i - |key|)
    ensures Recurs(ws, |key|, i, j)
  {
    hide SubByte, Add, PowerOfX, Temp;
    TempBytes(|key|, i, ws[i - 1], j);
    assert ws[i] == AddWords(ws[i - |key|], Temp(|key|, i, ws[i - 1]));
  }

  /** The powers of x multiply as powers do, from x itself on. */
  lemma {:induction false} PowersMultiply(m: nat, n: nat)
    ensures Mul(PowerOfX(m), PowerOfX(n)) == PowerOfX(m + n) && PowerOfX(1) == 2
  {
    hide Mul;
    MulOneLeft(2);
    if n == 0 {
      MulOneRight(PowerOfX(m));
    } else {
      PowersMultiply(m, n - 1);
      MulAssociative(PowerOfX(m), PowerOfX(n - 1), 2);
    }
  }

  /** The first derived word of the example key of FIPS 197, appendix A.1. */
  lemma {:induction false} ExampleKey()
    ensures var key := [Word(0x2b, 0x7e, 0x15, 0x16), Word(0x28, 0xae, 0xd2, 0xa6), Word(0xab, 0xf7, 0x15, 0x88), Word(0x09, 0xcf, 0x4f, 0x3c)];
      ScheduleWord(key, 4) == Word(0xa0, 0xfa, 0xfe, 0x17)
  {
    var key := [Word(0x2b, 0x7e, 0x15, 0x16), Word(0x28, 0xae, 0xd2, 0xa6), Word(0xab, 0xf7, 0x15, 0x88), Word(0x09, 0xcf, 0x4f, 0x3c)];
    assert ScheduleWord(key, 3) == Word(0x09, 0xcf, 0x4f, 0x3c);
    assert SubByte(0xcf) == 0x8a && SubByte(0x4f) == 0x84 && SubByte(0x3c) == 0xeb && SubByte(0x09) == 0x01;
  }

  // ---- Any Nk consecutive words determine the schedule ----

  ghost predicate AgreeOn(k: seq<Word>, l: seq<Word>, first: nat, end: nat)
    requires |k| >= 1 && |l| >= 1
  {
    forall j: nat | first <= j < end :: ScheduleWord(k, j) == ScheduleWord(l, j)
  }

  lemma {:induction false} AddWordsCancels(a: Word, b: Word)
    ensures AddWords(AddWords(a, b), b) == a
  {
    AddWordsLaws(a, b, b);
    AddLaws(b.c0, 0, 0);
    AddLaws(b.c1, 0, 0);
    AddLaws(b.c2, 0, 0);
    AddLaws(b.c3, 0, 0);
    AddLaws(a.c0, 0, 0);
    AddLaws(a.c1, 0, 0);
    AddLaws(a.c2, 0, 0);
    AddLaws(a.c3, 0, 0);
  }

  lemma {:induction false} WindowBackward(k: seq<Word>, l: seq<Word>, s: nat)
    requires |k| == |l| >= 2 && AgreeOn(k, l, s, s + |k|)
    ensures AgreeOn(k, l, 0, s + |k|)
    decreases s
  {
    hide Temp, AddWords;
    if s > 0 {
      var i := s - 1 + |k|;
      var t := Temp(|k|, i, ScheduleWord(k, i - 1));
      assert ScheduleWord(k, i - 1) == ScheduleWord(l, i - 1);
      assert ScheduleWord(k, i) == ScheduleWord(l, i);
      AddWordsCancels(ScheduleWord(k, s - 1), t);
      AddWordsCancels(ScheduleWord(l, s - 1), t);
      WindowBackward(k, l, s - 1);
    }
  }

  /**
   * Two keys whose schedules agree on any Nk consecutive words are the same key, with the same
   * schedule throughout.
   */
  lemma {:induction false} WindowDeterminesKey(k: seq<Word>, l: seq<Word>, s: nat)
    requires |k| == |l| >= 2 && AgreeOn(k, l, s, s + |k|)
    ensures k == l
    ensures forall end: nat :: AgreeOn(k, l, 0, end)
  {
    WindowBackward(k, l, s);
    forall j | 0 <= j < |k|
      ensures k[j] == l[j]
    {
      assert ScheduleWord(k, j) == ScheduleWord(l, j);
    }
  }
}
