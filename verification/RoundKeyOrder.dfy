/**
 * Which bytes of the schedule reach which round: the cipher reads the schedule from front to back,
 * one block of bytes a round, and its first and last blocks only whiten the block and the result.
 */
module RoundKeyOrder {
  import opened Arith
  import opened GaloisField
  import opened AesSpec

  // ---- A cipher that consumes its schedule ----

  /**
   * The cipher without round numbers: each round takes its key off the front of what is left of
   * the schedule.
   */
  function Consume(s: State, w: seq<Byte>, nb: nat, left: nat): (t: State)
    requires s.Shape(nb) && left >= 1 && IsSchedule(w, nb, left)
    ensures t.Shape(nb)
    decreases left
  {
    FrontFits(w, nb, left);
    var keyed := AddRoundKey(s, w[..4 * nb], nb);
    if left == 1 then AddRoundKey(ShiftRows(SubBytes(keyed)), w[4 * nb..], nb)
    else Consume(Mixed(keyed, nb), w[4 * nb..], nb, left - 1)
  }

  lemma {:induction false} FrontFits(w: seq<Byte>, nb: nat, left: nat)
    requires left >= 1 && IsSchedule(w, nb, left)
    ensures 4 * nb <= |w| && IsSchedule(w[4 * nb..], nb, left - 1) && (left == 1 ==> |w[4 * nb..]| == 4 * nb)
  {
    RoundKeyBounds(nb, left, 0);
    assert 4 * nb * (left + 1) == 4 * nb * left + 4 * nb;
  }

  /** What is left of the schedule once the keys of the rounds before r are gone. */
  function Rest(w: seq<Byte>, nb: nat, nr: nat, r: nat): (v: seq<Byte>)
    requires IsSchedule(w, nb, nr) && r <= nr
    ensures IsSchedule(v, nb, nr - r)
  {
    RoundKeyBounds(nb, nr, r);
    assert 4 * nb * (nr + 1) == 4 * nb * (nr - r + 1) + 4 * nb * r;
    w[4 * nb * r..]
  }

  /** The round key of r is the front of the rest, and behind it the rest of r + 1 begins. */
  lemma {:induction false} RestFront(w: seq<Byte>, nb: nat, nr: nat, r: nat)
    requires IsSchedule(w, nb, nr) && r <= nr
    ensures 4 * nb <= |Rest(w, nb, nr, r)| && Rest(w, nb, nr, r)[..4 * nb] == RoundKey(w, nb, nr, r)
    ensures r < nr ==> Rest(w, nb, nr, r)[4 * nb..] == Rest(w, nb, nr, r + 1)
    ensures r == nr ==> Rest(w, nb, nr, r) == RoundKey(w, nb, nr, r)
  {
    RoundKeyBounds(nb, nr, r);
    assert 4 * nb * (r + 1) == 4 * nb * r + 4 * nb;
    if r == nr {
      assert |Rest(w, nb, nr, r)| == 4 * nb;
    }
  }

  /** From round r on the two ciphers agree. */
  lemma {:induction false} ConsumeRounds(s: State, w: seq<Byte>, nb: nat, nr: nat, r: nat)
    requires s.Shape(nb) && IsSchedule(w, nb, nr) && 1 <= r < nr
    ensures Consume(Mixed(AfterRound(s, w, nb, nr, r - 1), nb), Rest(w, nb, nr, r), nb, nr - r)
      == FinalRound(AfterRound(s, w, nb, nr, nr - 1), w, nb, nr)
    decreases nr - r
  {
    hide AddRoundKey, Mixed, RoundKey, Rest, ShiftRows, SubBytes;
    RestFront(w, nb, nr, r);
    RestFront(w, nb, nr, r + 1);
    if r < nr - 1 {
      ConsumeRounds(s, w, nb, nr, r + 1);
    }
  }

  /** The cipher takes its round keys off the schedule from front to back, and uses all of it. */
  lemma {:induction false} CipherConsumes(input: seq<Byte>, w: seq<Byte>, nb: nat, nr: nat)
    requires nr >= 1 && |input| == 4 * nb && IsSchedule(w, nb, nr)
    ensures Cipher(input, w, nb, nr) == Store(Consume(Load(input, nb), w, nb, nr), nb)
  {
    hide AddRoundKey, Mixed, RoundKey, Rest, ShiftRows, SubBytes, Load, Store;
    RestFront(w, nb, nr, 0);
    RestFront(w, nb, nr, 1);
    WholeRest(w, nb, nr);
    if nr > 1 {
      ConsumeRounds(Start(input, w, nb, nr), w, nb, nr, 1);
    }
  }

  lemma {:induction false} WholeRest(w: seq<Byte>, nb: nat, nr: nat)
    requires IsSchedule(w, nb, nr)
    ensures Rest(w, nb, nr, 0) == w
  {
  }

  // ---- The first and the last key ----

  function AddBytes(a: seq<Byte>, b: seq<Byte>): (r: seq<Byte>)
    requires |a| == |b|
    ensures |r| == |a|
  {
    seq(|a|, i requires 0 <= i < |a| => Add(a[i], b[i]))
  }

  lemma {:induction false} AddCancelsBoth(a: Byte, k: Byte, d: Byte)
    ensures Add(Add(a, d), Add(k, d)) == Add(a, k)
  {
    AddSwap(a, d, k, d);
    AddLaws(d, d, d);
    AddLaws(Add(a, k), 0, 0);
  }

  /** Adding d to the state before a key and to the key changes nothing. */
  lemma {:induction false} WhitenedStart(input: seq<Byte>, key: seq<Byte>, d: seq<Byte>, nb: nat)
    requires |input| == |key| == |d| == 4 * nb
    ensures AddRoundKey(Load(AddBytes(input, d), nb), AddBytes(key, d), nb) == AddRoundKey(Load(input, nb), key, nb)
  {
    hide Add;
    forall a, k, e
      ensures Add(Add(a, e), Add(k, e)) == Add(a, k)
    {
      AddCancelsBoth(a, k, e);
    }
  }

  /** Adding d to the last key adds d to the stored state. */
  lemma {:induction false} WhitenedEnd(s: State, key: seq<Byte>, d: seq<Byte>, nb: nat)
    requires s.Shape(nb) && |key| == |d| == 4 * nb
    ensures Store(AddRoundKey(s, AddBytes(key, d), nb), nb) == AddBytes(Store(AddRoundKey(s, key, nb), nb), d)
  {
    hide Add, Store;
    var x, y := Store(AddRoundKey(s, AddBytes(key, d), nb), nb), AddBytes(Store(AddRoundKey(s, key, nb), nb), d);
    forall k | 0 <= k < 4 * nb
      ensures x[k] == y[k]
    {
      var i, c := k % 4, k / 4;
      assert k == 4 * c + i;
      StoreAt(AddRoundKey(s, AddBytes(key, d), nb), nb, i, c);
      StoreAt(AddRoundKey(s, key, nb), nb, i, c);
      AddRoundKeyAt(s, AddBytes(key, d), nb, i, c);
      AddRoundKeyAt(s, key, nb, i, c);
      AddLaws(s.Row(i)[c], key[k], d[k]);
    }
  }

  /** The rounds up to r read the keys up to r only. */
  lemma {:induction false} RoundsRead(s: State, v: seq<Byte>, w: seq<Byte>, nb: nat, nr: nat, r: nat)
    requires s.Shape(nb) && IsSchedule(v, nb, nr) && IsSchedule(w, nb, nr) && r <= nr
    requires forall q | 1 <= q <= r :: RoundKey(v, nb, nr, q) == RoundKey(w, nb, nr, q)
    ensures AfterRound(s, v, nb, nr, r) == AfterRound(s, w, nb, nr, r)
  {
    hide AddRoundKey, Mixed, RoundKey;
    if r > 0 {
      RoundsRead(s, v, w, nb, nr, r - 1);
    }
  }

  /** Adding d to the block and to the first 4 Nb bytes of the schedule leaves the ciphertext alone. */
  lemma {:induction false} FirstKeyWhitens(input: seq<Byte>, w: seq<Byte>, d: seq<Byte>, nb: nat, nr: nat)
    requires nr >= 1 && |input| == |d| == 4 * nb && IsSchedule(w, nb, nr)
    ensures 4 * nb <= |w|
    ensures Cipher(AddBytes(input, d), AddBytes(w[..4 * nb], d) + w[4 * nb..], nb, nr) == Cipher(input, w, nb, nr)
  {
    RoundKeyBounds(nb, nr, 0);
    var v := AddBytes(w[..4 * nb], d) + w[4 * nb..];
    assert RoundKey(v, nb, nr, 0) == AddBytes(w[..4 * nb], d) && RoundKey(w, nb, nr, 0) == w[..4 * nb];
    forall q | 1 <= q <= nr
      ensures RoundKey(v, nb, nr, q) == RoundKey(w, nb, nr, q)
    {
      SameLater(v, w, nb, nr, q);
    }
    hide AddRoundKey, Mixed, RoundKey, Load, Store, AddBytes, ShiftRows, SubBytes;
    WhitenedStart(input, w[..4 * nb], d, nb);
    RoundsRead(Start(input, w, nb, nr), v, w, nb, nr, nr - 1);
  }

  lemma {:induction false} SameLater(v: seq<Byte>, w: seq<Byte>, nb: nat, nr: nat, q: nat)
    requires IsSchedule(v, nb, nr) && IsSchedule(w, nb, nr) && 1 <= q <= nr && 4 * nb <= |w| && v[4 * nb..] == w[4 * nb..]
    ensures RoundKey(v, nb, nr, q) == RoundKey(w, nb, nr, q)
  {
    RoundKeyBounds(nb, nr, q);
    assert 4 * nb * q == 4 * nb + 4 * nb * (q - 1);
    var n, a := 4 * nb, 4 * nb * q;
    assert v[a..a + n] == v[n..][a - n..a];
    assert w[a..a + n] == w[n..][a - n..a];
  }

  lemma {:induction false} SameEarlier(v: seq<Byte>, w: seq<Byte>, nb: nat, nr: nat, q: nat)
    requires IsSchedule(v, nb, nr) && IsSchedule(w, nb, nr) && q < nr && 4 * nb * nr <= |w| && v[..4 * nb * nr] == w[..4 * nb * nr]
    ensures RoundKey(v, nb, nr, q) == RoundKey(w, nb, nr, q)
  {
    RoundKeyBounds(nb, nr - 1, q);
    RoundKeyBounds(nb, nr, q);
    var m, a := 4 * nb * nr, 4 * nb * q;
    assert v[a..a + 4 * nb] == v[..m][a..a + 4 * nb];
    assert w[a..a + 4 * nb] == w[..m][a..a + 4 * nb];
  }

  /** Adding d to the last 4 Nb bytes of the schedule adds d to the ciphertext. */
  lemma {:induction false} LastKeyWhitens(input: seq<Byte>, w: seq<Byte>, d: seq<Byte>, nb: nat, nr: nat)
    requires nr >= 1 && |input| == |d| == 4 * nb && IsSchedule(w, nb, nr)
    ensures |w| == 4 * nb * nr + 4 * nb
    ensures Cipher(input, w[..4 * nb * nr] + AddBytes(w[4 * nb * nr..], d), nb, nr) == AddBytes(Cipher(input, w, nb, nr), d)
  {
    RoundKeyBounds(nb, nr, nr);
    var m := 4 * nb * nr;
    assert 4 * nb * (nr + 1) == m + 4 * nb;
    var v := w[..m] + AddBytes(w[m..], d);
    assert RoundKey(v, nb, nr, nr) == AddBytes(w[m..], d) && RoundKey(w, nb, nr, nr) == w[m..];
    assert v[..m] == w[..m];
    forall q | 0 <= q < nr
      ensures RoundKey(v, nb, nr, q) == RoundKey(w, nb, nr, q)
    {
      SameEarlier(v, w, nb, nr, q);
    }
    hide AddRoundKey, Mixed, RoundKey, Load, Store, AddBytes, ShiftRows, SubBytes;
    RoundsRead(Start(input, w, nb, nr), v, w, nb, nr, nr - 1);
    WhitenedEnd(ShiftRows(SubBytes(AfterRound(Start(input, w, nb, nr), w, nb, nr, nr - 1))), w[m..], d, nb);
  }
}
