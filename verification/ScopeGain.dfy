/**
 * The gain of the scope's converter. The firmware adds the bits of a new gain to those of the old
 * ones, so a gain takes effect as asked only if it has all the bits of the gains before it.
 */
module ScopeGain {
  import opened Memory
  import opened ScopeProtocol

  predicate Has(v: nat, bit: nat) {
    if bit == 0 then v % 2 == 1 else Has(v / 2, bit - 1)
  }

  /** The number that the three gain bits of the channel register spell. */
  function Factor(register: nat): nat {
    register / 4 % 8
  }

  lemma {:induction false} OrBits(a: nat, b: nat, n: nat, bit: nat)
    requires bit < n
    ensures Has(Or(a, b, n), bit) <==> Has(a, bit) || Has(b, bit)
  {
    if bit > 0 {
      OrBits(a / 2, b / 2, n - 1, bit - 1);
    }
  }

  /** A number below eight is its three bits. */
  lemma {:induction false} ThreeBits(v: nat, w: nat)
    requires v < 8 && w < 8
    ensures v == w <==> (Has(v, 0) <==> Has(w, 0)) && (Has(v, 1) <==> Has(w, 1)) && (Has(v, 2) <==> Has(w, 2))
  {
    assert forall x: nat | x < 8 :: x == x % 2 + 2 * (x / 2 % 2) + 4 * (x / 2 / 2);
  }

  lemma {:induction false} FactorBits(register: nat, bit: nat)
    requires bit < 3
    ensures Has(Factor(register), bit) <==> Has(register, bit + 2)
  {
    var r := register / 4;
    assert register / 2 / 2 == r;
    assert Has(register, bit + 2) == Has(register / 2, bit + 1) == Has(r, bit);
    LowBits(r, bit);
  }

  lemma {:induction false} LowBits(v: nat, bit: nat)
    requires bit < 3
    ensures Has(v % 8, bit) <==> Has(v, bit)
  {
    Halves(v / 8, v % 8);
    if bit == 2 {
      assert Has(v, 2) == Has(v / 2, 1) == Has(v / 2 / 2, 0);
      assert Has(v % 8, 2) == Has(v % 8 / 2, 1) == Has(v % 8 / 2 / 2, 0);
    } else if bit == 1 {
      assert Has(v, 1) == Has(v / 2, 0);
    }
  }

  lemma {:induction false} Halves(q: nat, r: nat)
    ensures (8 * q + r) % 2 == r % 2 && (8 * q + r) / 2 % 2 == r / 2 % 2 && (8 * q + r) / 2 / 2 % 2 == r / 2 / 2 % 2
  {
    assert (8 * q + r) / 2 == 4 * q + r / 2;
    assert (4 * q + r / 2) / 2 == 2 * q + r / 2 / 2;
  }

  lemma {:induction false} GainBits(n: nat, bit: nat)
    requires n < 8 && bit < 3
    ensures Has(n * 4 % 256, bit + 2) <==> Has(n, bit)
  {
    assert n * 4 % 256 == n * 4 && n * 4 / 2 == n * 2 && n * 2 / 2 == n;
    assert Has(n * 4, bit + 2) == Has(n * 2, bit + 1) == Has(n, bit);
  }

  lemma {:induction false} FactorSmall(register: nat)
    ensures Factor(register) < 8
  {
  }

  /** A gain from 0 to 7 adds its bits to those of the gain before. */
  lemma {:induction false} GainAdds(register: nat, n: nat, bit: nat)
    requires n < 8 && bit < 3
    ensures Has(Factor(AddGain(register, n)), bit) <==> Has(Factor(register), bit) || Has(n, bit)
  {
    hide Has, Or, Factor;
    FactorBits(AddGain(register, n), bit);
    FactorBits(register, bit);
    GainBits(n, bit);
    OrBits(register, n * 4 % 256, 8, bit + 2);
  }

  /** It is the gain afterwards exactly when every bit of the gain before is one of its bits. */
  lemma {:induction false} GainExactly(register: nat, n: nat)
    requires n < 8
    ensures Factor(AddGain(register, n)) == n <==> forall bit | 0 <= bit < 3 :: Has(Factor(register), bit) ==> Has(n, bit)
  {
    hide Has, Factor, AddGain;
    var next := AddGain(register, n);
    forall bit | 0 <= bit < 3
      ensures Has(Factor(next), bit) <==> Has(Factor(register), bit) || Has(n, bit)
    {
      GainAdds(register, n, bit);
    }
    FactorSmall(next);
    ThreeBits(Factor(next), n);
  }

  /** Asked for the gain 1 and then for 2, the converter has 3. */
  lemma {:induction false} SecondGainMixed(t: Settings)
    requires t.gain == 0
    ensures Factor(Set(t, SetGain(1)).gain) == 1 && Factor(Set(Set(t, SetGain(1)), SetGain(2)).gain) == 3
  {
    hide AddGain;
    var first := AddGain(0, 1);
    var second := AddGain(first, 2);
    GainExactly(0, 1);
    GainAdds(first, 2, 0);
    GainAdds(first, 2, 1);
    GainAdds(first, 2, 2);
    hide Factor;
    FactorSmall(second);
    ThreeBits(Factor(second), 3);
  }
}
