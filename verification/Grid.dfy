/** Four rows of nb elements stored one after the other, changed a column at a time. */
module Grid {
  /** The column of position p. */
  function Col(p: nat, nb: nat): int {
    if p < nb then p else if p < 2 * nb then p - nb else if p < 3 * nb then p - 2 * nb else p - 3 * nb
  }

  /** The first c columns of b, and the columns of s from there on. */
  function Blend<T>(b: seq<T>, s: seq<T>, nb: nat, c: nat): (r: seq<T>)
    requires |b| == |s| == 4 * nb
    ensures |r| == 4 * nb
  {
    seq(4 * nb, p requires 0 <= p < 4 * nb => if Col(p, nb) < c then b[p] else s[p])
  }

  function SetColumn<T>(a: seq<T>, nb: nat, c: nat, x0: T, x1: T, x2: T, x3: T): (r: seq<T>)
    requires |a| == 4 * nb && c < nb
    ensures |r| == |a|
  {
    a[c := x0][nb + c := x1][2 * nb + c := x2][3 * nb + c := x3]
  }

  lemma {:induction false} BlendEnds<T>(b: seq<T>, s: seq<T>, nb: nat)
    requires |b| == |s| == 4 * nb
    ensures Blend(b, s, nb, 0) == s && Blend(b, s, nb, nb) == b
  {
  }

  /** Column c of a blend is still that of s. */
  lemma {:induction false} BlendAt<T>(b: seq<T>, s: seq<T>, nb: nat, c: nat)
    requires |b| == |s| == 4 * nb && c < nb
    ensures var r := Blend(b, s, nb, c);
      r[c] == s[c] && r[nb + c] == s[nb + c] && r[2 * nb + c] == s[2 * nb + c] && r[3 * nb + c] == s[3 * nb + c]
  {
  }

  lemma {:induction false} BlendStep<T>(b: seq<T>, s: seq<T>, nb: nat, c: nat)
    requires |b| == |s| == 4 * nb && c < nb
    ensures Blend(b, s, nb, c + 1) ==
      SetColumn(Blend(b, s, nb, c), nb, c, b[c], b[nb + c], b[2 * nb + c], b[3 * nb + c])
  {
  }

  /** Stores the four elements of a column. */
  method PutColumn<T>(a: array<T>, nb: nat, c: nat, x0: T, x1: T, x2: T, x3: T)
    requires a.Length == 4 * nb && c < nb
    modifies a
    ensures a[..] == SetColumn(old(a[..]), nb, c, x0, x1, x2, x3)
  {
    a[c] := x0;
    a[nb + c] := x1;
    a[2 * nb + c] := x2;
    a[3 * nb + c] := x3;
  }

  // ---- One cyclic step of a row ----

  function StepLeft<T>(row: seq<T>): seq<T> {
    if row == [] then [] else row[1..] + [row[0]]
  }

  function StepRight<T>(row: seq<T>): seq<T> {
    if row == [] then [] else [row[|row| - 1]] + row[..|row| - 1]
  }

  lemma {:induction false} StepLeftAt<T>(row: seq<T>)
    ensures |StepLeft(row)| == |row|
    ensures forall c | 0 <= c < |row| - 1 :: StepLeft(row)[c] == row[c + 1]
    ensures row != [] ==> StepLeft(row)[|row| - 1] == row[0]
  {
  }

  lemma {:induction false} StepRightAt<T>(row: seq<T>)
    ensures |StepRight(row)| == |row|
    ensures forall c | 0 < c < |row| :: StepRight(row)[c] == row[c - 1]
    ensures row != [] ==> StepRight(row)[0] == row[|row| - 1]
  {
  }

  /** The sequence s with its n elements from index base replaced by row. */
  function PutRow<T>(s: seq<T>, base: nat, row: seq<T>): (r: seq<T>)
    requires base + |row| <= |s|
    ensures |r| == |s|
    ensures forall p | 0 <= p < |s| :: r[p] == if base <= p < base + |row| then row[p - base] else s[p]
  {
    s[..base] + row + s[base + |row|..]
  }

  lemma {:induction false} EqualsPutRow<T>(a: seq<T>, s: seq<T>, base: nat, row: seq<T>)
    requires |a| == |s| && base + |row| <= |s|
    requires forall c | 0 <= c < |row| :: a[base + c] == row[c]
    requires forall p | 0 <= p < base || base + |row| <= p < |s| :: a[p] == s[p]
    ensures a == PutRow(s, base, row)
  {
    forall p | base <= p < base + |row|
      ensures a[p] == row[p - base]
    {
      assert a[base + (p - base)] == row[p - base];
    }
  }

  lemma {:induction false} PutRowSlice<T>(s: seq<T>, base: nat, row: seq<T>, lo: nat, hi: nat)
    requires base + |row| <= |s| && lo <= hi <= |s|
    ensures lo == base && hi == base + |row| ==> PutRow(s, base, row)[lo..hi] == row
    ensures hi <= base || base + |row| <= lo ==> PutRow(s, base, row)[lo..hi] == s[lo..hi]
  {
  }

  /** Moves the n elements from index base one place to the left, the first to the end. */
  method StepRowLeft<T>(a: array<T>, base: nat, n: nat)
    requires 0 < n && base + n <= a.Length
    modifies a
    ensures a[..] == old(PutRow(a[..], base, StepLeft(a[base..base + n])))
  {
    hide StepLeft, PutRow;
    ghost var s := a[..];
    StepLeftAt(s[base..base + n]);
    var tmp := a[base];
    for k := 1 to n
      invariant forall p | base <= p < base + k - 1 :: a[p] == s[p + 1]
      invariant forall p | 0 <= p < base || base + k - 1 <= p < a.Length :: a[p] == s[p]
    {
      a[base + k - 1] := a[base + k];
    }
    a[base + n - 1] := tmp;
    EqualsPutRow(a[..], s, base, StepLeft(s[base..base + n]));
  }

  /** Moves the n elements from index base one place to the right, the last to the front. */
  method StepRowRight<T>(a: array<T>, base: nat, n: nat)
    requires 0 < n && base + n <= a.Length
    modifies a
    ensures a[..] == old(PutRow(a[..], base, StepRight(a[base..base + n])))
  {
    hide StepRight, PutRow;
    ghost var s := a[..];
    StepRightAt(s[base..base + n]);
    var tmp := a[base + n - 1];
    var k := n - 1;
    while k > 0
      invariant 0 <= k < n
      invariant forall p | base + k < p < base + n :: a[p] == s[p - 1]
      invariant forall p | 0 <= p <= base + k || base + n <= p < a.Length :: a[p] == s[p]
    {
      a[base + k] := a[base + k - 1];
      k := k - 1;
    }
    a[base] := tmp;
    EqualsPutRow(a[..], s, base, StepRight(s[base..base + n]));
  }

  // ---- One function applied throughout ----

  /** The first n elements mapped by f. */
  function MapPrefix<T>(f: T -> T, s: seq<T>, n: nat): (r: seq<T>)
    ensures |r| == |s|
  {
    seq(|s|, p requires 0 <= p < |s| => if p < n then f(s[p]) else s[p])
  }

  lemma {:induction false} MapPrefixStep<T>(f: T -> T, s: seq<T>, n: nat)
    requires n < |s|
    ensures MapPrefix(f, s, n)[n] == s[n]
    ensures MapPrefix(f, s, n + 1) == MapPrefix(f, s, n)[n := f(s[n])]
  {
  }

  lemma {:induction false} MapPrefixEnds<T>(f: T -> T, s: seq<T>)
    ensures MapPrefix(f, s, 0) == s
  {
  }

  // ---- Reading the rows out column by column ----

  function At<T>(s: seq<T>, nb: nat, i: nat, c: nat): T
    requires |s| == 4 * nb && i < 4 && c < nb
  {
    if i == 0 then s[c] else if i == 1 then s[nb + c] else if i == 2 then s[2 * nb + c] else s[3 * nb + c]
  }

  function Transposed<T>(s: seq<T>, nb: nat): (r: seq<T>)
    requires |s| == 4 * nb
    ensures |r| == 4 * nb
  {
    seq(4 * nb, k requires 0 <= k < 4 * nb => At(s, nb, k % 4, k / 4))
  }

  lemma {:induction false} TransposedAt<T>(s: seq<T>, nb: nat, i: nat, c: nat)
    requires |s| == 4 * nb && i < 4 && c < nb && nb * i + nb <= 4 * nb
    ensures Transposed(s, nb)[i + 4 * c] == s[nb * i + c]
  {
    assert (i + 4 * c) % 4 == i && (i + 4 * c) / 4 == c;
  }

  method TransposeOut<T>(a: array<T>, output: array<T>, nb: nat)
    requires a != output && a.Length == output.Length == 4 * nb
    modifies output
    ensures output[..] == Transposed(a[..], nb)
  {
    hide Transposed;
    ghost var b := Transposed(a[..], nb);
    for i := 0 to 4
      invariant forall k | 0 <= k < 4 * nb && k % 4 < i :: output[k] == b[k]
    {
      TransposeRow(a, output, nb, i);
    }
  }

  /** The inner loop: row i goes to the positions that are i modulo four. */
  method TransposeRow<T>(a: array<T>, output: array<T>, nb: nat, i: nat)
    requires a != output && a.Length == output.Length == 4 * nb && i < 4
    modifies output
    ensures forall k | 0 <= k < 4 * nb :: output[k] == if k % 4 == i then Transposed(a[..], nb)[k] else old(output[k])
  {
    hide Transposed;
    assert nb * i + nb <= 4 * nb;
    ghost var b := Transposed(a[..], nb);
    for j := 0 to nb
      invariant forall k | 0 <= k < 4 * nb :: output[k] == if k < 4 * j && k % 4 == i then b[k] else old(output[k])
    {
      TransposedAt(a[..], nb, i, j);
      output[i + 4 * j] := a[nb * i + j];
    }
  }
}
