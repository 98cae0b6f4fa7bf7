/**
 * Programming a run of bytes into flash from a page boundary: each page is erased, filled word by
 * word and written. Every bootloader does this with its own order of the three steps.
 */
module PageProgramming {
  import opened Arith
  import opened Memory

  lemma {:induction false} Aligned(p: nat, m: nat, page: nat)
    requires page > 0 && p % page == 0 && m < page
    ensures (p + m) % page == m && PageStart(p + m, page) == p
  {
    DivModUnique(p + m, page, p / page, m);
  }

  lemma {:induction false} AlignedSum(p: nat, q: nat, page: nat)
    requires page > 0 && p % page == 0 && q % page == 0
    ensures (p + q) % page == 0
  {
    DivModUnique(p + q, page, p / page + q / page, 0);
  }

  lemma {:induction false} AlignedPositive(p: nat, page: nat)
    requires page > 0 && p % page == 0 && p > 0
    ensures p >= page
  {
    if p < page {
      SmallMod(p, page);
    }
  }

  /** Pages do not straddle the end of memory. */
  lemma {:induction false} PageFits(p: nat, size: nat, page: nat)
    requires page > 0 && p % page == 0 && size % page == 0 && p < size
    ensures p + page <= size
  {
    var k := size / page - p / page;
    assert size - p == page * k;
    if k >= 1 {
      MulAtLeast(page, k);
    }
  }

  /** f has the shape of f0. */
  predicate SameShape(f: Flash, f0: Flash) {
    f.Valid() && f0.Valid() && f.page == f0.page && f.boot == f0.boot && |f.mem| == |f0.mem|
  }

  /**
   * From flash f0, q bytes of data (whole pages) have been programmed at start, and m more bytes
   * are in the page buffer; the page they belong to has been erased, or not yet.
   */
  ghost predicate Underway(f: Flash, f0: Flash, start: nat, data: seq<Octet>, q: nat, m: nat, erased: bool) {
    && SameShape(f, f0)
    && start % f.page == 0 && q % f.page == 0 && m % 2 == 0 && m <= f.page
    && q + m <= |data| && start + |data| <= |f.mem|
    && (m > 0 ==> erased)
    && (forall x | 0 <= x < |f.mem| :: f.mem[x] ==
          if start <= x < start + q then data[x - start]
          else if erased && f.InPage(x, start + q) then BLANK
          else f0.mem[x])
    && (forall k | 0 <= k < f.page :: f.buffer[k] == if k < m then data[q + k] else BLANK)
  }

  /**
   * The data stand at start; the rest of the last page touched is blank, the rest of memory is
   * that of f0, and the page buffer is blank.
   */
  ghost predicate Programmed(f: Flash, f0: Flash, start: nat, data: seq<Octet>) {
    && SameShape(f, f0) && start + |data| <= |f.mem|
    && f.buffer == Blank(f.page)
    && (forall x | 0 <= x < |f.mem| :: f.mem[x] ==
          if start <= x < start + |data| then data[x - start]
          else if start + |data| <= x < start + RoundUp(|data|, f.page) then BLANK
          else f0.mem[x])
  }

  /** n rounded up to a multiple of the page. */
  function RoundUp(n: nat, page: nat): nat
    requires page > 0
  {
    if n % page == 0 then n else PageStart(n, page) + page
  }

  lemma {:induction false} UnderwayStarts(f: Flash, start: nat, data: seq<Octet>)
    requires f.Valid() && f.buffer == Blank(f.page) && start % f.page == 0 && start + |data| <= |f.mem|
    ensures Underway(f, f, start, data, 0, 0, false)
  {
    SmallMod(0, f.page);
  }

  lemma {:induction false} EvenMultiple(q: nat, page: nat)
    requires page > 0 && page % 2 == 0 && q % page == 0
    ensures q % 2 == 0
  {
    var half, n := page / 2, q / page;
    assert q == page * n;
    assert page == 2 * half;
    assert q == 2 * (half * n);
  }

  /** What can be read off a run under way without its contents. */
  lemma {:induction false} UnderwayShape(f: Flash, f0: Flash, start: nat, data: seq<Octet>, q: nat, m: nat, erased: bool)
    requires Underway(f, f0, start, data, q, m, erased)
    ensures f.Valid() && f.page == f0.page && 0 < f.page && f.page % 2 == 0 && m % 2 == 0 && m <= f.page && q + m <= |data|
  {
  }

  lemma {:induction false} UnderwayEven(f: Flash, f0: Flash, start: nat, data: seq<Octet>, q: nat, m: nat, erased: bool)
    requires Underway(f, f0, start, data, q, m, erased)
    ensures q % 2 == 0
  {
    EvenMultiple(q, f.page);
  }

  lemma {:induction false} UnderwayAligned(f: Flash, f0: Flash, start: nat, data: seq<Octet>, q: nat, m: nat, erased: bool)
    requires Underway(f, f0, start, data, q, m, erased)
    ensures f.page > 0 && start % f.page == 0 && q % f.page == 0
  {
  }

  lemma {:induction false} EraseStep(f: Flash, f0: Flash, start: nat, data: seq<Octet>, q: nat)
    requires Underway(f, f0, start, data, q, 0, false)
    ensures Underway(f.Erase(start + q), f0, start, data, q, 0, true)
  {
    AlignedSum(start, q, f.page);
    Aligned(start + q, 0, f.page);
  }

  lemma {:induction false} FillStep(f: Flash, f0: Flash, start: nat, data: seq<Octet>, q: nat, m: nat)
    requires Underway(f, f0, start, data, q, m, true) && m < f.page && q + m + 2 <= |data|
    ensures m + 2 <= f.page
    ensures Underway(f.Fill(start + q + m, data[q + m], data[q + m + 1]), f0, start, data, q, m + 2, true)
  {
    AlignedSum(start, q, f.page);
    Aligned(start + q, m, f.page);
  }

  /** Writing a full page completes it. */
  lemma {:induction false} WriteFull(f: Flash, f0: Flash, start: nat, data: seq<Octet>, q: nat)
    requires Underway(f, f0, start, data, q, f.page, true)
    ensures Underway(f.Write(start + q), f0, start, data, q + f.page, 0, false)
  {
    AlignedSum(start, q, f.page);
    Aligned(start + q, 0, f.page);
    SmallMod(0, f.page);
    ModAddsPeriod(q, f.page);
    var g := f.Write(start + q);
    forall x | 0 <= x < |f.mem|
      ensures g.mem[x] == if start <= x < start + q + f.page then data[x - start] else f0.mem[x]
    {
      if f.InPage(x, start + q) {
        AndBlank(f.buffer[x - (start + q)]);
      }
    }
  }

  /** Writing the last page, full or not, completes the run. */
  lemma {:induction false} WriteLast(f: Flash, f0: Flash, start: nat, data: seq<Octet>, q: nat, m: nat)
    requires Underway(f, f0, start, data, q, m, true) && q + m == |data| && 0 < m
    ensures Programmed(f.Write(start + q), f0, start, data)
  {
    AlignedSum(start, q, f.page);
    Aligned(start + q, 0, f.page);
    if m < f.page {
      Aligned(q, m, f.page);
    } else {
      ModAddsPeriod(q, f.page);
    }
    var g := f.Write(start + q);
    forall x | 0 <= x < |f.mem| && f.InPage(x, start + q)
      ensures g.mem[x] == f.buffer[x - (start + q)]
    {
      AndBlank(f.buffer[x - (start + q)]);
    }
  }

  /** A run that ends on a page boundary is complete once its last page is written. */
  lemma {:induction false} UnderwayEnds(f: Flash, f0: Flash, start: nat, data: seq<Octet>)
    requires Underway(f, f0, start, data, |data|, 0, false)
    ensures Programmed(f, f0, start, data)
  {
  }

  lemma {:induction false} ProgrammedReadable(f: Flash, f0: Flash, start: nat, data: seq<Octet>)
    requires Programmed(f, f0, start, data)
    ensures f.Valid() && Programmed(f.EnableRww(), f0, start, data)
  {
  }

  lemma {:induction false} ProgrammedAt(f: Flash, f0: Flash, start: nat, data: seq<Octet>)
    requires Programmed(f, f0, start, data)
    ensures SameShape(f, f0) && f.buffer == Blank(f.page)
    ensures start + |data| <= |f.mem| && f.mem[start..start + |data|] == data
  {
  }
}
