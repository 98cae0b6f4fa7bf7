/**
 * The FAT12 allocation table that the mass-storage bootloader invents for the host: twelve-bit
 * entries packed in pairs over three bytes, and linear cluster chains written into them.
 */
module Fat12 {
  import opened Arith
  import opened Memory
  import opened Options

  const SECTOR: nat := 512
  const END_OF_CHAIN: nat := 0xFFF
  /** The largest entry that lies within one sector. */
  const LAST_ENTRY: nat := 340
  /** The largest entry whose offset the code's eight-bit variable can hold. */
  const LAST_REACHED: nat := 170

  type Sector = s: seq<Octet> | |s| == SECTOR witness Zeros()

  function Zeros(): (s: seq<Octet>)
    ensures |s| == SECTOR
  {
    seq(SECTOR, i => 0)
  }

  lemma {:induction false} OrZero(a: nat, n: nat)
    requires a < Power2(n)
    ensures Or(a, 0, n) == a
  {
    if n > 0 {
      OrZero(a / 2, n - 1);
    }
  }

  /** Numbers without a common bit are added by a disjunction. */
  lemma {:induction false} OrAdds(a: nat, b: nat, k: nat, n: nat)
    requires a < Power2(n) && b < Power2(k)
    ensures Or(Power2(k) * a, b, k + n) == Power2(k) * a + b
  {
    if k == 0 {
      OrZero(a, n);
    } else {
      var p := Power2(k - 1) * a;
      assert Power2(k) * a == 2 * p;
      OrAdds(a, b / 2, k - 1, n);
    }
  }

  lemma {:induction false} OrNibbles(high: nat, low: nat)
    requires high < 16 && low < 16
    ensures Or(16 * high, low, 8) == 16 * high + low
  {
    assert Power2(4) == 16;
    OrAdds(high, low, 4, 4);
  }

  // ---- Reading the table, as the FAT12 format defines it ----

  /** The byte of the table where an entry starts. */
  function Offset(index: nat): (o: nat)
    ensures (index <= LAST_ENTRY ==> o + 1 < SECTOR) && (index <= LAST_REACHED ==> o < 256)
  {
    index + index / 2
  }

  function Entry(t: Sector, index: nat): (e: nat)
    requires index <= LAST_ENTRY
    ensures e < 4096
  {
    var b0: int, b1: int := t[Offset(index)], t[Offset(index) + 1];
    if index % 2 == 1 then b0 / 16 + 16 * b1 else b0 + 256 * (b1 % 16)
  }

  /** The clusters met on the way from c to an end-of-chain mark, if it is reached in time. */
  function Walk(t: Sector, c: nat, steps: nat): Option<seq<nat>>
    decreases steps
  {
    if steps == 0 || c > LAST_ENTRY then None
    else if Entry(t, c) >= 0xFF8 then Some([c])
    else
      var others := Walk(t, Entry(t, c), steps - 1);
      if others.None? then None else Some([c] + others.value)
  }

  function Consecutive(start: nat, n: nat): (s: seq<nat>)
    ensures |s| == n && forall i | 0 <= i < n :: s[i] == start + i
  {
    seq(n, i requires 0 <= i => start + i)
  }

  // ---- Writing the table, as the code does ----

  function UpdateEntry(t: Sector, index: nat, entry: nat): Sector
    requires index < 65536 && entry < 65536
  {
    var o := Offset(index) % 256;
    if index % 2 == 1 then
      t[o := t[o] as int % 16 + entry % 16 * 16][o + 1 := entry / 16 % 256]
    else
      var high: int := entry % 256 / 16;
      assert Power2(8) == 256;
      t[o := entry % 256][o + 1 := Or(16 * high, entry / 256, 8)]
  }

  /** The loop over the clusters of a chain, from its i-th cluster on. */
  function UpdateChain(t: Sector, start: nat, n: nat, i: nat): Sector
    requires start < 65536
    decreases n - i
  {
    if i >= n then t
    else
      var cluster := (start + i) % 65536;
      var next := if i == n - 1 then END_OF_CHAIN else (cluster + 1) % 65536;
      UpdateChain(UpdateEntry(t, cluster, next), start, n, i + 1)
  }

  /** The table the host reads: the two reserved entries, then the chains of the two files. */
  function Table(s1: nat, n1: nat, s2: nat, n2: nat): Sector
    requires s1 < 65536 && s2 < 65536
  {
    var reserved := UpdateEntry(UpdateEntry(Zeros(), 0, 0xFF8), 1, 0xFFF);
    UpdateChain(UpdateChain(reserved, s1, n1, 0), s2, n2, 0)
  }

  // ---- One entry ----

  /** The bytes an update leaves in the table. */
  lemma {:induction false} UpdateEntryBytes(t: Sector, index: nat, entry: nat)
    requires index <= LAST_REACHED && entry < 4096
    ensures var o, u := Offset(index), UpdateEntry(t, index, entry);
      && (forall x | 0 <= x < SECTOR && x != o && x != o + 1 :: u[x] == t[x])
      && (index % 2 == 1 ==> u[o] == t[o] as int % 16 + entry % 16 * 16 && u[o + 1] == entry / 16)
      && (index % 2 == 0 ==> u[o] == entry % 256 && u[o + 1] == entry % 256 / 16 * 16 + entry / 256)
  {
    hide Offset, Or;
    SmallMod(Offset(index), 256);
    Nibbles(entry);
    if index % 2 == 1 {
      SmallMod(entry / 16, 256);
    } else {
      OrNibbles(entry % 256 / 16, entry / 256);
    }
  }

  /** A twelve-bit number as three nibbles. */
  lemma {:induction false} Nibbles(entry: nat)
    requires entry < 4096
    ensures var h, m, c := entry / 256, entry % 256 / 16, entry % 16;
      && h < 16 && m < 16 && entry == 256 * h + 16 * m + c
      && entry % 256 == 16 * m + c && entry / 16 == 16 * h + m && entry / 16 % 16 == m
  {
    var h, m, c := entry / 256, entry % 256 / 16, entry % 256 % 16;
    assert entry == 16 * (16 * h + m) + c;
  }

  lemma {:induction false} TwoNibbles(high: nat, low: nat)
    requires low < 16
    ensures (low + high * 16) / 16 == high && (low + high * 16) % 16 == low
  {
  }

  lemma {:induction false} Recombine(entry: nat, b: nat)
    requires entry < 4096 && b < 256
    ensures var b0 := b % 16 + entry % 16 * 16; b0 / 16 + 16 * (entry / 16) == entry && b0 % 16 == b % 16
    ensures var b1 := entry % 256 / 16 * 16 + entry / 256; entry % 256 + 256 * (b1 % 16) == entry && b1 / 16 == entry / 16 % 16
  {
    Nibbles(entry);
    TwoNibbles(entry % 16, b % 16);
    TwoNibbles(entry % 256 / 16, entry / 256);
  }

  /** Two entries share a byte exactly when the later one is odd and follows the earlier one. */
  lemma {:induction false} Neighbours(i: nat, j: nat)
    requires i < j
    ensures if j == i + 1 && i % 2 == 0 then Offset(j) == Offset(i) + 1 else Offset(i) + 1 < Offset(j)
  {
  }

  lemma {:induction false} UpdateSame(t: Sector, index: nat, entry: nat)
    requires index <= LAST_REACHED && entry < 4096
    ensures Entry(UpdateEntry(t, index, entry), index) == entry
  {
    hide UpdateEntry, Offset;
    UpdateEntryBytes(t, index, entry);
    Recombine(entry, t[Offset(index)]);
  }

  lemma {:induction false} UpdateNext(t: Sector, index: nat, entry: nat)
    requires index <= LAST_REACHED && entry < 4096 && index % 2 == 0
    ensures var e := Entry(t, index + 1); Entry(UpdateEntry(t, index, entry), index + 1) == e - e % 16 + entry / 16 % 16
  {
    hide UpdateEntry, Offset;
    UpdateEntryBytes(t, index, entry);
    Neighbours(index, index + 1);
    Recombine(entry, 0);
    var p := Offset(index + 1);
    TwoNibbles(t[p + 1], t[p] as int / 16);
  }

  lemma {:induction false} UpdateOther(t: Sector, index: nat, entry: nat, j: nat)
    requires index <= LAST_REACHED && entry < 4096 && j <= LAST_ENTRY && j != index
    requires j != index + 1 || index % 2 == 1
    ensures Entry(UpdateEntry(t, index, entry), j) == Entry(t, j)
  {
    hide UpdateEntry, Offset;
    UpdateEntryBytes(t, index, entry);
    if j < index {
      Neighbours(j, index);
      Recombine(entry, t[Offset(index)]);
    } else {
      Neighbours(index, j);
    }
  }

  /**
   * What an update does to every entry of the table: the entry gets its value, and an even entry
   * also gives its middle four bits to the low four bits of the entry after it.
   */
  lemma {:induction false} UpdateEntryExactly(t: Sector, index: nat, entry: nat, j: nat)
    requires index <= LAST_REACHED && entry < 4096 && j <= LAST_ENTRY
    ensures Entry(UpdateEntry(t, index, entry), j)
      == if j == index then entry
         else if j == index + 1 && index % 2 == 0 then Entry(t, j) - Entry(t, j) % 16 + entry / 16 % 16
         else Entry(t, j)
  {
    hide Entry, UpdateEntry;
    if j == index {
      UpdateSame(t, index, entry);
    } else if j == index + 1 && index % 2 == 0 {
      UpdateNext(t, index, entry);
    } else {
      UpdateOther(t, index, entry, j);
    }
  }

  /** An update leaves the other entries alone exactly when the entry after an even one already agrees. */
  lemma {:induction false} UpdateEntryIsolated(t: Sector, index: nat, entry: nat)
    requires index <= LAST_REACHED && entry < 4096
    ensures (forall j | 0 <= j <= LAST_ENTRY && j != index :: Entry(UpdateEntry(t, index, entry), j) == Entry(t, j))
      <==> (index % 2 == 1 || Entry(t, index + 1) % 16 == entry / 16 % 16)
  {
    forall j | 0 <= j <= LAST_ENTRY
      ensures Entry(UpdateEntry(t, index, entry), j)
        == if j == index then entry
           else if j == index + 1 && index % 2 == 0 then Entry(t, j) - Entry(t, j) % 16 + entry / 16 % 16
           else Entry(t, j)
    {
      UpdateEntryExactly(t, index, entry, j);
    }
    hide Entry, UpdateEntry;
    assert Entry(UpdateEntry(t, index, entry), index + 1) == Entry(UpdateEntry(t, index, entry), index + 1);
  }

  /** Beyond the reach of the eight-bit offset, an update does not touch its own entry. */
  lemma {:induction false} UpdateBeyond(t: Sector, index: nat, entry: nat)
    requires LAST_REACHED < index <= LAST_ENTRY && entry < 65536
    ensures Entry(UpdateEntry(t, index, entry), index) == Entry(t, index)
  {
    assert Offset(index) % 256 == Offset(index) - 256;
  }

  // ---- Chains ----

  /** The value a chain over the clusters from start gives to its cluster j. */
  function Link(start: nat, n: nat, j: nat): nat {
    if j == start + n - 1 then END_OF_CHAIN else j + 1
  }

  /** What a chain update does to every entry of the table. */
  lemma {:induction false} UpdateChainExactly(t: Sector, start: nat, n: nat, i: nat, j: nat)
    requires i <= n && start + n <= LAST_REACHED + 1 && j <= LAST_ENTRY
    ensures Entry(UpdateChain(t, start, n, i), j)
      == if start + i <= j < start + n then Link(start, n, j)
         else if i < n && j == start + n && j % 2 == 1 then Entry(t, j) - Entry(t, j) % 16 + 15
         else Entry(t, j)
    decreases n - i
  {
    hide Entry, UpdateEntry;
    if i < n {
      var u := UpdateEntry(t, start + i, Link(start, n, start + i));
      UpdateEntryExactly(t, start + i, Link(start, n, start + i), j);
      UpdateChainExactly(u, start, n, i + 1, j);
    }
  }

  lemma {:induction false} ReservedEntries(j: nat)
    requires j <= 1
    ensures Entry(UpdateEntry(UpdateEntry(Zeros(), 0, 0xFF8), 1, 0xFFF), j) == if j == 0 then 0xFF8 else 0xFFF
  {
    UpdateEntryExactly(UpdateEntry(Zeros(), 0, 0xFF8), 1, 0xFFF, j);
    UpdateEntryExactly(Zeros(), 0, 0xFF8, j);
  }

  /** Two chains of clusters that can be told apart: both in range, and with no cluster in common. */
  predicate Disjoint(s1: nat, n1: nat, s2: nat, n2: nat) {
    && 2 <= s1 && s1 + n1 <= LAST_REACHED + 1
    && 2 <= s2 && s2 + n2 <= LAST_REACHED + 1
    && (s1 + n1 <= s2 || s2 + n2 <= s1)
  }

  /** The second chain ends right before the first, at an even cluster. */
  predicate Clobbers(s1: nat, n1: nat, s2: nat, n2: nat) {
    n1 > 0 && n2 > 0 && s2 + n2 == s1 && s1 % 2 == 1
  }

  lemma {:induction false} TableEntries(s1: nat, n1: nat, s2: nat, n2: nat, j: nat)
    requires Disjoint(s1, n1, s2, n2) && j <= LAST_ENTRY
    ensures var e := Entry(Table(s1, n1, s2, n2), j);
      && (j == 0 ==> e == 0xFF8) && (j == 1 ==> e == 0xFFF)
      && (s2 <= j < s2 + n2 ==> e == Link(s2, n2, j))
      && (s1 <= j < s1 + n1 ==> e == if j == s1 && Clobbers(s1, n1, s2, n2) then Link(s1, n1, j) - Link(s1, n1, j) % 16 + 15 else Link(s1, n1, j))
  {
    var reserved := UpdateEntry(UpdateEntry(Zeros(), 0, 0xFF8), 1, 0xFFF);
    if j <= 1 {
      ReservedEntries(j);
    }
    hide Entry, UpdateEntry, UpdateChain;
    UpdateChainExactly(reserved, s1, n1, 0, j);
    UpdateChainExactly(UpdateChain(reserved, s1, n1, 0), s2, n2, 0, j);
  }

  /** Walking a table whose entries form a chain visits its clusters in order. */
  lemma {:induction false} WalkChain(t: Sector, start: nat, n: nat, i: nat, steps: nat)
    requires i < n && start + n <= LAST_REACHED + 1 && steps >= n - i
    requires forall j | start + i <= j < start + n :: Entry(t, j) == Link(start, n, j)
    ensures Walk(t, start + i, steps) == Some(Consecutive(start + i, n - i))
    decreases n - i
  {
    hide Entry;
    if i < n - 1 {
      assert Entry(t, start + i) == start + i + 1;
      WalkChain(t, start, n, i + 1, steps - 1);
      assert [start + i] + Consecutive(start + i + 1, n - i - 1) == Consecutive(start + i, n - i);
    } else {
      assert Consecutive(start + i, 1) == [start + i];
    }
  }

  /** A walk that starts anywhere else than to the next cluster is not the walk of the chain. */
  lemma {:induction false} WalkBroken(t: Sector, start: nat, n: nat, steps: nat)
    requires 0 < n && start <= LAST_ENTRY
    requires n == 1 ==> Entry(t, start) < 0xFF8
    requires n > 1 ==> Entry(t, start) != start + 1
    ensures Walk(t, start, steps) != Some(Consecutive(start, n))
  {
    hide Entry;
    if steps > 0 && Entry(t, start) < 0xFF8 {
      var others := Walk(t, Entry(t, start), steps - 1);
      if others.Some? {
        WalkFirst(t, Entry(t, start), steps - 1);
        assert ([start] + others.value)[1] == Entry(t, start);
      }
    }
  }

  lemma {:induction false} WalkFirst(t: Sector, c: nat, steps: nat)
    requires Walk(t, c, steps).Some?
    ensures var w := Walk(t, c, steps).value; |w| > 0 && w[0] == c
  {
    hide Entry;
  }

  /**
   * From the start of each file the host finds exactly its consecutive clusters, and the reserved
   * entries hold; except that the first file is lost exactly when the second ends right before it
   * at an even cluster, and the first has more than one cluster.
   */
  lemma {:induction false} ChainsReadBack(s1: nat, n1: nat, s2: nat, n2: nat, steps: nat)
    requires Disjoint(s1, n1, s2, n2) && n1 > 0 && n2 > 0 && steps >= n1 && steps >= n2
    ensures var t := Table(s1, n1, s2, n2);
      && Entry(t, 0) == 0xFF8 && Entry(t, 1) == 0xFFF
      && Walk(t, s2, steps) == Some(Consecutive(s2, n2))
      && (Walk(t, s1, steps) == Some(Consecutive(s1, n1)) <==> !Clobbers(s1, n1, s2, n2) || n1 == 1)
  {
    hide Entry, Walk, Table;
    var t := Table(s1, n1, s2, n2);
    TableEntries(s1, n1, s2, n2, 0);
    TableEntries(s1, n1, s2, n2, 1);
    forall j | s2 <= j < s2 + n2
      ensures Entry(t, j) == Link(s2, n2, j)
    {
      TableEntries(s1, n1, s2, n2, j);
    }
    WalkChain(t, s2, n2, 0, steps);
    FirstChain(s1, n1, s2, n2, steps);
  }

  lemma {:induction false} FirstChain(s1: nat, n1: nat, s2: nat, n2: nat, steps: nat)
    requires Disjoint(s1, n1, s2, n2) && n1 > 0 && steps >= n1
    ensures Walk(Table(s1, n1, s2, n2), s1, steps) == Some(Consecutive(s1, n1)) <==> !Clobbers(s1, n1, s2, n2) || n1 == 1
  {
    hide Entry, Walk, Table;
    var t := Table(s1, n1, s2, n2);
    if Clobbers(s1, n1, s2, n2) && n1 > 1 {
      TableEntries(s1, n1, s2, n2, s1);
      WalkBroken(t, s1, n1, steps);
    } else {
      forall j | s1 <= j < s1 + n1
        ensures Entry(t, j) == Link(s1, n1, j)
      {
        TableEntries(s1, n1, s2, n2, j);
      }
      WalkChain(t, s1, n1, 0, steps);
    }
  }

  /** A host that places EEPROM.BIN at cluster 4 and FLASH.BIN at clusters 5 and 6 cannot read FLASH.BIN back. */
  lemma {:induction false} FirstChainLost(steps: nat)
    requires steps >= 2
    ensures Walk(Table(5, 2, 4, 1), 5, steps) != Some(Consecutive(5, 2))
  {
    ChainsReadBack(5, 2, 4, 1, steps);
  }
}
