/**
 * The self-programmable memories of the AVR, as the bootloaders see them. Flash is erased and
 * written a page at a time through a temporary page buffer; programming can only clear bits, so a
 * page must be erased before it is written. The buffer is blank after a page write and after the
 * read-while-write section is enabled again. Accesses outside the memory have no effect.
 */
module Memory {
  import opened Arith

  /** Eight bits, as a number. */
  type Octet = b: int | 0 <= b < 256

  const BLANK: Octet := 255

  /** Bitwise conjunction. */
  function And(a: nat, b: nat): (r: nat)
    ensures r <= a && r <= b
  {
    if a == 0 || b == 0 then 0 else 2 * And(a / 2, b / 2) + (a % 2) * (b % 2)
  }

  /** Programming an erased byte stores it; programming a byte with ones leaves it. */
  lemma {:induction false} AndBlank(b: Octet)
    ensures And(BLANK, b) == b && And(b, BLANK) == b
  {
    AndOnes(8, b);
  }

  lemma {:induction false} AndOnes(n: nat, b: nat)
    requires b < Power2(n)
    ensures And(Power2(n) - 1, b) == b && And(b, Power2(n) - 1) == b
  {
    if n > 0 && b > 0 {
      AndOnes(n - 1, b / 2);
      assert (Power2(n) - 1) / 2 == Power2(n - 1) - 1;
    }
  }

  function Power2(n: nat): (p: nat)
    ensures p > 0
  {
    if n == 0 then 1 else 2 * Power2(n - 1)
  }

  /** Bitwise disjunction of the low n bits. */
  function Or(a: nat, b: nat, n: nat): (r: nat)
    ensures r < Power2(n)
  {
    if n == 0 then 0 else 2 * Or(a / 2, b / 2, n - 1) + (if a % 2 == 1 || b % 2 == 1 then 1 else 0)
  }

  function Blank(n: nat): (s: seq<Octet>)
    ensures |s| == n && forall i | 0 <= i < n :: s[i] == BLANK
  {
    seq(n, i => BLANK)
  }

  /** The start of the page of an address. */
  function PageStart(a: nat, page: nat): (p: nat)
    requires page > 0
    ensures p <= a < p + page && p % page == 0
  {
    assert a == page * (a / page) + a % page;
    DivModUnique(a - a % page, page, a / page, 0);
    a - a % page
  }

  /** EEPROM bytes are stored and loaded one at a time. */
  function StoreEeprom(eeprom: seq<Octet>, addr: nat, b: Octet): (r: seq<Octet>)
    ensures |r| == |eeprom|
  {
    if addr < |eeprom| then eeprom[addr := b] else eeprom
  }

  function LoadEeprom(eeprom: seq<Octet>, addr: nat): Octet {
    if addr < |eeprom| then eeprom[addr] else BLANK
  }

  datatype Flash = Flash(page: nat, boot: nat, mem: seq<Octet>, buffer: seq<Octet>, busy: bool) {
    /** The page size is even, and the boot section starts at a page inside the memory. */
    predicate Valid() {
      page > 0 && page % 2 == 0 && |buffer| == page && boot <= |mem| && boot % page == 0 && |mem| % page == 0
    }

    /** The address lies in the page that starts at p. */
    predicate InPage(a: int, p: nat)
    {
      p <= a < p + page
    }

    function Read(a: nat): Octet {
      if a < |mem| then mem[a] else BLANK
    }

    function Erase(a: nat): (f: Flash)
      requires Valid()
      ensures f.Valid() && f.page == page && f.boot == boot && f.buffer == buffer && |f.mem| == |mem| && f.busy
      ensures forall x | 0 <= x < |mem| :: f.mem[x] == if InPage(x, PageStart(a, page)) then BLANK else mem[x]
    {
      this.(mem := seq(|mem|, x requires 0 <= x < |mem| => if InPage(x, PageStart(a, page)) then BLANK else mem[x]), busy := true)
    }

    /** Stores a word in the page buffer at the address modulo the page size. */
    function Fill(a: nat, low: Octet, high: Octet): (f: Flash)
      requires Valid()
      ensures f.Valid() && f.page == page && f.boot == boot && f.mem == mem && f.busy == busy
      ensures var k := a % page - a % page % 2; f.buffer == buffer[k := low][k + 1 := high]
    {
      WordInBuffer(a, page);
      var k := a % page - a % page % 2;
      this.(buffer := buffer[k := low][k + 1 := high])
    }

    /** Programs the page from the buffer, and blanks the buffer. */
    function Write(a: nat): (f: Flash)
      requires Valid()
      ensures f.Valid() && f.page == page && f.boot == boot && |f.mem| == |mem| && f.buffer == Blank(page) && f.busy
      ensures var p := PageStart(a, page);
        forall x | 0 <= x < |mem| :: f.mem[x] == if InPage(x, p) then And(mem[x], buffer[x - p]) else mem[x]
    {
      var p := PageStart(a, page);
      this.(mem := seq(|mem|, x requires 0 <= x < |mem| => if InPage(x, p) then And(mem[x], buffer[x - p]) as Octet else mem[x]),
            buffer := Blank(page), busy := true)
    }

    /** Makes the application section readable again. */
    function EnableRww(): (f: Flash)
      requires Valid()
      ensures f.Valid() && f.page == page && f.boot == boot && f.mem == mem && f.buffer == Blank(page) && !f.busy
    {
      this.(buffer := Blank(page), busy := false)
    }
  }

  lemma {:induction false} WordInBuffer(a: nat, page: nat)
    requires page > 0 && page % 2 == 0
    ensures 0 <= a % page - a % page % 2 && a % page - a % page % 2 + 1 < page
  {
  }
}
