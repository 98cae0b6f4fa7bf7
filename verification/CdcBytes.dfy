/** The CDC bootloader's commands on single bytes and words, and the erase of the application. */
module CdcBytes {
  import opened Arith
  import opened Memory
  import opened PageProgramming
  import opened CdcModel
  import opened CdcTransfer

  const WRITE_EEPROM: Octet := 'D' as int
  const READ_EEPROM: Octet := 'd' as int
  const FILL_HIGH: Octet := 'C' as int
  const FILL_LOW: Octet := 'c' as int
  const READ_WORD: Octet := 'R' as int

  // ---- EEPROM, a byte a command ----

  /** One write command for each byte of the data. */
  function ByteWrites(data: seq<Octet>): seq<Octet> {
    if data == [] then [] else [WRITE_EEPROM, data[0]] + ByteWrites(data[1..])
  }

  function ByteReads(n: nat): seq<Octet> {
    seq(n, i => READ_EEPROM)
  }

  lemma {:induction false} ByteWrittenOnce(c: Cdc, a: nat, b: Octet, rest: seq<Octet>)
    requires c.Valid() && c.addr == 2 * a && a < |c.eeprom| <= 0x1_0000 && c.input == [WRITE_EEPROM, b] + rest
    ensures Task(c) == c.(addr := 2 * (a + 1), input := rest, eeprom := c.eeprom[a := b], output := c.output + [CR])
  {
    hide MemoryBlock, EraseAll, Flash.Valid, Cdc.Advance, Cdc.EepromAddress, Flash.Fill, Flash.Write;
    assert c.input[1..] == [b] + rest;
    assert c.input[1..][1..] == rest;
    var d := c.Drop();
    EepromStep(d, a);
    EepromStep(d.Drop().(eeprom := c.eeprom[a := b]), a);
  }

  lemma {:induction false} ByteReadOnce(c: Cdc, a: nat, rest: seq<Octet>)
    requires c.Valid() && c.addr == 2 * a && a < |c.eeprom| <= 0x1_0000 && c.input == [READ_EEPROM] + rest
    ensures Task(c) == c.(addr := 2 * (a + 1), input := rest, output := c.output + [c.eeprom[a]])
  {
    hide MemoryBlock, EraseAll, Flash.Valid, Cdc.Advance, Cdc.EepromAddress, Flash.Fill, Flash.Write;
    assert c.input[1..] == rest;
    var d := c.Drop();
    EepromStep(d, a);
    EepromStep(d.Respond(c.eeprom[a]), a);
  }

  /** Successive write commands fill successive addresses. */
  lemma {:induction false} BytesWritten(c: Cdc, a: nat, data: seq<Octet>, rest: seq<Octet>)
    requires c.Valid() && c.addr == 2 * a && a + |data| <= |c.eeprom| <= 0x1_0000 && c.input == ByteWrites(data) + rest
    ensures Tasks(c, |data|) == c.(addr := 2 * (a + |data|), input := rest, output := c.output + Acknowledgements(|data|),
                                   eeprom := c.eeprom[..a] + data + c.eeprom[a + |data|..])
    decreases |data|
  {
    hide Task, Flash.Valid;
    if data == [] {
      assert c.input == rest && c.eeprom[..a] + data + c.eeprom[a..] == c.eeprom && c.output + Acknowledgements(0) == c.output;
    } else {
      assert c.input == [WRITE_EEPROM, data[0]] + (ByteWrites(data[1..]) + rest);
      ByteWrittenOnce(c, a, data[0], ByteWrites(data[1..]) + rest);
      hide ByteWrites;
      var d := Task(c);
      BytesWritten(d, a + 1, data[1..], rest);
      FirstAcknowledgement(c.output, |data|);
      assert d.eeprom[..a + 1] + data[1..] + d.eeprom[a + |data|..] == c.eeprom[..a] + data + c.eeprom[a + |data|..];
    }
  }

  lemma {:induction false} BytesRead(c: Cdc, a: nat, n: nat, rest: seq<Octet>)
    requires c.Valid() && c.addr == 2 * a && a + n <= |c.eeprom| <= 0x1_0000 && c.input == ByteReads(n) + rest
    ensures Tasks(c, n) == c.(addr := 2 * (a + n), input := rest, output := c.output + c.eeprom[a..a + n])
    decreases n
  {
    hide Task, Flash.Valid;
    if n == 0 {
      assert c.input == rest && c.output + c.eeprom[a..a] == c.output;
    } else {
      assert c.input == [READ_EEPROM] + (ByteReads(n - 1) + rest);
      ByteReadOnce(c, a, ByteReads(n - 1) + rest);
      BytesRead(Task(c), a + 1, n - 1, rest);
      AppendSlice(c.output, c.eeprom, a, n);
    }
  }

  /** Bytes written to EEPROM one at a time are read back one at a time. */
  lemma {:induction false} ByteRoundTrip(c: Cdc, word: nat, data: seq<Octet>, rest: seq<Octet>)
    requires c.Valid() && word < 0x4000 && word + |data| <= |c.eeprom| <= 0x1_0000
    requires c.input == SetAddressCommand(word) + (ByteWrites(data) + (SetAddressCommand(word) + (ByteReads(|data|) + rest)))
    ensures var n := |data|;
      var r := Tasks(c, 1 + (n + (1 + n)));
      && r.input == rest && r.output == c.output + Acknowledgements(n + 2) + data
      && r.eeprom == c.eeprom[..word] + data + c.eeprom[word + n..] && r.flash == c.flash
  {
    hide Task, Flash.Valid, SetAddressCommand, ByteWrites, ByteReads;
    var n := |data|;
    var answers := ByteReads(n) + rest;
    SetAddress(c, word, ByteWrites(data) + (SetAddressCommand(word) + answers));
    var c1 := Task(c);
    BytesWritten(c1, word, data, SetAddressCommand(word) + answers);
    var c2 := Tasks(c1, n);
    SetAddress(c2, word, answers);
    var c3 := Task(c2);
    BytesRead(c3, word, n, rest);
    TasksCompose(c1, n, 1 + n);
    assert c3.eeprom[word..word + n] == data;
    assert c.output + Acknowledgements(n + 2) == c.output + [CR] + Acknowledgements(n) + [CR];
  }

  // ---- Flash words ----

  /** The word command answers with the word at the address, high byte first. */
  lemma {:induction false} WordRead(c: Cdc, word: nat, rest: seq<Octet>)
    requires c.Valid() && word < 0x4000 && 2 * word + 1 < |c.flash.mem| && c.input == SetAddressCommand(word) + ([READ_WORD] + rest)
    ensures Tasks(c, 2) == c.(addr := 2 * word, input := rest, output := c.output + [CR, c.flash.mem[2 * word + 1], c.flash.mem[2 * word]])
  {
    SetAddress(c, word, [READ_WORD] + rest);
    hide Task, Flash.Valid, SetAddressCommand;
    var d := c.(addr := 2 * word, input := [READ_WORD] + rest, output := c.output + [CR]);
    WordAnswered(d, rest);
    assert Tasks(c, 2) == Tasks(d, 1) == Tasks(Task(d), 0);
    assert c.output + [CR] + [c.flash.mem[2 * word + 1], c.flash.mem[2 * word]]
      == c.output + [CR, c.flash.mem[2 * word + 1], c.flash.mem[2 * word]];
  }

  lemma {:induction false} WordAnswered(c: Cdc, rest: seq<Octet>)
    requires c.Valid() && c.addr + 1 < |c.flash.mem| && c.input == [READ_WORD] + rest
    ensures Task(c) == c.(input := rest, output := c.output + [c.flash.mem[c.addr + 1], c.flash.mem[c.addr]])
  {
    hide Flash.Valid, MemoryBlock, EraseAll, TakeAddress;
    assert c.input[1..] == rest;
    assert c.output + [c.flash.mem[c.addr + 1]] + [c.flash.mem[c.addr]] == c.output + [c.flash.mem[c.addr + 1], c.flash.mem[c.addr]];
  }

  /** The page-buffer word of an even address, and of the odd address after it. */
  lemma {:induction false} SameWord(a: nat, page: nat)
    requires page > 0 && page % 2 == 0 && a % 2 == 0
    ensures a % page % 2 == 0 && (a + 1) % page == a % page + 1 && a % page + 1 < page
  {
    var p := PageStart(a, page);
    EvenMultiple(p, page);
    Aligned(p, a - p, page);
    NextOdd(a - p, page);
    Aligned(p, a - p + 1, page);
  }

  lemma {:induction false} NextOdd(r: nat, page: nat)
    requires r % 2 == 0 && page % 2 == 0 && r < page
    ensures r + 1 < page
  {
  }

  /** The second fill of a word replaces the first. */
  lemma {:induction false} SecondFill(f: Flash, a: nat, high: Octet, low: Octet)
    requires f.Valid() && a % 2 == 0
    ensures var g := f.Fill(a, high, 0).Fill(a + 1, low, 0);
      var k := a % f.page;
      g.Valid() && g.mem == f.mem && k + 1 < |g.buffer| && g.buffer[k] == low && g.buffer[k + 1] == 0
  {
    SameWord(a, f.page);
  }

  lemma {:induction false} FillHighTaken(c: Cdc, high: Octet, rest: seq<Octet>)
    requires c.Valid() && c.input == [FILL_HIGH, high] + rest
    ensures Task(c) == c.(flash := c.flash.Fill(c.addr, high, 0), input := rest, output := c.output + [CR])
  {
    hide MemoryBlock, EraseAll, TakeAddress, Flash.Fill, Flash.Valid;
    assert c.input[1..] == [high] + rest;
    assert c.input[1..][1..] == rest;
  }

  lemma {:induction false} FillLowTaken(c: Cdc, low: Octet, rest: seq<Octet>)
    requires c.Valid() && c.addr + 2 < 0x1_0000_0000 && c.input == [FILL_LOW, low] + rest
    ensures Task(c) == c.(flash := c.flash.Fill(c.addr + 1, low, 0), addr := c.addr + 2, input := rest, output := c.output + [CR])
  {
    hide MemoryBlock, EraseAll, TakeAddress, Flash.Fill, Flash.Valid, Cdc.Advance;
    assert c.input[1..] == [low] + rest;
    assert c.input[1..][1..] == rest;
    AdvanceSmall(c.(flash := c.flash.Fill(c.addr + 1, low, 0), input := rest));
  }

  /**
   * The two commands that fill a word of the page buffer by its high byte and then its low byte
   * leave the low byte and a zero: they make the word the host means exactly when its high byte is
   * zero.
   */
  lemma {:induction false} WordFillExactly(c: Cdc, high: Octet, low: Octet, rest: seq<Octet>)
    requires c.Valid() && c.addr + 2 < 0x1_0000_0000 && c.input == [FILL_HIGH, high] + ([FILL_LOW, low] + rest)
    ensures var r := Tasks(c, 2);
      var k := c.addr % c.flash.page;
      && r.addr == c.addr + 2 && r.input == rest && r.flash.mem == c.flash.mem && k + 1 < |r.flash.buffer|
      && (r.flash.buffer[k] == low && r.flash.buffer[k + 1] == high <==> high == 0)
  {
    SecondFill(c.flash, c.addr, high, low);
    hide Task, Flash.Fill;
    FillHighTaken(c, high, [FILL_LOW, low] + rest);
    var d := Task(c);
    FillLowTaken(d, low, rest);
    assert Tasks(c, 2) == Tasks(d, 1) == Tasks(Task(d), 0);
  }

  // ---- Erasing ----

  /** The pages of the application below an address are blank, the rest of memory is that of f0. */
  ghost predicate ErasedTo(f: Flash, f0: Flash, a: nat) {
    && SameShape(f, f0) && f.buffer == Blank(f.page)
    && forall x | 0 <= x < |f.mem| :: f.mem[x] == if x < a then BLANK else f0.mem[x]
  }

  lemma {:induction false} PageErased(f: Flash, f0: Flash, a: nat)
    requires ErasedTo(f, f0, a) && a % f.page == 0
    ensures ErasedTo(f.Erase(a).Write(a), f0, a + f.page)
  {
    Aligned(a, 0, f.page);
    AndBlank(BLANK);
  }

  lemma {:induction false} PagesErased(f: Flash, f0: Flash, a: nat)
    requires ErasedTo(f, f0, a) && a % f.page == 0 && a <= f.boot
    ensures ErasedTo(EraseAll(f, a), f0, f.boot)
    decreases f.boot - a
  {
    hide Flash.Erase, Flash.Write;
    if a < f.boot {
      PageErased(f, f0, a);
      ModAddsPeriod(a, f.page);
      PageFits(a, f.boot, f.page);
      PagesErased(f.Erase(a).Write(a), f0, a + f.page);
    }
  }

  /** The erase command blanks the application section and leaves the bootloader alone. */
  lemma {:induction false} EraseBlanksApplication(c: Cdc, rest: seq<Octet>)
    requires c.Valid() && c.flash.buffer == Blank(c.flash.page) && c.input == ['e' as int] + rest
    ensures var r := Task(c);
      && r.input == rest && r.output == c.output + [CR] && r.eeprom == c.eeprom
      && ErasedTo(r.flash, c.flash, c.flash.boot)
  {
    hide EraseAll, MemoryBlock, Single;
    assert c.input[1..] == rest;
    SmallMod(0, c.flash.page);
    PagesErased(c.flash, c.flash, 0);
  }
}
