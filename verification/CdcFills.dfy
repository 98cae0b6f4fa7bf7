/**
 * The CDC bootloader's queries, and programming a page word by word: fills of the page buffer,
 * then the command that writes the page.
 */
module CdcFills {
  import opened Arith
  import opened Memory
  import opened PageProgramming
  import opened CdcModel
  import opened CdcTransfer
  import opened CdcBytes

  // ---- Queries ----

  const BLOCK_SUPPORT: Octet := 'b' as int
  const WRITE_PAGE: Octet := 'm' as int

  /** A query appends its answer and changes nothing else. */
  predicate Answered(c: Cdc, answer: seq<Octet>)
    requires c.Valid() && c.input != []
  {
    Task(c) == c.(input := c.input[1..], output := c.output + answer)
  }

  /** The signature goes out last byte first, and each fuse query answers its own fuse. */
  lemma {:induction false} ChipAnswered(c: Cdc)
    requires c.Valid() && c.input != []
    ensures c.input[0] == 's' as int ==> Answered(c, [c.chip.sig3, c.chip.sig2, c.chip.sig1])
    ensures c.input[0] == 'r' as int ==> Answered(c, [c.chip.lock])
    ensures c.input[0] == 'F' as int ==> Answered(c, [c.chip.lowFuse])
    ensures c.input[0] == 'N' as int ==> Answered(c, [c.chip.highFuse])
    ensures c.input[0] == 'Q' as int ==> Answered(c, [c.chip.extendedFuse])
  {
    hide MemoryBlock, EraseAll, TakeAddress, Flash.Valid;
    assert c.output + [c.chip.sig3] + [c.chip.sig2] + [c.chip.sig1] == c.output + [c.chip.sig3, c.chip.sig2, c.chip.sig1];
  }

  /** The block-support query announces the page size, high byte first. */
  lemma {:induction false} BlockSizeAnnounced(c: Cdc)
    requires c.Valid() && c.input != [] && c.input[0] == BLOCK_SUPPORT && c.flash.page < 65536
    ensures Answered(c, ['Y' as int, c.flash.page / 256, c.flash.page % 256])
  {
    hide MemoryBlock, EraseAll, TakeAddress, Flash.Valid;
    var p := c.flash.page;
    SmallMod(p / 256, 256);
    assert c.output + ['Y' as int] + [p / 256] + [p % 256] == c.output + ['Y' as int, p / 256, p % 256];
  }

  /**
   * A host that asks for the block size and cuts its image into blocks of the size it is told
   * programs the image exactly and reads it back.
   */
  lemma {:induction false} AnnouncedSizeWorks(c: Cdc, high: Octet, low: Octet, word: nat, data: seq<Octet>, rest: seq<Octet>)
    requires c.Valid() && 0 < c.flash.page < 65536 && c.flash.buffer == Blank(c.flash.page)
    requires c.input != [] && c.input[0] == BLOCK_SUPPORT && Task(c).output == c.output + ['Y' as int, high, low]
    requires word < 0x4000 && 2 * word % c.flash.page == 0
    requires 0 < |data| < 65536 && |data| % 2 == 0 && 2 * word + |data| <= |c.flash.mem| && 0 < 256 * high as int + low
    requires c.input[1..] == FlashSession(word, data, 256 * high as int + low) + rest
    ensures var n := BlockCount(|data|, c.flash.page);
      var r := Tasks(Task(c), 1 + (n + 2));
      && r.input == rest && r.output == Task(c).output + Acknowledgements(n + 2) + data
      && Programmed(r.flash, c.flash, 2 * word, data)
  {
    hide Task, Tasks, FlashSession, Programmed, Flash.Valid, BlockCount, Acknowledgements;
    AnnouncedIs(c, high, low);
    BlockSizeAnnounced(c);
    FlashRoundTrip(Task(c), word, data, rest);
  }

  lemma {:induction false} AnnouncedIs(c: Cdc, high: Octet, low: Octet)
    requires c.Valid() && c.flash.page < 65536 && c.input != [] && c.input[0] == BLOCK_SUPPORT
    requires Task(c).output == c.output + ['Y' as int, high, low]
    ensures 256 * high as int + low == c.flash.page
  {
    BlockSizeAnnounced(c);
    var p := c.flash.page;
    hide Task, Flash.Valid;
    SameTail(c.output, ['Y' as int, high, low], ['Y' as int, p / 256, p % 256]);
    assert high == p / 256 && low == p % 256;
  }

  lemma {:induction false} SameTail(s: seq<Octet>, a: seq<Octet>, b: seq<Octet>)
    requires s + a == s + b && |a| == 3 && |b| == 3
    ensures a[0] == b[0] && a[1] == b[1] && a[2] == b[2]
  {
    assert a == (s + a)[|s|..] && b == (s + b)[|s|..];
  }

  // ---- Fills, then the page write ----

  /** Each word of the data by its high byte and then its low byte. */
  function FillCommands(data: seq<Octet>): seq<Octet> {
    if |data| < 2 then [] else [FILL_HIGH, data[1]] + ([FILL_LOW, data[0]] + FillCommands(data[2..]))
  }

  /** The data with every high byte zero. */
  function LowBytes(data: seq<Octet>): (r: seq<Octet>)
    ensures |r| == |data| && forall i | 0 <= i < |data| :: r[i] == if i % 2 == 0 then data[i] else 0
  {
    seq(|data|, i requires 0 <= i < |data| => if i % 2 == 0 then data[i] else 0)
  }

  /** Both addresses of a word have its place in the page buffer. */
  lemma {:induction false} WordIndex(a: nat, page: nat)
    requires page > 0 && page % 2 == 0 && a % 2 == 0
    ensures a % page - a % page % 2 == a % page && (a + 1) % page - (a + 1) % page % 2 == a % page && a % page + 1 < page
  {
    SameWord(a, page);
  }

  /** The second fill of a word leaves nothing of the first. */
  lemma {:induction false} OneFill(f: Flash, a: nat, high: Octet, low: Octet)
    requires f.Valid() && a % 2 == 0
    ensures f.Fill(a, high, 0).Fill(a + 1, low, 0) == f.Fill(a, low, 0)
  {
    WordIndex(a, f.page);
    LastUpdate(f.buffer, a % f.page, high, low);
  }

  lemma {:induction false} LastUpdate(buffer: seq<Octet>, k: nat, high: Octet, low: Octet)
    requires k + 1 < |buffer|
    ensures buffer[k := high][k + 1 := 0][k := low][k + 1 := 0] == buffer[k := low][k + 1 := 0]
  {
  }

  /** The fills of one word. */
  lemma {:induction false} WordFilled(c: Cdc, high: Octet, low: Octet, rest: seq<Octet>)
    requires c.Valid() && c.addr + 2 < 0x1_0000_0000 && c.input == [FILL_HIGH, high] + ([FILL_LOW, low] + rest)
    ensures Task(Task(c)) == c.(flash := c.flash.Fill(c.addr, low, 0), addr := c.addr + 2, input := rest, output := c.output + [CR] + [CR])
  {
    hide Task, Flash.Fill, Flash.Valid;
    FillHighTaken(c, high, [FILL_LOW, low] + rest);
    FillLowTaken(Task(c), low, rest);
    OneFill(c.flash, c.addr, high, low);
  }

  lemma {:induction false} TwoAcknowledgements(output: seq<Octet>, n: nat)
    requires n >= 2
    ensures output + Acknowledgements(n) == output + [CR] + [CR] + Acknowledgements(n - 2)
  {
  }

  lemma {:induction false} NoFills(data: seq<Octet>, rest: seq<Octet>)
    ensures FillCommands(data[|data|..]) + rest == rest
  {
  }

  lemma {:induction false} FillsUnfold(data: seq<Octet>, m: nat, rest: seq<Octet>)
    requires m + 2 <= |data|
    ensures FillCommands(data[m..]) + rest == [FILL_HIGH, data[m + 1]] + ([FILL_LOW, data[m]] + (FillCommands(data[m + 2..]) + rest))
  {
    assert data[m..][2..] == data[m + 2..];
  }

  /** The fills of the first m bytes are done and the others are to come. */
  ghost predicate Filling(c: Cdc, f0: Flash, start: nat, data: seq<Octet>, m: nat, rest: seq<Octet>) {
    && |data| % 2 == 0 && m % 2 == 0 && m <= |data| <= f0.page && start + |data| + 2 < 0x1_0000_0000
    && c.Valid() && c.addr == start + m && Underway(c.flash, f0, start, LowBytes(data), 0, m, true)
    && c.input == FillCommands(data[m..]) + rest
  }

  lemma {:induction false} WordStep(c: Cdc, f0: Flash, start: nat, data: seq<Octet>, m: nat, rest: seq<Octet>)
    requires c.Valid() && Filling(c, f0, start, data, m, rest) && m < |data|
    ensures m + 2 <= |data|
    ensures var k := Task(Task(c));
      Filling(k, f0, start, data, m + 2, rest) && k == c.(flash := k.flash, addr := k.addr, input := k.input, output := c.output + [CR] + [CR])
  {
    hide Underway, Task, Flash.Fill, Flash.Valid, FillCommands;
    FillsUnfold(data, m, rest);
    WordFilled(c, data[m + 1], data[m], FillCommands(data[m + 2..]) + rest);
    UnderwayShape(c.flash, f0, start, LowBytes(data), 0, m, true);
    FillStep(c.flash, f0, start, LowBytes(data), 0, m);
  }

  lemma {:induction false} AllFilled(c: Cdc, f0: Flash, start: nat, data: seq<Octet>, rest: seq<Octet>)
    requires Filling(c, f0, start, data, |data|, rest)
    ensures c == c.(addr := start + |data|, input := rest, output := c.output + Acknowledgements(0))
  {
    hide Underway, Flash.Valid;
    NoFills(data, rest);
  }

  /** The fills of a run of words, from position m of the data on. */
  lemma {:induction false} WordsFilled(c: Cdc, f0: Flash, start: nat, data: seq<Octet>, m: nat, rest: seq<Octet>)
    requires c.Valid() && m <= |data| && Filling(c, f0, start, data, m, rest)
    ensures var r := Tasks(c, |data| - m);
      && r == c.(flash := r.flash, addr := start + |data|, input := rest, output := c.output + Acknowledgements(|data| - m))
      && Underway(r.flash, f0, start, LowBytes(data), 0, |data|, true)
    decreases |data| - m
  {
    hide Underway, Task, Flash.Valid, FillCommands, Acknowledgements;
    if m == |data| {
      AllFilled(c, f0, start, data, rest);
    } else {
      WordStep(c, f0, start, data, m, rest);
      hide Tasks, Filling;
      WordsFilled(Task(Task(c)), f0, start, data, m + 2, rest);
      TwoAcknowledgements(c.output, |data| - m);
      TasksUnfold(c, |data| - m);
    }
  }

  lemma {:induction false} TasksUnfold(c: Cdc, n: nat)
    requires c.Valid() && n >= 2
    ensures Tasks(c, n) == Tasks(Task(Task(c)), n - 2)
  {
    hide Task;
  }

  lemma {:induction false} PageWritten(c: Cdc, rest: seq<Octet>)
    requires c.Valid() && c.input == [WRITE_PAGE] + rest
    ensures Task(c) == c.(flash := c.flash.Write(c.addr), input := rest, output := c.output + [CR])
  {
    hide MemoryBlock, EraseAll, TakeAddress, Flash.Write, Flash.Valid;
    assert c.input[1..] == rest;
  }

  /** A blank page with a blank buffer is ready for any data that fit it. */
  lemma {:induction false} BlankPageReady(f: Flash, start: nat, data: seq<Octet>)
    requires f.Valid() && f.buffer == Blank(f.page) && start % f.page == 0 && |data| <= f.page && start + |data| <= |f.mem|
    requires forall x | start <= x < start + f.page && x < |f.mem| :: f.mem[x] == BLANK
    ensures Underway(f, f, start, data, 0, 0, true)
  {
    SmallMod(0, f.page);
  }

  /** What a host sends to program a page by words. */
  function FillSession(word: nat, data: seq<Octet>, rest: seq<Octet>): seq<Octet>
    requires word < 65536 && |data| % 2 == 0
  {
    SetAddressCommand(word) + (FillCommands(data) + (SetAddressCommand(word) + ([WRITE_PAGE] + rest)))
  }

  /**
   * Fills of a blank page and the page-write command program the low bytes of the words, with zeros
   * for their high bytes, and nothing else: flash holds the data exactly when every high byte is zero.
   */
  lemma {:induction false} FillsProgram(c: Cdc, word: nat, data: seq<Octet>, rest: seq<Octet>)
    requires c.Valid() && c.flash.buffer == Blank(c.flash.page) && word < 0x4000 && 2 * word % c.flash.page == 0
    requires 0 < |data| <= c.flash.page && |data| % 2 == 0 && 2 * word + |data| <= |c.flash.mem| && 2 * word + |data| + 2 < 0x1_0000_0000
    requires forall x | 2 * word <= x < 2 * word + c.flash.page && x < |c.flash.mem| :: c.flash.mem[x] == BLANK
    requires c.input == FillSession(word, data, rest)
    ensures var r := Tasks(c, 1 + (|data| + 2));
      && r.input == rest && r.output == c.output + Acknowledgements(|data| + 3) && r.eeprom == c.eeprom
      && Programmed(r.flash, c.flash, 2 * word, LowBytes(data))
      && |r.flash.mem| == |c.flash.mem|
      && (r.flash.mem[2 * word..2 * word + |data|] == data <==> forall i | 0 <= i < |data| && i % 2 == 1 :: data[i] == 0)
  {
    hide Underway, Task, Tasks, Flash.Valid, SetAddressCommand, FillCommands, FillSession, Programmed, Flash.Write;
    var n := |data|;
    BlankPageReady(c.flash, 2 * word, LowBytes(data));
    FillsBuffered(c, word, data, rest);
    var d := Tasks(c, 1 + n);
    FillsClosed(d, c.flash, word, data, rest);
    TasksCompose(c, 1 + n, 2);
    assert 1 + n + 2 == 1 + (n + 2);
    assert c.output + Acknowledgements(1 + n) + [CR] + [CR] == c.output + Acknowledgements(n + 3);
    ProgrammedAt(Tasks(d, 2).flash, c.flash, 2 * word, LowBytes(data));
    LowBytesExactly(data);
  }

  /** The first half of the session fills the page buffer. */
  lemma {:induction false} FillsBuffered(c: Cdc, word: nat, data: seq<Octet>, rest: seq<Octet>)
    requires c.Valid() && word < 0x4000 && Underway(c.flash, c.flash, 2 * word, LowBytes(data), 0, 0, true)
    requires 0 < |data| <= c.flash.page && |data| % 2 == 0 && 2 * word + |data| + 2 < 0x1_0000_0000
    requires c.input == FillSession(word, data, rest)
    ensures var d := Tasks(c, 1 + |data|);
      && d == c.(flash := d.flash, addr := d.addr, input := SetAddressCommand(word) + ([WRITE_PAGE] + rest),
                 output := c.output + Acknowledgements(1 + |data|))
      && Underway(d.flash, c.flash, 2 * word, LowBytes(data), 0, |data|, true)
  {
    hide Underway, Task, Flash.Valid, SetAddressCommand, FillCommands;
    var close := SetAddressCommand(word) + ([WRITE_PAGE] + rest);
    SetAddress(c, word, FillCommands(data) + close);
    assert data[0..] == data;
    WordsFilled(Task(c), c.flash, 2 * word, data, 0, close);
    FirstAcknowledgement(c.output, 1 + |data|);
  }

  /** The second half writes the page. */
  lemma {:induction false} FillsClosed(d: Cdc, f0: Flash, word: nat, data: seq<Octet>, rest: seq<Octet>)
    requires d.Valid() && word < 0x4000 && |data| > 0 && Underway(d.flash, f0, 2 * word, LowBytes(data), 0, |data|, true)
    requires d.input == SetAddressCommand(word) + ([WRITE_PAGE] + rest)
    ensures var r := Tasks(d, 2);
      && r == d.(flash := r.flash, addr := r.addr, input := rest, output := d.output + [CR] + [CR])
      && Programmed(r.flash, f0, 2 * word, LowBytes(data))
  {
    hide Underway, Task, Flash.Valid, SetAddressCommand, Flash.Write, Programmed;
    SetAddress(d, word, [WRITE_PAGE] + rest);
    PageWritten(Task(d), rest);
    WriteLast(d.flash, f0, 2 * word, LowBytes(data), 0, |data|);
    TasksUnfold(d, 2);
  }

  lemma {:induction false} LowBytesExactly(data: seq<Octet>)
    ensures LowBytes(data) == data <==> forall i | 0 <= i < |data| && i % 2 == 1 :: data[i] == 0
  {
    forall i | LowBytes(data) == data && 0 <= i < |data| && i % 2 == 1
      ensures data[i] == 0
    {
      assert LowBytes(data)[i] == 0;
    }
  }

  // ---- The other answers ----

  /** What the bootloader says of itself. */
  lemma {:induction false} IdentityAnswered(c: Cdc)
    requires c.Valid() && c.input != []
    ensures c.input[0] == 't' as int ==> Answered(c, [0x44, 0x00])
    ensures c.input[0] == 'a' as int ==> Answered(c, ['Y' as int])
    ensures c.input[0] == 'p' as int ==> Answered(c, ['S' as int])
    ensures c.input[0] == 'V' as int ==> Answered(c, ['1' as int, '0' as int])
    ensures c.input[0] == 'P' as int || c.input[0] == 'L' as int ==> Answered(c, [CR])
  {
    hide Flash.Fill, Flash.Write, Flash.Read, StoreEeprom, LoadEeprom, Cdc.EepromAddress;
    hide MemoryBlock, EraseAll, TakeAddress, Flash.Valid;
    assert c.output + [0x44] + [0x00] == c.output + [0x44, 0x00];
    assert c.output + ['1' as int] + ['0' as int] == c.output + ['1' as int, '0' as int];
  }

  lemma {:induction false} IdentifierAnswered(c: Cdc)
    requires c.Valid() && c.input != [] && c.input[0] == 'S' as int
    ensures Answered(c, ['L' as int, 'U' as int, 'F' as int, 'A' as int, 'C' as int, 'D' as int, 'C' as int])
  {
    hide MemoryBlock, EraseAll, TakeAddress, Flash.Valid;
  }

  /** The commands whose operand has no effect here take it with them. */
  lemma {:induction false} OperandIgnored(c: Cdc, op: Octet, operand: Octet, rest: seq<Octet>)
    requires c.Valid() && c.input == [op, operand] + rest && (op == 'x' as int || op == 'y' as int || op == 'T' as int || op == 'l' as int)
    ensures Task(c) == c.(input := rest, output := c.output + [CR])
  {
    assert c.input[1..][1..] == rest;
  }

  /** The commands of AVR109 that the bootloader knows, with or without effect. */
  const COMMANDS := "ExyTlAeBgCcmDdPLtapSVsrFNQbR"

  /** Any other byte gets a question mark and nothing else, except the escape of a host that synchronises: it gets no answer. */
  lemma {:induction false} OthersRefused(c: Cdc)
    requires c.Valid() && c.input != [] && c.input[0] as char !in COMMANDS
    ensures Answered(c, if c.input[0] == 27 then [] else [QUESTION])
  {
    hide MemoryBlock, EraseAll, TakeAddress, Flash.Valid;
    assert c.output + [] == c.output;
  }

  /** Exit is acknowledged and ends the bootloader; no other command does. */
  lemma {:induction false} ExitEnds(c: Cdc)
    requires c.Valid() && c.input != [] && c.running
    ensures !Task(c).running <==> c.input[0] == 'E' as int
    ensures c.input[0] == 'E' as int ==> Task(c) == c.(running := false, input := c.input[1..], output := c.output + [CR])
  {
    hide MemoryBlock, EraseAll, TakeAddress, Single, Flash.Valid;
    var d := c.Drop();
    BlockKeepsRunning(d, true);
    BlockKeepsRunning(d, false);
    SingleKeepsRunning(d, c.input[0] as char);
    TakeAddressKeeps(d);
  }

  lemma {:induction false} TakeAddressKeeps(c: Cdc)
    requires c.Valid()
    ensures TakeAddress(c).running == c.running
  {
  }

  lemma {:induction false} SingleKeepsRunning(c: Cdc, op: char)
    requires c.Valid()
    ensures Single(c, op).running == c.running
  {
    hide Flash.Fill, Flash.Write, Flash.Valid, Report;
  }

  lemma {:induction false} ReadFlashKeepsRunning(c: Cdc, n: nat, high: bool)
    requires c.Valid()
    ensures ReadFlashBlock(c, n, high).running == c.running
    decreases n
  {
    hide Flash.Read, Flash.Valid;
    if n > 0 {
      if high {
        ReadFlashKeepsRunning(c.Respond(c.flash.Read(c.addr + 1)).Advance(), n - 1, false);
      } else {
        ReadFlashKeepsRunning(c.Respond(c.flash.Read(c.addr)), n - 1, true);
      }
    }
  }

  lemma {:induction false} WriteFlashKeepsRunning(c: Cdc, n: nat, high: bool, low: Octet)
    requires c.Valid()
    ensures WriteFlashBlock(c, n, high, low).running == c.running
    decreases n
  {
    hide Flash.Fill, Flash.Valid;
    if n > 0 {
      if high {
        WriteFlashKeepsRunning(c.Drop().(flash := c.flash.Fill(c.addr, low, c.Peek())).Advance(), n - 1, false, low);
      } else {
        WriteFlashKeepsRunning(c.Drop(), n - 1, true, c.Peek());
      }
    }
  }

  lemma {:induction false} EepromLoopsKeepRunning(c: Cdc, n: nat)
    requires c.Valid()
    ensures ReadEepromBlock(c, n).running == c.running && WriteEepromBlock(c, n).running == c.running
    decreases n
  {
    hide Flash.Valid, Cdc.EepromAddress, LoadEeprom, StoreEeprom;
    if n > 0 {
      EepromLoopsKeepRunning(c.Respond(LoadEeprom(c.eeprom, c.EepromAddress())).Advance(), n - 1);
      EepromLoopsKeepRunning(c.Drop().(eeprom := StoreEeprom(c.eeprom, c.EepromAddress(), c.Peek())).Advance(), n - 1);
    }
  }

  lemma {:induction false} BlockKeepsRunning(c: Cdc, read: bool)
    requires c.Valid()
    ensures MemoryBlock(c, read).running == c.running
  {
    hide ReadFlashBlock, WriteFlashBlock, ReadEepromBlock, WriteEepromBlock, Flash.Erase, Flash.Write, Flash.EnableRww, Flash.Valid;
    var size: nat := c.Peek() * 256 + c.Drop().Peek();
    var k := c.Drop().Drop().Drop();
    ReadFlashKeepsRunning(k.(flash := k.flash.EnableRww()), size, false);
    WriteFlashKeepsRunning(k.(flash := k.flash.Erase(k.addr)), size, false, 0);
    EepromLoopsKeepRunning(k.(flash := k.flash.EnableRww()), size);
    EepromLoopsKeepRunning(k, size);
  }

  /** A block command for a memory that is neither flash nor EEPROM is refused and moves nothing. */
  lemma {:induction false} UnknownMemoryRefused(c: Cdc, read: bool, n: nat, kind: Octet, rest: seq<Octet>)
    requires c.Valid() && n < 65536 && kind != TYPE_FLASH && kind != TYPE_EEPROM
    requires c.input == BlockHeader(if read then BLOCK_READ else BLOCK_WRITE, n, kind) + rest
    ensures Task(c) == c.(input := rest, output := c.output + [QUESTION])
  {
    hide Task, BlockHeader, Cdc.Drop, Cdc.Peek, Flash.Valid;
    BlockCommand(c, read, n, kind, rest);
  }
}
