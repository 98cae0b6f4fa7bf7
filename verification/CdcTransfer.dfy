/**
 * Programming through the CDC bootloader and reading back: the commands a host sends, and what the
 * device holds and answers after them.
 */
module CdcTransfer {
  import opened Arith
  import opened Memory
  import opened PageProgramming
  import opened CdcModel

  // ---- What a host sends ----

  function SetAddressCommand(word: nat): seq<Octet>
    requires word < 65536
  {
    [SET_ADDRESS, word / 256, word % 256]
  }

  function BlockHeader(command: Octet, n: nat, kind: Octet): seq<Octet>
    requires n < 65536
  {
    [command, n / 256, n % 256, kind]
  }

  function ChunkSize(left: nat, page: nat): nat {
    if left < page then left else page
  }

  /** The data from position q on as block writes of a page each, the last one shorter if need be. */
  function BlockWrites(data: seq<Octet>, q: nat, page: nat): seq<Octet>
    requires q <= |data| && 0 < page < 65536
    decreases |data| - q
  {
    if q == |data| then []
    else
      var k := ChunkSize(|data| - q, page);
      BlockHeader(BLOCK_WRITE, k, TYPE_FLASH) + data[q..q + k] + BlockWrites(data, q + k, page)
  }

  function BlockCount(left: nat, page: nat): nat
    requires page > 0
  {
    if left == 0 then 0 else 1 + BlockCount(left - ChunkSize(left, page), page)
  }

  function Acknowledgements(n: nat): seq<Octet> {
    seq(n, i => CR)
  }

  // ---- One command ----

  lemma {:induction false} SetAddress(c: Cdc, word: nat, rest: seq<Octet>)
    requires c.Valid() && word < 0x4000 && c.input == SetAddressCommand(word) + rest
    ensures Task(c) == c.(addr := 2 * word, input := rest, output := c.output + [CR])
  {
    hide MemoryBlock, EraseAll, Single;
    assert c.input[1..][1..][1..] == rest;
    assert ShiftNine(word / 256) == word / 256 * 512;
  }

  /**
   * The set-address command translates a word address to a byte address exactly when the word
   * address is below 0x4000: above that the shift leaves the sixteen bits of an int.
   */
  lemma {:induction false} SetAddressExactly(c: Cdc, word: nat, rest: seq<Octet>)
    requires c.Valid() && word < 65536 && c.input == SetAddressCommand(word) + rest
    ensures Task(c).addr == 2 * word <==> word < 0x4000
  {
    hide MemoryBlock, EraseAll, Single;
    var high := word / 256;
    assert Task(c).addr == ShiftNine(high) + 2 * (word % 256);
    if high >= 0x80 {
      assert high * 512 % 65536 < 65536 <= high * 512;
    }
  }

  /** A block command reaches the block with its size, its memory and the rest of the input. */
  lemma {:induction false} BlockCommand(c: Cdc, read: bool, n: nat, kind: Octet, rest: seq<Octet>)
    requires c.Valid() && n < 65536
    requires c.input == BlockHeader(if read then BLOCK_READ else BLOCK_WRITE, n, kind) + rest
    ensures Task(c) == MemoryBlock(c.Drop(), read)
    ensures var k := c.Drop(); k.Valid() && k.Drop().Drop().Drop() == c.(input := rest)
    ensures var k := c.Drop(); k.Peek() * 256 + k.Drop().Peek() == n && k.Drop().Drop().Peek() == kind
  {
    hide MemoryBlock, EraseAll, Single;
    assert c.input[1..] == [n / 256, n % 256, kind] + rest;
    assert c.input[1..][1..] == [n % 256, kind] + rest;
    assert c.input[1..][1..][1..] == [kind] + rest;
    assert c.input[1..][1..][1..][1..] == rest;
  }

  // ---- Flash ----

  /** The n bytes of flash from an address. */
  function Span(f: Flash, a: nat, n: nat): (s: seq<Octet>)
    ensures |s| == n && forall i | 0 <= i < n :: s[i] == f.Read(a + i)
    decreases n
  {
    if n == 0 then [] else [f.Read(a)] + Span(f, a + 1, n - 1)
  }

  lemma {:induction false} AdvanceSmall(c: Cdc)
    requires c.Valid() && c.addr + 2 < 0x1_0000_0000
    ensures c.Advance() == c.(addr := c.addr + 2)
  {
  }

  lemma {:induction false} AppendSpan(output: seq<Octet>, f: Flash, a: nat, n: nat)
    requires n > 0
    ensures output + Span(f, a, n) == output + [f.Read(a)] + Span(f, a + 1, n - 1)
  {
  }

  lemma {:induction false} FlashFetch(c: Cdc, n: nat, high: bool)
    requires c.Valid() && n > 0 && c.addr + 2 < 0x1_0000_0000
    ensures var b := c.flash.Read(c.addr + if high then 1 else 0);
      ReadFlashBlock(c, n, high)
        == ReadFlashBlock(c.(addr := if high then c.addr + 2 else c.addr, output := c.output + [b]), n - 1, !high)
  {
    hide Flash.Valid, Flash.Read, Cdc.Advance;
    AdvanceSmall(c.Respond(c.flash.Read(c.addr + 1)));
  }

  lemma {:induction false} ReadFlashGives(c: Cdc, n: nat, high: bool)
    requires c.Valid() && c.addr + (if high then 1 else 0) + n + 1 < 0x1_0000_0000
    ensures var r := ReadFlashBlock(c, n, high);
      r == c.(addr := r.addr, output := c.output + Span(c.flash, c.addr + if high then 1 else 0, n))
    decreases n
  {
    hide Flash.Valid, Flash.Read, Cdc.Advance;
    if n == 0 {
      assert c.output + [] == c.output;
    } else {
      hide Span;
      var a := c.addr + if high then 1 else 0;
      var e := c.(addr := if high then c.addr + 2 else c.addr, output := c.output + [c.flash.Read(a)]);
      FlashFetch(c, n, high);
      hide ReadFlashBlock;
      ReadFlashGives(e, n - 1, !high);
      AppendSpan(c.output, c.flash, a, n);
    }
  }

  /** Two bytes of a block fill one word of the page buffer. */
  lemma {:induction false} WriteWord(c: Cdc, n: nat, low: Octet, high: Octet, rest: seq<Octet>, old_low: Octet)
    requires c.Valid() && n >= 2 && c.input == [low, high] + rest && c.addr + 2 < 0x1_0000_0000
    ensures WriteFlashBlock(c, n, false, old_low)
      == WriteFlashBlock(c.(flash := c.flash.Fill(c.addr, low, high), addr := c.addr + 2, input := rest), n - 2, false, low)
  {
    assert c.input[1..][1..] == rest;
    assert c.Drop().Peek() == high;
    assert c.Drop().Drop().(flash := c.flash.Fill(c.addr, low, high)).Advance()
      == c.(flash := c.flash.Fill(c.addr, low, high), addr := c.addr + 2, input := rest);
  }

  lemma {:induction false} SplitTwo(data: seq<Octet>, a: nat, b: nat, rest: seq<Octet>)
    requires a + 2 <= b <= |data|
    ensures data[a..b] + rest == [data[a], data[a + 1]] + (data[a + 2..b] + rest)
  {
    assert data[a..b] == [data[a], data[a + 1]] + data[a + 2..b];
  }

  /** The device after the word at position q + m of the data has gone to the page buffer. */
  function AfterWord(c: Cdc, data: seq<Octet>, i: nat, e: nat, rest: seq<Octet>): (d: Cdc)
    requires c.Valid() && i + 2 <= e <= |data| && c.addr + 2 < 0x1_0000_0000
    ensures d.Valid() && d.flash.page == c.flash.page && d.addr == c.addr + 2 && d.input == data[i + 2..e] + rest
    ensures d == c.(flash := d.flash, addr := d.addr, input := d.input)
  {
    c.(flash := c.flash.Fill(c.addr, data[i], data[i + 1]), addr := c.addr + 2, input := data[i + 2..e] + rest)
  }

  lemma {:induction false} WordWritten(c: Cdc, f0: Flash, start: nat, data: seq<Octet>, q: nat, m: nat, k: nat, rest: seq<Octet>, low: Octet)
    requires c.Valid() && Underway(c.flash, f0, start, data, q, m, true)
    requires m + 2 <= k <= c.flash.page && q + k <= |data|
    requires c.addr == start + q + m && start + |data| < 0x1_0000_0000
    requires c.input == data[q + m..q + k] + rest
    ensures var d := AfterWord(c, data, q + m, q + k, rest);
      && WriteFlashBlock(c, k - m, false, low) == WriteFlashBlock(d, k - m - 2, false, data[q + m])
      && Underway(d.flash, f0, start, data, q, m + 2, true)
  {
    hide Underway, Flash.Fill, Flash.Valid, WriteFlashBlock;
    SplitTwo(data, q + m, q + k, rest);
    WriteWord(c, k - m, data[q + m], data[q + m + 1], data[q + m + 2..q + k] + rest, low);
    FillStep(c.flash, f0, start, data, q, m);
  }

  /** The words of a block go to the page buffer in order. */
  lemma {:induction false} WriteFlashFills(c: Cdc, f0: Flash, start: nat, data: seq<Octet>, q: nat, m: nat, k: nat, rest: seq<Octet>, low: Octet)
    requires c.Valid() && Underway(c.flash, f0, start, data, q, m, true)
    requires m <= k <= c.flash.page && q + k <= |data| && k % 2 == 0
    requires c.addr == start + q + m && start + |data| < 0x1_0000_0000
    requires c.input == data[q + m..q + k] + rest
    ensures var r := WriteFlashBlock(c, k - m, false, low);
      r == c.(flash := r.flash, addr := start + q + k, input := rest) && Underway(r.flash, f0, start, data, q, k, true)
    decreases k - m
  {
    hide Underway, Flash.Valid, AfterWord;
    if m < k {
      hide WriteFlashBlock;
      UnderwayShape(c.flash, f0, start, data, q, m, true);
      WordWritten(c, f0, start, data, q, m, k, rest, low);
      WriteFlashFills(AfterWord(c, data, q + m, q + k, rest), f0, start, data, q, m + 2, k, rest, data[q + m]);
    }
  }

  /** The device r after a block write of the k bytes at position q of the data, for a device c. */
  ghost predicate BlockDone(c: Cdc, r: Cdc, f0: Flash, start: nat, data: seq<Octet>, q: nat, k: nat, rest: seq<Octet>) {
    && r == c.(flash := r.flash, addr := start + q + k, input := rest, output := c.output + [CR])
    && r.Valid() && r.flash.page == c.flash.page
    && (q + k < |data| ==> Underway(r.flash, f0, start, data, q + k, 0, false))
    && (q + k == |data| ==> Programmed(r.flash, f0, start, data))
  }

  /** One block write of a page, or of the end of the data. */
  lemma {:induction false} BlockWritten(c: Cdc, f0: Flash, start: nat, data: seq<Octet>, q: nat, k: nat, rest: seq<Octet>)
    requires c.Valid() && Underway(c.flash, f0, start, data, q, 0, false)
    requires q < |data| && |data| % 2 == 0 && start + |data| < 0x1_0000_0000 && c.flash.page < 65536
    requires c.addr == start + q && k == ChunkSize(|data| - q, c.flash.page)
    requires c.input == BlockHeader(BLOCK_WRITE, k, TYPE_FLASH) + (data[q..q + k] + rest)
    ensures BlockDone(c, Task(c), f0, start, data, q, k, rest)
  {
    hide Underway, Programmed, Task, Flash.Erase, Flash.Write, WriteFlashBlock, Flash.Valid, BlockHeader;
    BlockTask(c, k, data[q..q + k] + rest);
    BlockFilled(c, f0, start, data, q, k, rest);
    var w := Filled(c, data[q..q + k] + rest, k);
    BlockEnds(w.flash, f0, start, data, q, k);
  }

  /** The device after the page is erased and k bytes of the input have gone to the page buffer. */
  function Filled(c: Cdc, input: seq<Octet>, k: nat): (w: Cdc)
    requires c.Valid()
    ensures w.Valid()
  {
    WriteFlashBlock(c.(input := input, flash := c.flash.Erase(c.addr)), k, false, 0)
  }

  lemma {:induction false} BlockFilled(c: Cdc, f0: Flash, start: nat, data: seq<Octet>, q: nat, k: nat, rest: seq<Octet>)
    requires c.Valid() && Underway(c.flash, f0, start, data, q, 0, false)
    requires q < |data| && |data| % 2 == 0 && start + |data| < 0x1_0000_0000
    requires c.addr == start + q && k == ChunkSize(|data| - q, c.flash.page)
    ensures k > 0 && q + k <= |data|
    ensures var w := Filled(c, data[q..q + k] + rest, k);
      && w == c.(flash := w.flash, addr := start + q + k, input := rest) && w.flash.page == c.flash.page
      && Underway(w.flash, f0, start, data, q, k, true)
  {
    hide Underway, Flash.Erase, WriteFlashBlock, Flash.Valid;
    UnderwayShape(c.flash, f0, start, data, q, 0, false);
    UnderwayEven(c.flash, f0, start, data, q, 0, false);
    EraseStep(c.flash, f0, start, data, q);
    var d := c.(input := data[q..q + k] + rest, flash := c.flash.Erase(c.addr));
    WriteFlashFills(d, f0, start, data, q, 0, k, rest, 0);
    UnderwayShape(WriteFlashBlock(d, k, false, 0).flash, f0, start, data, q, k, true);
  }

  /** A block write of flash erases the page, takes the block and writes the page. */
  lemma {:induction false} BlockTask(c: Cdc, k: nat, rest: seq<Octet>)
    requires c.Valid() && k < 65536 && c.input == BlockHeader(BLOCK_WRITE, k, TYPE_FLASH) + rest
    ensures var w := Filled(c, rest, k);
      Task(c) == w.(flash := w.flash.Write(c.addr)).Respond(CR)
  {
    hide Task, Flash.Erase, Flash.Write, WriteFlashBlock, Flash.Valid, Cdc.Drop, Cdc.Peek, BlockHeader;
    BlockCommand(c, false, k, TYPE_FLASH, rest);
  }

  lemma {:induction false} BlockEnds(f: Flash, f0: Flash, start: nat, data: seq<Octet>, q: nat, k: nat)
    requires Underway(f, f0, start, data, q, k, true) && k > 0 && q + k <= |data| && k == ChunkSize(|data| - q, f.page)
    ensures q + k < |data| ==> Underway(f.Write(start + q), f0, start, data, q + k, 0, false)
    ensures q + k == |data| ==> Programmed(f.Write(start + q), f0, start, data)
  {
    UnderwayShape(f, f0, start, data, q, k, true);
    hide Underway, Programmed, Flash.Write;
    if k == f.page {
      WriteFull(f, f0, start, data, q);
      if q + k == |data| {
        UnderwayEnds(f.Write(start + q), f0, start, data);
      }
    } else {
      WriteLast(f, f0, start, data, q, k);
    }
  }

  /** All the block writes, one after another from the address where each left off. */
  lemma {:induction false} BlocksWritten(c: Cdc, f0: Flash, start: nat, data: seq<Octet>, q: nat, rest: seq<Octet>)
    requires c.Valid() && 0 < c.flash.page < 65536 && q <= |data| && |data| % 2 == 0 && start + |data| < 0x1_0000_0000
    requires if q < |data| then Underway(c.flash, f0, start, data, q, 0, false) else Programmed(c.flash, f0, start, data)
    requires c.addr == start + q
    requires c.input == BlockWrites(data, q, c.flash.page) + rest
    ensures var n := BlockCount(|data| - q, c.flash.page);
      var r := Tasks(c, n);
      && r == c.(flash := r.flash, addr := start + |data|, input := rest, output := c.output + Acknowledgements(n))
      && Programmed(r.flash, f0, start, data)
    decreases |data| - q
  {
    hide Underway, Programmed, Task, Flash.Valid;
    var n := BlockCount(|data| - q, c.flash.page);
    if q == |data| {
      assert c.output + Acknowledgements(0) == c.output;
    } else {
      hide BlockWrites, BlockHeader;
      var k := ChunkSize(|data| - q, c.flash.page);
      var others := BlockWrites(data, q + k, c.flash.page) + rest;
      FirstBlock(data, q, c.flash.page, rest);
      BlockWritten(c, f0, start, data, q, k, others);
      BlocksWritten(Task(c), f0, start, data, q + k, rest);
      FirstAcknowledgement(c.output, n);
    }
  }

  lemma {:induction false} FirstBlock(data: seq<Octet>, q: nat, page: nat, rest: seq<Octet>)
    requires q < |data| && 0 < page < 65536
    ensures var k := ChunkSize(|data| - q, page);
      BlockWrites(data, q, page) + rest
        == BlockHeader(BLOCK_WRITE, k, TYPE_FLASH) + (data[q..q + k] + (BlockWrites(data, q + k, page) + rest))
  {
    hide BlockHeader;
  }

  lemma {:induction false} FirstAcknowledgement(output: seq<Octet>, n: nat)
    requires n > 0
    ensures output + Acknowledgements(n) == output + [CR] + Acknowledgements(n - 1)
  {
  }

  /** A block read of flash answers with the bytes at the address. */
  lemma {:induction false} FlashRead(c: Cdc, n: nat, rest: seq<Octet>)
    requires c.Valid() && n < 65536 && c.addr + n + 1 < 0x1_0000_0000
    requires c.input == BlockHeader(BLOCK_READ, n, TYPE_FLASH) + rest
    ensures Task(c) == c.(flash := c.flash.EnableRww(), addr := Task(c).addr, input := rest, output := c.output + Span(c.flash, c.addr, n))
  {
    hide Task, Flash.EnableRww, ReadFlashBlock, Flash.Valid, Cdc.Drop, Cdc.Peek, Span;
    BlockCommand(c, true, n, TYPE_FLASH, rest);
    var k := c.(input := rest, flash := c.flash.EnableRww());
    ReadFlashGives(k, n, false);
    SpanOfMemory(k.flash, c.flash, c.addr, n);
  }

  lemma {:induction false} SpanOfMemory(f: Flash, g: Flash, a: nat, n: nat)
    requires f.mem == g.mem
    ensures Span(f, a, n) == Span(g, a, n)
  {
  }

  /** What a host sends to program an image in flash and read it back. */
  function FlashSession(word: nat, data: seq<Octet>, page: nat): seq<Octet>
    requires word < 65536 && |data| < 65536 && 0 < page < 65536
  {
    SetAddressCommand(word) + (BlockWrites(data, 0, page) + (SetAddressCommand(word) + BlockHeader(BLOCK_READ, |data|, TYPE_FLASH)))
  }

  /**
   * An image sent from a page boundary as page-sized block writes is acknowledged block by block,
   * is programmed exactly, and is what a block read from the same address answers. The EEPROM is
   * left alone, and so is the rest of flash beyond the last page written.
   */
  lemma {:induction false} FlashRoundTrip(c: Cdc, word: nat, data: seq<Octet>, rest: seq<Octet>)
    requires c.Valid() && 0 < c.flash.page < 65536 && c.flash.buffer == Blank(c.flash.page)
    requires word < 0x4000 && 2 * word % c.flash.page == 0
    requires 0 < |data| < 65536 && |data| % 2 == 0 && 2 * word + |data| <= |c.flash.mem|
    requires c.input == FlashSession(word, data, c.flash.page) + rest
    ensures var n := BlockCount(|data|, c.flash.page);
      var r := Tasks(c, 1 + (n + 2));
      && r.input == rest && r.output == c.output + Acknowledgements(n + 2) + data
      && Programmed(r.flash, c.flash, 2 * word, data) && r.eeprom == c.eeprom && r.running == c.running
  {
    hide Underway, Programmed, Task, Flash.Valid, SetAddressCommand, BlockHeader, BlockWrites, BlockCount, Span, Flash.EnableRww;
    var n := BlockCount(|data|, c.flash.page);
    var read := SetAddressCommand(word) + BlockHeader(BLOCK_READ, |data|, TYPE_FLASH) + rest;
    var blocks := BlockWrites(data, 0, c.flash.page);
    assert c.input == SetAddressCommand(word) + (blocks + read);
    SetAddress(c, word, blocks + read);
    var c1 := Task(c);
    UnderwayStarts(c.flash, 2 * word, data);
    BlocksWritten(c1, c.flash, 2 * word, data, 0, read);
    var c2 := Tasks(c1, n);
    assert read == SetAddressCommand(word) + (BlockHeader(BLOCK_READ, |data|, TYPE_FLASH) + rest);
    SetAddress(c2, word, BlockHeader(BLOCK_READ, |data|, TYPE_FLASH) + rest);
    var c3 := Task(c2);
    FlashRead(c3, |data|, rest);
    ProgrammedReadable(c3.flash, c.flash, 2 * word, data);
    SpanProgrammed(c3.flash, c.flash, 2 * word, data);
    TasksCompose(c1, n, 2);
    assert Tasks(c, 1 + (n + 2)) == Tasks(c1, n + 2);
    assert Tasks(c2, 2) == Tasks(c3, 1) == Task(c3);
    assert c.output + Acknowledgements(n + 2) == c.output + [CR] + Acknowledgements(n) + [CR];
  }

  lemma {:induction false} SpanProgrammed(f: Flash, f0: Flash, start: nat, data: seq<Octet>)
    requires Programmed(f, f0, start, data)
    ensures Span(f, start, |data|) == data
  {
  }

  lemma {:induction false} TasksCompose(c: Cdc, m: nat, n: nat)
    requires c.Valid()
    ensures Tasks(c, m + n) == Tasks(Tasks(c, m), n)
    decreases m
  {
    hide Task;
    if m > 0 {
      TasksCompose(Task(c), m - 1, n);
    }
  }

  // ---- EEPROM ----

  lemma {:induction false} EepromStep(c: Cdc, a: nat)
    requires c.Valid() && c.addr == 2 * a && a < 0x1_0000
    ensures c.EepromAddress() == a && c.Advance() == c.(addr := 2 * (a + 1))
  {
  }

  lemma {:induction false} EepromStore(c: Cdc, a: nat, data: seq<Octet>, rest: seq<Octet>)
    requires c.Valid() && c.addr == 2 * a && a < |c.eeprom| <= 0x1_0000 && data != [] && c.input == data + rest
    ensures WriteEepromBlock(c, |data|)
      == WriteEepromBlock(c.(addr := 2 * (a + 1), input := data[1..] + rest, eeprom := c.eeprom[a := data[0]]), |data[1..]|)
  {
    hide Flash.Valid, Cdc.Advance, Cdc.EepromAddress;
    EepromStep(c, a);
    assert c.input[1..] == data[1..] + rest;
    EepromStep(c.Drop().(eeprom := c.eeprom[a := data[0]]), a);
  }

  /** A block write of EEPROM replaces the bytes at the address. */
  lemma {:induction false} WriteEepromGives(c: Cdc, a: nat, data: seq<Octet>, rest: seq<Octet>)
    requires c.Valid() && c.addr == 2 * a && a + |data| <= |c.eeprom| <= 0x1_0000
    requires c.input == data + rest
    ensures WriteEepromBlock(c, |data|)
      == c.(addr := 2 * (a + |data|), input := rest, eeprom := c.eeprom[..a] + data + c.eeprom[a + |data|..])
    decreases |data|
  {
    hide Flash.Valid;
    if data == [] {
      assert c.input == rest && c.eeprom[..a] + data + c.eeprom[a..] == c.eeprom;
    } else {
      hide WriteEepromBlock;
      EepromStore(c, a, data, rest);
      var d := c.(addr := 2 * (a + 1), input := data[1..] + rest, eeprom := c.eeprom[a := data[0]]);
      WriteEepromGives(d, a + 1, data[1..], rest);
      assert d.eeprom[..a + 1] + data[1..] + d.eeprom[a + |data|..] == c.eeprom[..a] + data + c.eeprom[a + |data|..];
    }
  }

  lemma {:induction false} AppendSlice(output: seq<Octet>, eeprom: seq<Octet>, a: nat, n: nat)
    requires n > 0 && a + n <= |eeprom|
    ensures output + eeprom[a..a + n] == output + [eeprom[a]] + eeprom[a + 1..a + n]
  {
  }

  lemma {:induction false} EepromFetch(c: Cdc, a: nat, n: nat)
    requires c.Valid() && c.addr == 2 * a && a < |c.eeprom| <= 0x1_0000 && n > 0
    ensures ReadEepromBlock(c, n) == ReadEepromBlock(c.(addr := 2 * (a + 1), output := c.output + [c.eeprom[a]]), n - 1)
  {
    hide Flash.Valid, Cdc.Advance, Cdc.EepromAddress;
    EepromStep(c, a);
    EepromStep(c.Respond(c.eeprom[a]), a);
  }

  lemma {:induction false} ReadEepromGives(c: Cdc, a: nat, n: nat)
    requires c.Valid() && c.addr == 2 * a && a + n <= |c.eeprom| <= 0x1_0000
    ensures ReadEepromBlock(c, n) == c.(addr := 2 * (a + n), output := c.output + c.eeprom[a..a + n])
    decreases n
  {
    hide Flash.Valid;
    if n == 0 {
      assert c.output + [] == c.output;
    } else {
      hide ReadEepromBlock;
      EepromFetch(c, a, n);
      var d := c.(addr := 2 * (a + 1), output := c.output + [c.eeprom[a]]);
      ReadEepromGives(d, a + 1, n - 1);
      AppendSlice(c.output, c.eeprom, a, n);
    }
  }

  lemma {:induction false} EepromWritten(c: Cdc, data: seq<Octet>, rest: seq<Octet>)
    requires c.Valid() && |data| < 65536 && c.addr / 2 + |data| <= |c.eeprom| <= 0x1_0000
    requires c.input == BlockHeader(BLOCK_WRITE, |data|, TYPE_EEPROM) + (data + rest)
    ensures var a := c.addr / 2;
      Task(c) == c.(addr := Task(c).addr, input := rest, output := c.output + [CR],
                    eeprom := c.eeprom[..a] + data + c.eeprom[a + |data|..])
  {
    hide Task, WriteEepromBlock, Flash.Valid, Cdc.Drop, Cdc.Peek, BlockHeader;
    BlockCommand(c, false, |data|, TYPE_EEPROM, data + rest);
    WriteEepromGives(c.(input := data + rest), c.addr / 2, data, rest);
  }

  lemma {:induction false} EepromRead(c: Cdc, n: nat, rest: seq<Octet>)
    requires c.Valid() && n < 65536 && c.addr / 2 + n <= |c.eeprom| <= 0x1_0000
    requires c.input == BlockHeader(BLOCK_READ, n, TYPE_EEPROM) + rest
    ensures Task(c) == c.(flash := c.flash.EnableRww(), addr := Task(c).addr, input := rest,
                          output := c.output + c.eeprom[c.addr / 2..c.addr / 2 + n])
  {
    hide Task, ReadEepromBlock, Flash.Valid, Flash.EnableRww, Cdc.Drop, Cdc.Peek, BlockHeader;
    BlockCommand(c, true, n, TYPE_EEPROM, rest);
    ReadEepromGives(c.(input := rest, flash := c.flash.EnableRww()), c.addr / 2, n);
  }

  function EepromSession(word: nat, data: seq<Octet>): seq<Octet>
    requires word < 65536 && |data| < 65536
  {
    SetAddressCommand(word) + (BlockHeader(BLOCK_WRITE, |data|, TYPE_EEPROM) + (data
      + (SetAddressCommand(word) + BlockHeader(BLOCK_READ, |data|, TYPE_EEPROM))))
  }

  /** Bytes written to EEPROM at any address are what a block read answers; nothing else changes. */
  lemma {:induction false} EepromRoundTrip(c: Cdc, word: nat, data: seq<Octet>, rest: seq<Octet>)
    requires c.Valid() && word < 0x4000 && |data| < 65536 && word + |data| <= |c.eeprom| <= 0x1_0000
    requires c.input == EepromSession(word, data) + rest
    ensures var r := Tasks(c, 4);
      && r.input == rest && r.output == c.output + Acknowledgements(3) + data
      && r.eeprom == c.eeprom[..word] + data + c.eeprom[word + |data|..] && r.flash.mem == c.flash.mem
  {
    hide Task, Flash.Valid, SetAddressCommand, BlockHeader;
    var read := BlockHeader(BLOCK_READ, |data|, TYPE_EEPROM) + rest;
    var write := BlockHeader(BLOCK_WRITE, |data|, TYPE_EEPROM) + (data + (SetAddressCommand(word) + read));
    assert c.input == SetAddressCommand(word) + write;
    SetAddress(c, word, write);
    var c1 := Task(c);
    EepromWritten(c1, data, SetAddressCommand(word) + read);
    var c2 := Task(c1);
    SetAddress(c2, word, read);
    var c3 := Task(c2);
    EepromRead(c3, |data|, rest);
    assert Tasks(c, 4) == Tasks(c1, 3) == Tasks(c2, 2) == Tasks(c3, 1) == Tasks(Task(c3), 0);
    assert c3.eeprom[word..word + |data|] == data;
    assert c.output + Acknowledgements(3) == c.output + [CR] + [CR] + [CR];
  }
}
