/**
 * The CDC-class bootloader: AVR109 commands read from one byte stream and answered on another,
 * around a current address that the block commands advance.
 */
module CdcModel {
  import opened Arith
  import opened Memory
  import opened PageProgramming

  const CR: Octet := 13
  const QUESTION: Octet := '?' as int
  const TYPE_FLASH: Octet := 'F' as int
  const TYPE_EEPROM: Octet := 'E' as int
  const SET_ADDRESS: Octet := 'A' as int
  const BLOCK_WRITE: Octet := 'B' as int
  const BLOCK_READ: Octet := 'g' as int

  const IDENTIFIER: seq<Octet> := ['L' as int, 'U' as int, 'F' as int, 'A' as int, 'C' as int, 'D' as int, 'C' as int]

  /** The values of the chip that commands report: signature bytes 1 to 3, lock bits, three fuses. */
  datatype Chip = Chip(sig1: Octet, sig2: Octet, sig3: Octet, lock: Octet, lowFuse: Octet, highFuse: Octet, extendedFuse: Octet)

  datatype Cdc = Cdc(addr: nat, running: bool, flash: Flash, eeprom: seq<Octet>, chip: Chip, input: seq<Octet>, output: seq<Octet>) {
    /** What every command keeps: the 32-bit address counter is even, so that it always names a flash word. */
    predicate Valid() {
      flash.Valid() && addr < 0x1_0000_0000 && addr % 2 == 0
    }

    /** The next byte from the host; zero once the host has gone. */
    function Peek(): Octet {
      if input == [] then 0 else input[0]
    }

    function Drop(): Cdc {
      this.(input := if input == [] then [] else input[1..])
    }

    function Respond(b: Octet): Cdc {
      this.(output := output + [b])
    }

    function Advance(): (r: Cdc)
      requires Valid()
      ensures r.Valid()
    {
      this.(addr := (addr + 2) % 0x1_0000_0000)
    }

    /** The EEPROM address is the word address in sixteen bits. */
    function EepromAddress(): nat
    {
      addr / 2 % 65536
    }
  }

  // ---- Block commands ----

  function ReadFlashBlock(c: Cdc, n: nat, high: bool): (r: Cdc)
    requires c.Valid()
    ensures r.Valid()
    decreases n
  {
    if n == 0 then c
    else if high then ReadFlashBlock(c.Respond(c.flash.Read(c.addr + 1)).Advance(), n - 1, false)
    else ReadFlashBlock(c.Respond(c.flash.Read(c.addr)), n - 1, true)
  }

  function ReadEepromBlock(c: Cdc, n: nat): (r: Cdc)
    requires c.Valid()
    ensures r.Valid()
    decreases n
  {
    if n == 0 then c else ReadEepromBlock(c.Respond(LoadEeprom(c.eeprom, c.EepromAddress())).Advance(), n - 1)
  }

  function WriteFlashBlock(c: Cdc, n: nat, high: bool, low: Octet): (r: Cdc)
    requires c.Valid()
    ensures r.Valid()
    decreases n
  {
    if n == 0 then c
    else if high then
      WriteFlashBlock(c.Drop().(flash := c.flash.Fill(c.addr, low, c.Peek())).Advance(), n - 1, false, low)
    else WriteFlashBlock(c.Drop(), n - 1, true, c.Peek())
  }

  function WriteEepromBlock(c: Cdc, n: nat): (r: Cdc)
    requires c.Valid()
    ensures r.Valid()
    decreases n
  {
    if n == 0 then c
    else WriteEepromBlock(c.Drop().(eeprom := StoreEeprom(c.eeprom, c.EepromAddress(), c.Peek())).Advance(), n - 1)
  }

  /** The block size in two bytes, the memory type, and the block itself. */
  function MemoryBlock(c0: Cdc, read: bool): (r: Cdc)
    requires c0.Valid()
    ensures r.Valid()
  {
    var size := c0.Peek() * 256 + c0.Drop().Peek();
    var kind := c0.Drop().Drop().Peek();
    var c := c0.Drop().Drop().Drop();
    if kind != TYPE_FLASH && kind != TYPE_EEPROM then c.Respond(QUESTION)
    else if read then
      var k := c.(flash := c.flash.EnableRww());
      if kind == TYPE_FLASH then ReadFlashBlock(k, size, false) else ReadEepromBlock(k, size)
    else if kind == TYPE_FLASH then
      var k := WriteFlashBlock(c.(flash := c.flash.Erase(c.addr)), size, false, 0);
      k.(flash := k.flash.Write(c.addr)).Respond(CR)
    else WriteEepromBlock(c, size).Respond(CR)
  }

  // ---- One command ----

  /** A byte shifted left by nine in a sixteen-bit int, then widened with its sign to 32 bits. */
  function ShiftNine(b: Octet): (v: nat)
    ensures v % 512 == 0 && v < 0x1_0000_0000
    ensures b < 0x40 ==> v == b * 512
  {
    var v := b * 512 % 65536;
    if v < 32768 then v else v + 0xFFFF_0000
  }

  function EraseAll(f: Flash, addr: nat): (g: Flash)
    requires f.Valid()
    ensures g.Valid()
    decreases f.boot - addr
  {
    if addr >= f.boot then f else EraseAll(f.Erase(addr).Write(addr), addr + f.page)
  }

  /** A word address in two bytes, high byte first, becomes the byte address. */
  function TakeAddress(c: Cdc): (r: Cdc)
    requires c.Valid()
    ensures r.Valid()
  {
    var high: int := ShiftNine(c.Peek());
    var low: int := c.Drop().Peek();
    c.Drop().Drop().(addr := high + 2 * low)
  }

  /** The commands that only answer: what the bootloader is, and what chip it runs on. */
  function Report(c: Cdc, op: char): (r: Cdc)
    ensures r == c.(output := r.output)
  {
    if op == 'P' || op == 'L' then c.Respond(CR)
    else if op == 't' then c.Respond(0x44).Respond(0x00)
    else if op == 'a' then c.Respond('Y' as int)
    else if op == 'p' then c.Respond('S' as int)
    else if op == 'S' then c.(output := c.output + IDENTIFIER)
    else if op == 'V' then c.Respond('1' as int).Respond('0' as int)
    else if op == 's' then c.Respond(c.chip.sig3).Respond(c.chip.sig2).Respond(c.chip.sig1)
    else if op == 'r' then c.Respond(c.chip.lock)
    else if op == 'F' then c.Respond(c.chip.lowFuse)
    else if op == 'N' then c.Respond(c.chip.highFuse)
    else if op == 'Q' then c.Respond(c.chip.extendedFuse)
    else if op == 'b' then c.Respond('Y' as int).Respond(c.flash.page / 256 % 256).Respond(c.flash.page % 256)
    else if op == 'R' then c.Respond(c.flash.Read(c.addr + 1)).Respond(c.flash.Read(c.addr))
    else if op != 27 as char then c.Respond(QUESTION)
    else c
  }

  /** The commands on one word of the page buffer, one page of flash or one byte of EEPROM. */
  function Single(c: Cdc, op: char): (r: Cdc)
    requires c.Valid()
    ensures r.Valid()
  {
    if op == 'C' then c.Drop().(flash := c.flash.Fill(c.addr, c.Peek(), 0)).Respond(CR)
    else if op == 'c' then c.Drop().(flash := c.flash.Fill(c.addr + 1, c.Peek(), 0)).Advance().Respond(CR)
    else if op == 'm' then c.(flash := c.flash.Write(c.addr)).Respond(CR)
    else if op == 'D' then
      c.Drop().(eeprom := StoreEeprom(c.eeprom, c.EepromAddress(), c.Peek())).Advance().Respond(CR)
    else if op == 'd' then c.Respond(LoadEeprom(c.eeprom, c.EepromAddress())).Advance()
    else Report(c, op)
  }

  /** One command, its operands and its response. */
  function Task(c0: Cdc): (r: Cdc)
    requires c0.Valid()
    ensures r.Valid()
  {
    var op := c0.Peek() as char;
    var c := c0.Drop();
    if op == 'E' then c.(running := false).Respond(CR)
    else if op == 'x' || op == 'y' || op == 'T' || op == 'l' then c.Drop().Respond(CR)
    else if op == 'A' then TakeAddress(c).Respond(CR)
    else if op == 'e' then c.(flash := EraseAll(c.flash, 0)).Respond(CR)
    else if op == 'B' then MemoryBlock(c, false)
    else if op == 'g' then MemoryBlock(c, true)
    else Single(c, op)
  }

  /** Any number of commands; the address is even after each of them. */
  function Tasks(c: Cdc, n: nat): (r: Cdc)
    requires c.Valid()
    ensures r.Valid() && r.addr % 2 == 0
    decreases n
  {
    if n == 0 then c else Tasks(Task(c), n - 1)
  }
}
