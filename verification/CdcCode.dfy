/** The CDC bootloader as it runs: its state in fields, its commands and block transfers in place. */
module CdcCode {
  import opened Memory
  import opened CdcModel

  class CdcDevice {
    var addr: nat
    var running: bool
    var flash: Flash
    var eeprom: seq<Octet>
    const chip: Chip
    var input: seq<Octet>
    var output: seq<Octet>

    /** The fields as one value. */
    function State(): Cdc
      reads this
    {
      Cdc(addr, running, flash, eeprom, chip, input, output)
    }

    constructor (flash: Flash, eeprom: seq<Octet>, chip: Chip)
      requires flash.Valid()
      ensures State() == Cdc(0, true, flash, eeprom, chip, [], []) && State().Valid()
    {
      this.addr, this.running, this.flash, this.eeprom, this.chip := 0, true, flash, eeprom, chip;
      this.input, this.output := [], [];
    }

    /** The host sends bytes. */
    method Receive(bytes: seq<Octet>)
      modifies `input
      ensures input == old(input) + bytes
    {
      input := input + bytes;
    }

    method Fetch() returns (b: Octet)
      modifies `input
      ensures b == old(State()).Peek() && State() == old(State()).Drop()
    {
      if input == [] {
        return 0;
      }
      b := input[0];
      input := input[1..];
    }

    method Respond(b: Octet)
      modifies `output
      ensures State() == old(State()).Respond(b)
    {
      output := output + [b];
    }

    method Advance()
      requires State().Valid()
      modifies `addr
      ensures State() == old(State()).Advance() && State().Valid()
    {
      addr := (addr + 2) % 0x1_0000_0000;
    }

    method ReadBlock(size: nat, kind: Octet)
      requires State().Valid() && (kind == TYPE_FLASH || kind == TYPE_EEPROM)
      modifies this
      ensures State() == if kind == TYPE_FLASH then ReadFlashBlock(old(State()), size, false) else ReadEepromBlock(old(State()), size)
      ensures State().Valid()
    {
      hide Flash.Valid, Flash.Read, Cdc.Advance;
      var left, high := size, false;
      ghost var start := State();
      while left > 0
        invariant State().Valid()
        invariant kind == TYPE_FLASH ==> ReadFlashBlock(State(), left, high) == ReadFlashBlock(start, size, false)
        invariant kind == TYPE_EEPROM ==> ReadEepromBlock(State(), left) == ReadEepromBlock(start, size)
      {
        if kind == TYPE_FLASH {
          Respond(flash.Read(if high then addr + 1 else addr));
          if high {
            Advance();
          }
          high := !high;
        } else {
          Respond(LoadEeprom(eeprom, addr / 2 % 65536));
          Advance();
        }
        left := left - 1;
      }
    }

    method WriteFlash(size: nat)
      requires State().Valid()
      modifies this
      ensures State().Valid() && State() == WriteFlashBlock(old(State()), size, false, 0)
    {
      hide Flash.Valid, Flash.Fill, Cdc.Advance;
      var left, high, low: Octet := size, false, 0;
      ghost var start := State();
      while left > 0
        invariant State().Valid() && WriteFlashBlock(State(), left, high, low) == WriteFlashBlock(start, size, false, 0)
      {
        var b := Fetch();
        if high {
          flash := flash.Fill(addr, low, b);
          Advance();
        } else {
          low := b;
        }
        high := !high;
        left := left - 1;
      }
    }

    method WriteEeprom(size: nat)
      requires State().Valid()
      modifies this
      ensures State().Valid() && State() == WriteEepromBlock(old(State()), size)
    {
      hide Flash.Valid, Cdc.Advance;
      var left := size;
      ghost var start := State();
      while left > 0
        invariant State().Valid() && WriteEepromBlock(State(), left) == WriteEepromBlock(start, size)
      {
        var b := Fetch();
        eeprom := StoreEeprom(eeprom, addr / 2 % 65536, b);
        Advance();
        left := left - 1;
      }
    }

    method ReadWriteMemoryBlock(read: bool)
      requires State().Valid()
      modifies this
      ensures State().Valid() && State() == MemoryBlock(old(State()), read)
    {
      hide Flash.Valid, Flash.Erase, Flash.Write, Flash.EnableRww, WriteFlashBlock, WriteEepromBlock, ReadFlashBlock, ReadEepromBlock,
           Cdc.Drop, Cdc.Peek;
      var high: int := Fetch();
      var low: int := Fetch();
      var kind := Fetch();
      if kind != TYPE_FLASH && kind != TYPE_EEPROM {
        Respond(QUESTION);
        return;
      }
      var size: nat := high * 256 + low;
      if read {
        flash := flash.EnableRww();
        ReadBlock(size, kind);
      } else if kind == TYPE_FLASH {
        var start := addr;
        flash := flash.Erase(start);
        WriteFlash(size);
        flash := flash.Write(start);
        Respond(CR);
      } else {
        WriteEeprom(size);
        Respond(CR);
      }
    }

    method SetCurrentAddress()
      requires State().Valid()
      modifies `addr, `input
      ensures State().Valid() && State() == TakeAddress(old(State()))
    {
      var high := Fetch();
      addr := ShiftNine(high);
      var low: int := Fetch();
      addr := addr + 2 * low;
    }

    method EraseApplication()
      requires State().Valid()
      modifies `flash
      ensures State().Valid() && State() == old(State()).(flash := EraseAll(old(flash), 0))
    {
      hide Flash.Erase, Flash.Write;
      var a: nat := 0;
      ghost var f0 := flash;
      while a < flash.boot
        invariant flash.Valid() && flash.boot == f0.boot && EraseAll(flash, a) == EraseAll(f0, 0)
        decreases f0.boot - a
      {
        flash := flash.Erase(a);
        flash := flash.Write(a);
        a := a + flash.page;
      }
    }

    /** One command from the host. */
    method CdcTask()
      requires State().Valid()
      modifies this
      ensures State().Valid() && State() == Task(old(State()))
    {
      hide Flash.Valid, MemoryBlock, EraseAll, Single, TakeAddress, Cdc.Drop, Cdc.Peek;
      var op := Fetch();
      if op == 'E' as int {
        running := false;
        Respond(CR);
      } else if op == 'x' as int || op == 'y' as int || op == 'T' as int || op == 'l' as int {
        var unused := Fetch();
        Respond(CR);
      } else if op == SET_ADDRESS {
        SetCurrentAddress();
        Respond(CR);
      } else if op == 'e' as int {
        EraseApplication();
        Respond(CR);
      } else if op == BLOCK_WRITE || op == BLOCK_READ {
        ReadWriteMemoryBlock(op == BLOCK_READ);
      } else {
        SingleCommand(op as char);
      }
    }

    /** The commands that only answer. */
    method Answer(op: char)
      modifies `output
      ensures State() == Report(old(State()), op)
    {
      if op == 'P' || op == 'L' {
        Respond(CR);
      } else if op == 't' {
        Respond(0x44);
        Respond(0x00);
      } else if op == 'a' {
        Respond('Y' as int);
      } else if op == 'p' {
        Respond('S' as int);
      } else if op == 'S' {
        Identify();
      } else if op == 'V' {
        Respond('1' as int);
        Respond('0' as int);
      } else if op == 's' {
        Respond(chip.sig3);
        Respond(chip.sig2);
        Respond(chip.sig1);
      } else if op == 'r' {
        Respond(chip.lock);
      } else if op == 'F' {
        Respond(chip.lowFuse);
      } else if op == 'N' {
        Respond(chip.highFuse);
      } else if op == 'Q' {
        Respond(chip.extendedFuse);
      } else if op == 'b' {
        Respond('Y' as int);
        Respond(flash.page / 256 % 256);
        Respond(flash.page % 256);
      } else if op == 'R' {
        Respond(flash.Read(addr + 1));
        Respond(flash.Read(addr));
      } else if op != 27 as char {
        Respond(QUESTION);
      }
    }

    /** The seven bytes of the software identifier. */
    method Identify()
      modifies `output
      ensures State() == old(State()).(output := old(output) + IDENTIFIER)
    {
      var i: nat := 0;
      assert IDENTIFIER[..0] == [];
      while i < |IDENTIFIER|
        invariant i <= |IDENTIFIER| && output == old(output) + IDENTIFIER[..i]
      {
        Respond(IDENTIFIER[i]);
        assert IDENTIFIER[..i + 1] == IDENTIFIER[..i] + [IDENTIFIER[i]];
        i := i + 1;
      }
      assert IDENTIFIER[..|IDENTIFIER|] == IDENTIFIER;
    }

    method SingleCommand(op: char)
      requires State().Valid()
      modifies this
      ensures State().Valid() && State() == Single(old(State()), op)
    {
      hide Flash.Valid, Flash.Fill, Flash.Write, Report, Cdc.Advance, Cdc.Drop, Cdc.Peek;
      if op == 'C' {
        var b := Fetch();
        flash := flash.Fill(addr, b, 0);
        Respond(CR);
      } else if op == 'c' {
        var b := Fetch();
        flash := flash.Fill(addr + 1, b, 0);
        Advance();
        Respond(CR);
      } else if op == 'm' {
        flash := flash.Write(addr);
        Respond(CR);
      } else if op == 'D' {
        var b := Fetch();
        eeprom := StoreEeprom(eeprom, addr / 2 % 65536, b);
        Advance();
        Respond(CR);
      } else if op == 'd' {
        Respond(LoadEeprom(eeprom, addr / 2 % 65536));
        Advance();
      } else {
        Answer(op);
      }
    }
  }
}
