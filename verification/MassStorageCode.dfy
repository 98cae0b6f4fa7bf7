/** The mass-storage bootloader as it runs: table and block buffer changed in place, memories in fields. */
module MassStorageCode {
  import opened Arith
  import opened Memory
  import opened Fat12
  import opened VirtualDisk
  import opened Scsi

  method UpdateFat12ClusterEntry(table: array<Octet>, index: nat, entry: nat)
    requires table.Length == SECTOR && index < 65536 && entry < 65536
    modifies table
    ensures table[..] == UpdateEntry(old(table[..]), index, entry)
  {
    hide Or;
    var offset := (index + index / 2) % 256;
    if index % 2 == 1 {
      table[offset] := table[offset] as int % 16 + entry % 16 * 16;
      table[offset + 1] := entry / 16 % 256;
    } else {
      table[offset] := entry % 256;
      assert Power2(8) == 256;
      table[offset + 1] := Or(table[offset] as int / 16 * 16, entry / 256, 8);
    }
  }

  method UpdateFat12ClusterChain(table: array<Octet>, start: nat, length: nat)
    requires table.Length == SECTOR && start < 65536
    modifies table
    ensures table[..] == UpdateChain(old(table[..]), start, length, 0)
  {
    hide UpdateEntry;
    ghost var t0 := table[..];
    var i: nat := 0;
    while i < length
      invariant i <= length && UpdateChain(table[..], start, length, i) == UpdateChain(t0, start, length, 0)
    {
      var cluster := (start + i) % 65536;
      var next := (cluster + 1) % 65536;
      if i == length - 1 {
        next := END_OF_CHAIN;
      }
      UpdateFat12ClusterEntry(table, cluster, next);
      i := i + 1;
    }
  }

  class MassStorage {
    var flash: Flash
    var eeprom: seq<Octet>
    var dir: seq<Octet>
    const boot: seq<Octet>
    const flashSize: nat
    const eepromSize: nat
    const span: nat
    var key: nat
    var code: nat
    var residue: nat
    var sent: seq<Sector>

    ghost function Contents(): Disk
      reads this
    {
      Disk(flash, eeprom, dir, boot, flashSize, eepromSize, span)
    }

    ghost function State(): Lun
      reads this
    {
      Lun(Contents(), key, code, residue, sent)
    }

    constructor (disk: Disk)
      requires disk.Valid()
      ensures State() == Lun(disk, GOOD, NO_ADDITIONAL_INFORMATION, 0, [])
    {
      flash, eeprom, dir, boot := disk.flash, disk.eeprom, disk.dir, disk.boot;
      flashSize, eepromSize, span := disk.flashSize, disk.eepromSize, disk.span;
      key, code, residue, sent := GOOD, NO_ADDITIONAL_INFORMATION, 0, [];
    }

    method ReadFlashFileBlock(block: nat, buffer: array<Octet>)
      requires Contents().Valid() && buffer.Length == SECTOR
      modifies buffer
      ensures buffer[..] == if Contents().InFlash(block) then Contents().ReadFlashFile(block) else old(buffer[..])
    {
      hide FlashBytes, StartBlock, FileSectors;
      var first := StartBlock(dir, FLASH_ENTRY);
      var last := (first + FileSectors(flashSize) - 1) % 65536;
      if !(first <= block <= last) {
        return;
      }
      LoadFlash((block - first) * SECTOR % span, buffer);
    }

    method LoadFlash(start: nat, buffer: array<Octet>)
      requires start < span && buffer.Length == SECTOR
      modifies buffer
      ensures buffer[..] == FlashBytes(flash, start, SECTOR, span)
    {
      hide Flash.Read, FlashBytes;
      var address: nat := start;
      SmallMod(start, span);
      NoBytes(flash, start, span);
      var i: nat := 0;
      while i < SECTOR
        invariant i <= SECTOR && buffer[..i] == FlashBytes(flash, start, i, span) && address == (start + i) % span
      {
        buffer[i] := flash.Read(address);
        OneMoreByte(flash, start, i, span);
        NextAddress(start + i, span);
        address := (address + 1) % span;
        i := i + 1;
        assert buffer[..i] == buffer[..i - 1] + [buffer[i - 1]];
      }
      assert buffer[..] == buffer[..SECTOR];
    }

    static lemma {:induction false} NoBytes(f: Flash, start: nat, span: nat)
      requires span > 0
      ensures FlashBytes(f, start, 0, span) == []
    {
    }

    static lemma {:induction false} OneMoreByte(f: Flash, start: nat, i: nat, span: nat)
      requires span > 0
      ensures FlashBytes(f, start, i + 1, span) == FlashBytes(f, start, i, span) + [f.Read((start + i) % span)]
    {
    }

    method ReadEepromFileBlock(block: nat, buffer: array<Octet>)
      requires Contents().Valid() && buffer.Length == SECTOR
      modifies buffer
      ensures buffer[..] == if Contents().InEeprom(block) then Contents().ReadEepromFile(block) else old(buffer[..])
    {
      var first := StartBlock(dir, EEPROM_ENTRY);
      var last := (first + FileSectors(eepromSize) - 1) % 65536;
      if !(first <= block <= last) {
        return;
      }
      var start := (block - first) * SECTOR % 65536;
      var address: nat := start;
      var i: nat := 0;
      while i < SECTOR
        invariant i <= SECTOR && buffer[..i] == EepromBytes(eeprom, start, i) && address == (start + i) % 65536
      {
        buffer[i] := LoadEeprom(eeprom, address);
        NextAddress(start + i, 65536);
        address := (address + 1) % 65536;
        i := i + 1;
        assert buffer[..i] == buffer[..i - 1] + [buffer[i - 1]];
      }
      assert buffer[..] == buffer[..SECTOR];
    }

    static lemma {:induction false} NextAddress(a: nat, span: nat)
      requires span > 0
      ensures (a % span + 1) % span == (a + 1) % span
    {
      var q, r := a / span, a % span;
      assert a == span * q + r;
      if r + 1 < span {
        DivModUnique(a + 1, span, q, r + 1);
        SmallMod(r + 1, span);
      } else {
        DivModUnique(a + 1, span, q + 1, 0);
        ModAddsPeriod(0, span);
      }
    }

    /** One word of a sector, with the page erased before it or written after it where a page begins or ends. */
    method WriteFlashWord(address: nat, low: Octet, high: Octet) returns (next: nat)
      requires flash.Valid() && span > 0
      modifies `flash
      ensures flash == ProgramStep(old(flash), address, low, high, span) && next == (address + 2) % span
    {
      hide Flash.Erase, Flash.Fill, Flash.Write, Flash.EnableRww;
      if address % flash.page == 0 {
        flash := flash.Erase(address);
        flash := flash.EnableRww();
      }
      flash := flash.Fill(address, low, high);
      next := (address + 2) % span;
      if next % flash.page == 0 {
        flash := flash.Write((next - flash.page) % span);
        flash := flash.EnableRww();
      }
    }

    method WriteFlashFileBlock(block: nat, data: Sector)
      requires Contents().Valid()
      modifies `flash
      ensures Contents() == old(Contents()).WriteFlashFile(block, data)
    {
      hide ProgramStep, StartBlock, FileSectors;
      var first := StartBlock(dir, FLASH_ENTRY);
      var last := (first + FileSectors(flashSize) - 1) % 65536;
      if !(first <= block <= last) {
        return;
      }
      var address: nat := (block - first) * SECTOR % span;
      ghost var start, f0 := address, flash;
      var i: nat := 0;
      while i < SECTOR
        invariant i <= SECTOR && i % 2 == 0 && flash.Valid()
        invariant ProgramWords(flash, address, data, i, span) == ProgramWords(f0, start, data, 0, span)
      {
        address := WriteFlashWord(address, data[i], data[i + 1]);
        i := i + 2;
      }
    }

    method WriteEepromFileBlock(block: nat, data: Sector)
      requires Contents().Valid()
      modifies `eeprom
      ensures Contents() == old(Contents()).WriteEepromFile(block, data)
    {
      hide StartBlock, FileSectors, StoreEeprom, Flash.Valid;
      var first := StartBlock(dir, EEPROM_ENTRY);
      var last := (first + FileSectors(eepromSize) - 1) % 65536;
      if !(first <= block <= last) {
        return;
      }
      var address: nat := (block - first) * SECTOR % 65536;
      ghost var start, e0 := address, eeprom;
      var i: nat := 0;
      while i < SECTOR
        invariant i <= SECTOR && StoreBytes(eeprom, address, data, i) == StoreBytes(e0, start, data, 0)
      {
        eeprom := StoreEeprom(eeprom, address, data[i]);
        address := (address + 1) % 65536;
        i := i + 1;
      }
    }

    method WriteBlock(block: nat, data: Sector)
      requires Contents().Valid()
      modifies `flash, `eeprom, `dir
      ensures Contents() == old(Contents()).WriteBlock(block, data) && Contents().Valid()
    {
      hide Disk.WriteFlashFile, Disk.WriteEepromFile;
      if block < ROOT_BLOCK {
      } else if block == ROOT_BLOCK {
        dir := data[..DIRECTORY];
      } else {
        WriteFlashFileBlock(block, data);
        WriteEepromFileBlock(block, data);
      }
    }

    method ReadBlock(block: nat) returns (sector: Sector)
      requires Contents().Valid()
      ensures sector == Contents().ReadBlock(block)
    {
      hide StartCluster, UpdateEntry, UpdateChain, Holds, Disk.ReadFlashFile, Disk.ReadEepromFile;
      var buffer := new Octet[SECTOR](i => 0);
      assert buffer[..] == Zeros();
      if block == 0 {
        Copy(boot, buffer);
        buffer[SECTOR - 2], buffer[SECTOR - 1] := 0x55, 0xAA;
        assert buffer[..] == boot + Zeros()[..SECTOR - BOOT_RECORD - 2] + [0x55, 0xAA];
      } else if block < ROOT_BLOCK {
        UpdateFat12ClusterEntry(buffer, 0, 0xFF8);
        UpdateFat12ClusterEntry(buffer, 1, 0xFFF);
        UpdateFat12ClusterChain(buffer, StartCluster(dir, FLASH_ENTRY), FileClusters(flashSize) % 256);
        UpdateFat12ClusterChain(buffer, StartCluster(dir, EEPROM_ENTRY), FileClusters(eepromSize) % 256);
      } else if block == ROOT_BLOCK {
        Copy(dir, buffer);
        assert buffer[..] == dir + Zeros()[..SECTOR - DIRECTORY];
      } else {
        ReadFlashFileBlock(block, buffer);
        ReadEepromFileBlock(block, buffer);
      }
      sector := buffer[..];
    }

    static method Copy(source: seq<Octet>, buffer: array<Octet>)
      requires |source| <= buffer.Length
      modifies buffer
      ensures buffer[..] == source + old(buffer[..])[|source|..]
    {
      forall i | 0 <= i < |source| {
        buffer[i] := source[i];
      }
    }

    /** READ (10) and WRITE (10): the sectors come from the host, or go to it. */
    method ReadWrite10(lba: nat, total: nat, read: bool, data: seq<Sector>) returns (ok: bool)
      requires Contents().Valid() && (!read ==> |data| == total)
      modifies this
      ensures State() == if read then Read10(old(State()), lba, total) else Write10(old(State()), lba, data)
      ensures ok == Accepts(old(Contents()), lba)
    {
      hide Disk.ReadBlock, Disk.WriteBlock, Disk.Valid;
      var address := lba % 65536;
      if address >= FileSectors(flashSize) + FileSectors(eepromSize) + 32 {
        key, code := ILLEGAL_REQUEST, ADDRESS_OUT_OF_RANGE;
        return false;
      }
      ghost var u := State();
      var i: nat := 0;
      while i < total
        invariant i <= total && Contents().Valid() && key == u.key && code == u.code && residue == u.residue
        invariant read ==> Contents() == u.disk && sent == u.sent + ReadBlocks(u.disk, address, i)
        invariant !read ==> Contents() == WriteBlocks(u.disk, address, data[..i]) && sent == u.sent
      {
        if read {
          var sector := ReadBlock((address + i) % 65536);
          sent := sent + [sector];
        } else {
          assert data[..i + 1][..i] == data[..i];
          WriteBlock((address + i) % 65536, data[i]);
        }
        i := i + 1;
      }
      assert !read ==> data[..total] == data;
      key, code := GOOD, NO_ADDITIONAL_INFORMATION;
      residue := (residue - total * SECTOR) % 0x1_0000_0000;
      ok := true;
    }
  }
}
