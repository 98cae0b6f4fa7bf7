/** Blocks written to the virtual disk are read back, and every other block stays what it was. */
module DiskFiles {
  import opened Arith
  import opened Memory
  import opened PageProgramming
  import opened Fat12
  import opened VirtualDisk

  // ---- One sector of flash ----

  lemma {:induction false} UnderwayReadable(f: Flash, f0: Flash, start: nat, data: seq<Octet>, q: nat, erased: bool)
    requires Underway(f, f0, start, data, q, 0, erased)
    ensures Underway(f.EnableRww(), f0, start, data, q, 0, erased)
  {
  }

  /** The page is erased before its first word. */
  lemma {:induction false} EraseFirst(f: Flash, f0: Flash, start: nat, data: Sector, q: nat, m: nat)
    requires Underway(f, f0, start, data, q, m, m > 0) && m < f.page
    ensures (start + q + m) % f.page == m
    ensures Underway(if m == 0 then ErasePage(f, start + q) else f, f0, start, data, q, m, true)
  {
    UnderwayShape(f, f0, start, data, q, m, m > 0);
    UnderwayAligned(f, f0, start, data, q, m, m > 0);
    AlignedSum(start, q, f.page);
    Aligned(start + q, m, f.page);
    hide Underway;
    if m == 0 {
      EraseStep(f, f0, start, data, q);
      UnderwayReadable(f.Erase(start + q), f0, start, data, q, true);
    }
  }

  /** The page is written after its last word. */
  lemma {:induction false} WriteAfterLast(f: Flash, f0: Flash, start: nat, data: Sector, q: nat, m: nat)
    requires Underway(f, f0, start, data, q, m, true) && 0 < m
    ensures (start + q + m) % f.page == 0 <==> m == f.page
    ensures m == f.page ==> Underway(WritePage(f, start + q), f0, start, data, q + f.page, 0, false)
  {
    UnderwayShape(f, f0, start, data, q, m, true);
    UnderwayAligned(f, f0, start, data, q, m, true);
    AlignedSum(start, q, f.page);
    hide Underway;
    if m < f.page {
      Aligned(start + q, m, f.page);
    } else {
      ModAddsPeriod(start + q, f.page);
      WriteFull(f, f0, start, data, q);
      UnderwayReadable(f.Write(start + q), f0, start, data, q + f.page, false);
    }
  }

  lemma {:induction false} WordProgrammed(f: Flash, f0: Flash, start: nat, data: Sector, q: nat, m: nat, span: nat)
    requires Underway(f, f0, start, data, q, m, m > 0) && m < f.page
    requires q + m + 2 <= SECTOR && start + SECTOR < span
    ensures m + 2 <= f.page
    ensures var g := ProgramStep(f, start + q + m, data[q + m], data[q + m + 1], span);
      && g.page == f.page
      && (m + 2 < f.page ==> Underway(g, f0, start, data, q, m + 2, true))
      && (m + 2 == f.page ==> Underway(g, f0, start, data, q + f.page, 0, false))
  {
    hide Underway, ErasePage, WritePage, Flash.Fill;
    UnderwayShape(f, f0, start, data, q, m, m > 0);
    EraseFirst(f, f0, start, data, q, m);
    var erased := if m == 0 then ErasePage(f, start + q) else f;
    FillStep(erased, f0, start, data, q, m);
    var filled := erased.Fill(start + q + m, data[q + m], data[q + m + 1]);
    WriteAfterLast(filled, f0, start, data, q, m + 2);
    SmallMod(start + q + m + 2, span);
    if m + 2 == f.page {
      SmallMod(start + q, span);
    }
  }

  lemma {:induction false} WordsProgrammed(f: Flash, f0: Flash, start: nat, data: Sector, q: nat, m: nat, span: nat)
    requires Underway(f, f0, start, data, q, m, m > 0) && m < f.page && SECTOR % f.page == 0
    requires start + SECTOR < span && (q + m) % 2 == 0
    ensures Programmed(ProgramWords(f, start + q + m, data, q + m, span), f0, start, data)
    decreases SECTOR - (q + m)
  {
    hide Underway, Programmed, ProgramStep;
    UnderwayShape(f, f0, start, data, q, m, m > 0);
    if q + m < SECTOR {
      WordProgrammed(f, f0, start, data, q, m, span);
      SmallMod(start + q + m + 2, span);
      var g := ProgramStep(f, start + q + m, data[q + m], data[q + m + 1], span);
      if m + 2 < f.page {
        WordsProgrammed(g, f0, start, data, q, m + 2, span);
      } else {
        WordsProgrammed(g, f0, start, data, q + f.page, 0, span);
      }
    } else {
      SectorEnds(f, f0, start, data, q, m);
    }
  }

  lemma {:induction false} SectorEnds(f: Flash, f0: Flash, start: nat, data: Sector, q: nat, m: nat)
    requires Underway(f, f0, start, data, q, m, m > 0) && m < f.page && SECTOR % f.page == 0 && q + m == SECTOR
    ensures Programmed(f, f0, start, data)
  {
    UnderwayShape(f, f0, start, data, q, m, m > 0);
    UnderwayAligned(f, f0, start, data, q, m, m > 0);
    hide Underway, Programmed;
    if m > 0 {
      Aligned(q, m, f.page);
    }
    UnderwayEnds(f, f0, start, data);
  }

  /** A sector written at a page boundary stands in flash, whatever the page buffer held before. */
  lemma {:induction false} SectorProgrammed(f: Flash, a: nat, data: Sector, span: nat)
    requires f.Valid() && SECTOR % f.page == 0 && a % f.page == 0 && a + SECTOR <= |f.mem| && a + SECTOR < span
    ensures Programmed(ProgramWords(f, a, data, 0, span), f, a, data)
  {
    hide ProgramStep, Programmed;
    var r := f.EnableRww();
    UnderwayStarts(r, a, data);
    WordsProgrammed(r, r, a, data, 0, 0, span);
    BufferForgotten(f, a, data[0], data[1], span);
    assert ProgramWords(f, a, data, 0, span) == ProgramWords(r, a, data, 0, span);
    ProgrammedFrom(ProgramWords(f, a, data, 0, span), r, f, a, data);
  }

  lemma {:induction false} BufferForgotten(f: Flash, a: nat, low: Octet, high: Octet, span: nat)
    requires f.Valid() && a % f.page == 0 && span > 0
    ensures ProgramStep(f, a, low, high, span) == ProgramStep(f.EnableRww(), a, low, high, span)
  {
    assert f.Erase(a).EnableRww() == f.EnableRww().Erase(a).EnableRww();
  }

  lemma {:induction false} ProgrammedFrom(f: Flash, r: Flash, f0: Flash, start: nat, data: seq<Octet>)
    requires Programmed(f, r, start, data) && SameShape(r, f0) && r.mem == f0.mem
    ensures Programmed(f, f0, start, data)
  {
  }

  // ---- One sector of EEPROM ----

  lemma {:induction false} OneByteStored(eeprom: seq<Octet>, a: nat, data: Sector, i: nat)
    requires i < SECTOR && a + SECTOR <= |eeprom|
    ensures var e := eeprom[a + i := data[i]];
      e[..a + i + 1] + data[i + 1..] + e[a + SECTOR..] == eeprom[..a + i] + data[i..] + eeprom[a + SECTOR..]
  {
    assert data[i..] == [data[i]] + data[i + 1..];
  }

  lemma {:induction false} BytesStored(eeprom: seq<Octet>, a: nat, data: Sector, i: nat)
    requires i <= SECTOR && a + i + (SECTOR - i) <= |eeprom| <= 65536
    ensures StoreBytes(eeprom, (a + i) % 65536, data, i) == eeprom[..a + i] + data[i..] + eeprom[a + SECTOR..]
    decreases SECTOR - i
  {
    if i < SECTOR {
      SmallMod(a + i, 65536);
      var e := eeprom[a + i := data[i]];
      BytesStored(e, a, data, i + 1);
      OneByteStored(eeprom, a, data, i);
    } else {
      assert eeprom[..a + i] + data[i..] + eeprom[a + SECTOR..] == eeprom;
    }
  }

  // ---- Blocks of the files ----

  /** A block of a file lies at its own sector of the memory, in range. */
  lemma {:induction false} FileOffset(dir: seq<Octet>, entry: nat, size: nat, block: nat)
    requires |dir| == DIRECTORY && entry < 5 && size > 0 && Holds(dir, entry, size, block)
    ensures var k := block - StartBlock(dir, entry); 0 <= k < FileSectors(size) && SECTOR * k + SECTOR <= SECTOR * FileSectors(size)
  {
    var start, n := StartBlock(dir, entry), FileSectors(size);
    assert n >= 1;
    assert (start + n - 1) % 65536 <= start + n - 1;
  }

  lemma {:induction false} FlashPlace(d: Disk, block: nat)
    requires d.Fits() && d.InFlash(block)
    ensures var a := d.FlashAddress(block);
      && a == SECTOR * (block - StartBlock(d.dir, FLASH_ENTRY)) && a % d.flash.page == 0
      && a + SECTOR <= |d.flash.mem| && a + SECTOR < d.span
  {
    FileOffset(d.dir, FLASH_ENTRY, d.flashSize, block);
    var k := block - StartBlock(d.dir, FLASH_ENTRY);
    SmallMod(SECTOR * k, d.span);
    SectorAligned(k, d.flash.page);
  }

  lemma {:induction false} SectorAligned(k: nat, page: nat)
    requires page > 0 && SECTOR % page == 0
    ensures SECTOR * k % page == 0
  {
    DivModUnique(SECTOR * k, page, SECTOR / page * k, 0);
  }

  lemma {:induction false} EepromPlace(d: Disk, block: nat)
    requires d.Fits() && d.InEeprom(block)
    ensures var a := d.EepromAddress(block);
      a == SECTOR * (block - StartBlock(d.dir, EEPROM_ENTRY)) && a + SECTOR <= |d.eeprom|
  {
    FileOffset(d.dir, EEPROM_ENTRY, d.eepromSize, block);
    SmallMod(SECTOR * (block - StartBlock(d.dir, EEPROM_ENTRY)), 65536);
  }

  /** A flash block reads as its sector of the memory. */
  lemma {:induction false} FlashReads(d: Disk, block: nat)
    requires d.Fits() && d.InFlash(block)
    ensures var a := d.FlashAddress(block); a + SECTOR <= |d.flash.mem| && d.ReadFlashFile(block) == d.flash.mem[a..a + SECTOR]
  {
    FlashPlace(d, block);
    var a := d.FlashAddress(block);
    forall i | 0 <= i < SECTOR
      ensures d.ReadFlashFile(block)[i] == d.flash.mem[a..a + SECTOR][i]
    {
      SmallMod(a + i, d.span);
      FlashBytesAt(d.flash, a, SECTOR, d.span, i);
    }
  }

  lemma {:induction false} EepromReads(d: Disk, block: nat)
    requires d.Fits() && d.InEeprom(block)
    ensures var a := d.EepromAddress(block); a + SECTOR <= |d.eeprom| && d.ReadEepromFile(block) == d.eeprom[a..a + SECTOR]
  {
    EepromPlace(d, block);
    var a := d.EepromAddress(block);
    forall i | 0 <= i < SECTOR
      ensures d.ReadEepromFile(block)[i] == d.eeprom[a..a + SECTOR][i]
    {
      SmallMod(a + i, 65536);
      EepromBytesAt(d.eeprom, a, SECTOR, i);
    }
  }

  /** Distinct blocks of a file share no byte. */
  lemma {:induction false} SectorsApart(j: int, k: int)
    requires j != k
    ensures SECTOR * j + SECTOR <= SECTOR * k || SECTOR * k + SECTOR <= SECTOR * j
  {
  }

  lemma {:induction false} RoundUpSector(page: nat)
    requires page > 0 && SECTOR % page == 0
    ensures RoundUp(SECTOR, page) == SECTOR
  {
  }

  /** Same directory and geometry: the files have the same blocks at the same addresses. */
  predicate SameFiles(d: Disk, e: Disk) {
    && d.Fits() && e.Fits() && d.dir == e.dir && d.flashSize == e.flashSize && d.eepromSize == e.eepromSize
    && d.boot == e.boot && d.span == e.span
  }

  lemma {:induction false} FlashWritten(d: Disk, block: nat, data: Sector)
    requires d.Fits() && d.InFlash(block)
    ensures var e := d.WriteFlashFile(block, data); SameFiles(d, e) && e.eeprom == d.eeprom && e.ReadFlashFile(block) == data
  {
    hide ProgramWords, Programmed;
    FlashPlace(d, block);
    SectorProgrammed(d.flash, d.FlashAddress(block), data, d.span);
    var e := d.WriteFlashFile(block, data);
    ProgrammedAt(e.flash, d.flash, d.FlashAddress(block), data);
    FlashReads(e, block);
  }

  lemma {:induction false} FlashKept(d: Disk, block: nat, data: Sector, other: nat)
    requires d.Fits() && d.InFlash(block) && d.InFlash(other) && other != block
    ensures var e := d.WriteFlashFile(block, data); e.InFlash(other) && e.ReadFlashFile(other) == d.ReadFlashFile(other)
  {
    hide ProgramWords, FlashBytes, StartBlock, Holds;
    FlashPlace(d, block);
    FlashPlace(d, other);
    SectorProgrammed(d.flash, d.FlashAddress(block), data, d.span);
    RoundUpSector(d.flash.page);
    SectorsApart(block - StartBlock(d.dir, FLASH_ENTRY), other - StartBlock(d.dir, FLASH_ENTRY));
    var e := d.WriteFlashFile(block, data);
    FlashReads(d, other);
    FlashReads(e, other);
    var a := d.FlashAddress(other);
    assert e.flash.mem[a..a + SECTOR] == d.flash.mem[a..a + SECTOR];
  }

  lemma {:induction false} EepromWritten(d: Disk, block: nat, data: Sector)
    requires d.Fits() && d.InEeprom(block)
    ensures var e := d.WriteEepromFile(block, data); SameFiles(d, e) && e.flash == d.flash && e.ReadEepromFile(block) == data
  {
    hide StoreBytes;
    EepromPlace(d, block);
    var a := d.EepromAddress(block);
    SmallMod(a, 65536);
    BytesStored(d.eeprom, a, data, 0);
    var e := d.WriteEepromFile(block, data);
    EepromReads(e, block);
    assert e.eeprom[a..a + SECTOR] == data;
  }

  lemma {:induction false} EepromKept(d: Disk, block: nat, data: Sector, other: nat)
    requires d.Fits() && d.InEeprom(block) && d.InEeprom(other) && other != block
    ensures var e := d.WriteEepromFile(block, data); e.InEeprom(other) && e.ReadEepromFile(other) == d.ReadEepromFile(other)
  {
    hide StoreBytes, EepromBytes, StartBlock, Holds;
    EepromPlace(d, block);
    EepromPlace(d, other);
    var a, b := d.EepromAddress(block), d.EepromAddress(other);
    SmallMod(a, 65536);
    BytesStored(d.eeprom, a, data, 0);
    SectorsApart(block - StartBlock(d.dir, EEPROM_ENTRY), other - StartBlock(d.dir, EEPROM_ENTRY));
    var e := d.WriteEepromFile(block, data);
    EepromReads(d, other);
    EepromReads(e, other);
    SliceKept(d.eeprom, a, data, b);
  }

  lemma {:induction false} SliceKept(s: seq<Octet>, a: nat, data: Sector, b: nat)
    requires a + SECTOR <= |s| && b + SECTOR <= |s| && (a + SECTOR <= b || b + SECTOR <= a)
    ensures (s[..a] + data + s[a + SECTOR..])[b..b + SECTOR] == s[b..b + SECTOR]
  {
  }

  // ---- The disk as the host sees it ----

  /** A block of a file reads back as it was written. */
  lemma {:induction false} WrittenBlockReads(d: Disk, block: nat, data: Sector)
    requires d.Fits() && d.FileBlock(block)
    ensures var e := d.WriteBlock(block, data); SameFiles(d, e) && e.ReadBlock(block) == data
  {
    hide Disk.ReadFlashFile, Disk.ReadEepromFile, Disk.FlashAddress, Disk.EepromAddress, ProgramWords, StoreBytes, Holds, Disk.Fits,
         Zeros, Flash.Valid, Disk.Valid;
    var e := d.WriteFlashFile(block, data);
    if d.InFlash(block) {
      FlashWritten(d, block, data);
    }
    if e.InEeprom(block) {
      EepromWritten(e, block, data);
    }
  }

  /** The EEPROM file depends on the directory and the EEPROM only. */
  lemma {:induction false} EepromFrame(d: Disk, e: Disk, block: nat)
    requires d.Valid() && e.Valid() && d.dir == e.dir && d.eeprom == e.eeprom
    ensures d.ReadEepromFile(block) == e.ReadEepromFile(block)
  {
  }

  lemma {:induction false} FlashFrame(d: Disk, e: Disk, block: nat)
    requires d.Valid() && e.Valid() && d.dir == e.dir && d.flash == e.flash && d.span == e.span
    ensures d.ReadFlashFile(block) == e.ReadFlashFile(block)
  {
  }

  lemma {:induction false} FlashStage(d: Disk, block: nat, data: Sector, other: nat)
    requires d.Fits() && other != block
    ensures var e := d.WriteFlashFile(block, data); SameFiles(d, e) && e.ReadData(other) == d.ReadData(other)
  {
    hide Disk.ReadFlashFile, Disk.ReadEepromFile, Disk.FlashAddress, ProgramWords, Holds, Disk.Fits, Zeros, Flash.Valid, Disk.Valid;
    if d.InFlash(block) {
      FlashWritten(d, block, data);
      EepromFrame(d, d.WriteFlashFile(block, data), other);
      if d.InFlash(other) {
        FlashKept(d, block, data, other);
      }
    }
  }

  lemma {:induction false} EepromStage(d: Disk, block: nat, data: Sector, other: nat)
    requires d.Fits() && other != block
    ensures var e := d.WriteEepromFile(block, data); SameFiles(d, e) && e.ReadData(other) == d.ReadData(other)
  {
    hide Disk.ReadFlashFile, Disk.ReadEepromFile, Disk.EepromAddress, StoreBytes, Holds, Disk.Fits, Zeros, Flash.Valid, Disk.Valid;
    if d.InEeprom(block) {
      EepromWritten(d, block, data);
      FlashFrame(d, d.WriteEepromFile(block, data), other);
      if d.InEeprom(other) {
        EepromKept(d, block, data, other);
      }
    }
  }

  /** A write of any block but the directory leaves every other block as it was. */
  lemma {:induction false} OtherBlocksKept(d: Disk, block: nat, data: Sector, other: nat)
    requires d.Fits() && block != ROOT_BLOCK && other != block
    ensures var e := d.WriteBlock(block, data); SameFiles(d, e) && e.ReadBlock(other) == d.ReadBlock(other)
  {
    hide Disk.ReadData, Disk.WriteFlashFile, Disk.WriteEepromFile, Table, Zeros, Disk.Fits;
    if block > ROOT_BLOCK {
      FlashStage(d, block, data, other);
      EepromStage(d.WriteFlashFile(block, data), block, data, other);
    }
  }
}
