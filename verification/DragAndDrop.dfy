/** Programming the device by writing FLASH.BIN: what the disk is for. */
module DragAndDrop {
  import opened Arith
  import opened Memory
  import opened Fat12
  import opened VirtualDisk
  import opened DiskFiles
  import opened HostView
  import opened Scsi

  /** The blocks of FLASH.BIN are a range of file blocks of the disk. */
  lemma {:induction false} FlashRange(d: Disk)
    requires d.Fits() && Placed(d)
    ensures FileRange(d, StartBlock(d.dir, FLASH_ENTRY), FileSectors(d.flashSize))
  {
    hide StartBlock, Holds;
    FileBlocks(d.dir, FLASH_ENTRY, d.flashSize);
    ByteInFile(0, d.flashSize);
    assert StartBlock(d.dir, FLASH_ENTRY) + FileSectors(d.flashSize) <= 65536;
  }

  /** Placement depends on the directory and the sizes only. */
  lemma {:induction false} SamePlacement(d: Disk, e: Disk)
    requires SameFiles(d, e) && Placed(d)
    ensures Placed(e) && StartBlock(e.dir, FLASH_ENTRY) == StartBlock(d.dir, FLASH_ENTRY)
  {
  }

  /** A byte of flash below the file size is a byte of a block of FLASH.BIN. */
  lemma {:induction false} FlashByteInBlock(d: Disk, k: nat)
    requires d.Fits() && Placed(d) && k < d.flashSize
    ensures k < |d.flash.mem| && d.ReadBlock(StartBlock(d.dir, FLASH_ENTRY) + k / SECTOR)[k % SECTOR] == d.flash.mem[k]
  {
    hide StartBlock, StartCluster, Holds, Disk.ReadFlashFile, Disk.ReadEepromFile;
    var b := StartBlock(d.dir, FLASH_ENTRY) + k / SECTOR;
    ByteInFile(k, d.flashSize);
    FlashBlockOnly(d, k);
    FlashPlace(d, b);
    FlashReads(d, b);
  }

  /**
   * Writing all sectors of FLASH.BIN puts the file into flash, byte for byte, and leaves the EEPROM
   * file as it was.
   */
  lemma {:induction false} FileProgrammed(u: Lun, lba: nat, data: seq<Sector>, k: nat, j: nat)
    requires u.disk.Fits() && Placed(u.disk) && lba == StartBlock(u.disk.dir, FLASH_ENTRY) && Accepts(u.disk, lba)
    requires |data| == FileSectors(u.disk.flashSize) && k < u.disk.flashSize && j < u.disk.eepromSize
    ensures var v := Write10(u, lba, data);
      && v.key == GOOD && k < |v.disk.flash.mem| && k / SECTOR < |data| && v.disk.flash.mem[k] == data[k / SECTOR][k % SECTOR]
      && j < |v.disk.eeprom| && j < |u.disk.eeprom| && v.disk.eeprom[j] == u.disk.eeprom[j]
  {
    hide Disk.ReadBlock, Disk.WriteBlock, Holds, Disk.Valid, WriteBlocks, StartBlock, Disk.Fits, Placed;
    SmallMod(lba, 65536);
    FlashRange(u.disk);
    var e := WriteBlocks(u.disk, lba, data);
    ByteInFile(k, u.disk.flashSize);
    BlocksWritten(u.disk, lba, data, lba + k / SECTOR);
    SamePlacement(u.disk, e);
    FlashByteInBlock(e, k);
    EepromByteKept(u.disk, lba, data, j);
  }

  lemma {:induction false} EepromByteInBlock(d: Disk, j: nat)
    requires d.Fits() && Placed(d) && j < d.eepromSize
    ensures j < |d.eeprom| && d.ReadBlock(StartBlock(d.dir, EEPROM_ENTRY) + j / SECTOR)[j % SECTOR] == d.eeprom[j]
  {
    hide StartBlock, StartCluster, Holds, Disk.ReadFlashFile, Disk.ReadEepromFile;
    var b := StartBlock(d.dir, EEPROM_ENTRY) + j / SECTOR;
    ByteInFile(j, d.eepromSize);
    FileBlocks(d.dir, EEPROM_ENTRY, d.eepromSize);
    EepromPlace(d, b);
    EepromReads(d, b);
  }

  /** The blocks of EEPROM.BIN lie outside those of FLASH.BIN. */
  lemma {:induction false} EepromBlockOutside(d: Disk, j: nat)
    requires d.Fits() && Placed(d) && j < d.eepromSize
    ensures var s, b := StartBlock(d.dir, FLASH_ENTRY), StartBlock(d.dir, EEPROM_ENTRY) + j / SECTOR;
      b < s || b >= s + FileSectors(d.flashSize)
  {
    hide StartBlock, StartCluster, Holds;
    ByteInFile(j, d.eepromSize);
    ByteInFile(0, d.flashSize);
    FileBlocks(d.dir, FLASH_ENTRY, d.flashSize);
    FileBlocks(d.dir, EEPROM_ENTRY, d.eepromSize);
  }

  lemma {:induction false} EepromByteKept(d: Disk, lba: nat, data: seq<Sector>, j: nat)
    requires d.Fits() && Placed(d) && lba == StartBlock(d.dir, FLASH_ENTRY) && FileRange(d, lba, |data|)
    requires |data| == FileSectors(d.flashSize) && j < d.eepromSize
    ensures var e := WriteBlocks(d, lba, data); j < |e.eeprom| && j < |d.eeprom| && e.eeprom[j] == d.eeprom[j]
  {
    hide Disk.ReadBlock, Disk.WriteBlock, Holds, WriteBlocks, StartBlock, Disk.Fits, Placed, FileRange;
    var e := WriteBlocks(d, lba, data);
    BlocksWritten(d, lba, data, StartBlock(d.dir, EEPROM_ENTRY) + j / SECTOR);
    EepromBlockOutside(d, j);
    SamePlacement(d, e);
    EepromByteInBlock(d, j);
    EepromByteInBlock(e, j);
  }
}
