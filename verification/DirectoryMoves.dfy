/**
 * Writing the directory block: a host may put the two files on other clusters, and from then on
 * table, reads and writes follow it.
 */
module DirectoryMoves {
  import opened Arith
  import opened Memory
  import opened Options
  import opened Fat12
  import opened VirtualDisk
  import opened DiskFiles
  import opened HostView
  import opened Scsi
  import opened DragAndDrop

  /** The directory block reads back as its first 160 bytes and zeros; the memories stay. */
  lemma {:induction false} DirectoryReadsBack(d: Disk, sector: Sector)
    requires d.Valid()
    ensures var e := d.WriteBlock(ROOT_BLOCK, sector);
      && e.ReadBlock(ROOT_BLOCK)[..DIRECTORY] == sector[..DIRECTORY]
      && (forall i | DIRECTORY <= i < SECTOR :: e.ReadBlock(ROOT_BLOCK)[i] == 0)
      && e.flash == d.flash && e.eeprom == d.eeprom && (d.Fits() ==> e.Fits())
  {
  }

  /** The new first clusters are the little-endian words at bytes 90 and 154 of the block. */
  lemma {:induction false} StartsMoved(d: Disk, sector: Sector)
    requires d.Valid()
    ensures var e := d.WriteBlock(ROOT_BLOCK, sector);
      && StartCluster(e.dir, FLASH_ENTRY) == sector[90] as int + 256 * sector[91] as int
      && StartCluster(e.dir, EEPROM_ENTRY) == sector[154] as int + 256 * sector[155] as int
  {
  }

  /** Where the new directory places the files, a host finds flash in FLASH.BIN as before, and EEPROM in EEPROM.BIN. */
  lemma {:induction false} MovedFilesRead(d: Disk, sector: Sector, k: nat, j: nat)
    requires d.Fits() && Placed(d.WriteBlock(ROOT_BLOCK, sector)) && k < d.flashSize && j < d.eepromSize
    ensures var e := d.WriteBlock(ROOT_BLOCK, sector);
      && k < |d.flash.mem| && j < |d.eeprom|
      && (!Lost(e) ==> FileByte(e, FLASH_ENTRY, k) == Some(d.flash.mem[k]))
      && FileByte(e, EEPROM_ENTRY, j) == Some(d.eeprom[j])
  {
    DirectoryReadsBack(d, sector);
    hide FileByte, Placed, Lost, Disk.Fits;
    var e := d.WriteBlock(ROOT_BLOCK, sector);
    HostReadsEeprom(e, j);
    FlashByteInBlock(e, k);
    if !Lost(e) {
      HostReadsFlash(e, k);
    }
  }

  /** One sector is one block. */
  lemma {:induction false} OneBlock(u: Lun, sector: Sector)
    requires u.disk.Valid()
    ensures Write10(u, ROOT_BLOCK, [sector]).disk == u.disk.WriteBlock(ROOT_BLOCK, sector)
  {
    hide Disk.WriteBlock, Disk.Valid;
    assert [sector][..0] == [];
    assert WriteBlocks(u.disk, ROOT_BLOCK, []) == u.disk;
    assert WriteBlocks(u.disk, ROOT_BLOCK, [sector]) == u.disk.WriteBlock(ROOT_BLOCK, sector);
  }

  /**
   * A WRITE (10) of the directory block that moves the files, then one of all sectors of FLASH.BIN
   * at its new place: every byte of the file is at its address in flash, where a host that follows
   * directory and table finds it, and every byte of EEPROM.BIN is as it was.
   */
  lemma {:induction false} MovedFileProgrammed(u: Lun, sector: Sector, lba: nat, data: seq<Sector>, k: nat, j: nat)
    requires u.disk.Fits() && Placed(u.disk.WriteBlock(ROOT_BLOCK, sector))
    requires lba == StartBlock(sector[..DIRECTORY], FLASH_ENTRY) && lba < MediaBlocks(u.disk)
    requires |data| == FileSectors(u.disk.flashSize) && k < u.disk.flashSize && j < u.disk.eepromSize
    ensures var v := Write10(Write10(u, ROOT_BLOCK, [sector]), lba, data);
      && v.key == GOOD && k < |v.disk.flash.mem| && k / SECTOR < |data| && v.disk.flash.mem[k] == data[k / SECTOR][k % SECTOR]
      && (!Lost(v.disk) ==> FileByte(v.disk, FLASH_ENTRY, k) == Some(data[k / SECTOR][k % SECTOR]))
      && j < |v.disk.eeprom| && j < |u.disk.eeprom| && v.disk.eeprom[j] == u.disk.eeprom[j]
  {
    var e := u.disk.WriteBlock(ROOT_BLOCK, sector);
    DirectoryReadsBack(u.disk, sector);
    assert e.dir == sector[..DIRECTORY] && e.flashSize == u.disk.flashSize && e.eepromSize == u.disk.eepromSize;
    hide FileByte, Placed, Lost, Disk.Fits, Disk.WriteBlock, Disk.ReadBlock, Disk.Valid, StartBlock, WriteBlocks;
    OneBlock(u, sector);
    var w := Write10(u, ROOT_BLOCK, [sector]);
    SmallMod(lba, 65536);
    FileProgrammed(w, lba, data, k, j);
    var v := Write10(w, lba, data);
    FlashRange(e);
    BlocksWritten(e, lba, data, 0);
    SamePlacement(e, v.disk);
    if !Lost(v.disk) {
      HostReadsFlash(v.disk, k);
    }
  }
}
