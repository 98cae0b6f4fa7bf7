/**
 * The files as a host finds them: it takes the first cluster from the directory, walks the
 * allocation table, and reads the blocks of the clusters it meets.
 */
module HostView {
  import opened Arith
  import opened Memory
  import opened Options
  import opened Fat12
  import opened VirtualDisk
  import opened DiskFiles

  const TABLE_BLOCK: nat := 1

  /** The directory, as the host reads it from its block. */
  function DirectorySeen(d: Disk): (dir: seq<Octet>)
    requires d.Valid()
    ensures |dir| == DIRECTORY
  {
    d.ReadBlock(ROOT_BLOCK)[..DIRECTORY]
  }

  lemma {:induction false} DirectoryShown(d: Disk)
    requires d.Valid()
    ensures DirectorySeen(d) == d.dir
  {
    hide Zeros;
  }

  /** The boot block is the boot record, zeros, and the two signature bytes at the end. */
  lemma {:induction false} BootBlockShown(d: Disk)
    requires d.Valid()
    ensures var b := d.ReadBlock(0); b[..BOOT_RECORD] == d.boot && b[510] == 0x55 && b[511] == 0xAA
    ensures forall i | BOOT_RECORD <= i < 510 :: d.ReadBlock(0)[i] == 0
  {
  }

  /** The clusters of a file, in order, as directory and table give them. */
  function Clusters(d: Disk, entry: nat): Option<seq<nat>>
    requires d.Valid() && entry < 5
  {
    Walk(d.ReadBlock(TABLE_BLOCK), StartCluster(DirectorySeen(d), entry), LAST_ENTRY)
  }

  /** The disk block that holds byte k of a file whose clusters are given. */
  function BlockOfByte(clusters: seq<nat>, k: nat): int
    requires k / CLUSTER < |clusters|
  {
    DATA_START + (clusters[k / CLUSTER] - 2) * SECTORS_PER_CLUSTER + k % CLUSTER / SECTOR
  }

  /** Byte k of a file, for a host that follows the table. */
  function FileByte(d: Disk, entry: nat, k: nat): Option<Octet>
    requires d.Valid() && entry < 5
  {
    var clusters := Clusters(d, entry);
    if clusters.None? || k / CLUSTER >= |clusters.value| || BlockOfByte(clusters.value, k) < 0 then None
    else Some(d.ReadBlock(BlockOfByte(clusters.value, k))[k % SECTOR])
  }

  /** The directory places the two files on clusters of their own, within reach of the table code. */
  predicate Placed(d: Disk)
    requires d.Valid()
  {
    Disjoint(StartCluster(d.dir, FLASH_ENTRY), FileClusters(d.flashSize), StartCluster(d.dir, EEPROM_ENTRY), FileClusters(d.eepromSize))
  }

  /** FLASH.BIN follows EEPROM.BIN directly, from an odd cluster on, and has several clusters. */
  predicate Lost(d: Disk)
    requires d.Valid()
  {
    && Clobbers(StartCluster(d.dir, FLASH_ENTRY), FileClusters(d.flashSize), StartCluster(d.dir, EEPROM_ENTRY), FileClusters(d.eepromSize))
    && FileClusters(d.flashSize) > 1
  }

  lemma {:induction false} ClustersFound(d: Disk)
    requires d.Fits() && Placed(d)
    ensures Clusters(d, EEPROM_ENTRY) == Some(Consecutive(StartCluster(d.dir, EEPROM_ENTRY), FileClusters(d.eepromSize)))
    ensures Clusters(d, FLASH_ENTRY) == Some(Consecutive(StartCluster(d.dir, FLASH_ENTRY), FileClusters(d.flashSize))) <==> !Lost(d)
  {
    DirectoryShown(d);
    hide Walk, Table, StartCluster, DirectorySeen;
    var n1, n2 := FileClusters(d.flashSize), FileClusters(d.eepromSize);
    SmallMod(n1, 256);
    SmallMod(n2, 256);
    ChainsReadBack(StartCluster(d.dir, FLASH_ENTRY), n1, StartCluster(d.dir, EEPROM_ENTRY), n2, LAST_ENTRY);
  }

  lemma {:induction false} ByteInFile(k: nat, size: nat)
    requires k < size
    ensures k / CLUSTER < FileClusters(size) && k / SECTOR < FileSectors(size)
    ensures FileSectors(size) <= SECTORS_PER_CLUSTER * FileClusters(size)
    ensures k / SECTOR == SECTORS_PER_CLUSTER * (k / CLUSTER) + k % CLUSTER / SECTOR
    ensures SECTOR * (k / SECTOR) + k % SECTOR == k
  {
  }

  /** A file at clusters of the table starts at the block of its first cluster. */
  lemma {:induction false} FileBlocks(dir: seq<Octet>, entry: nat, size: nat)
    requires |dir| == DIRECTORY && entry < 5 && size > 0
    requires 2 <= StartCluster(dir, entry) && StartCluster(dir, entry) + FileClusters(size) <= LAST_REACHED + 1
    ensures StartBlock(dir, entry) == DATA_START + (StartCluster(dir, entry) - 2) * SECTORS_PER_CLUSTER
    ensures forall b: nat :: Holds(dir, entry, size, b) <==> StartBlock(dir, entry) <= b < StartBlock(dir, entry) + FileSectors(size)
  {
    ByteInFile(0, size);
    var s := StartBlock(dir, entry);
    SmallMod(s + FileSectors(size) - 1, 65536);
  }

  lemma {:induction false} ByteBlock(s: nat, n: nat, k: nat)
    requires k / CLUSTER < n && s >= 2
    ensures BlockOfByte(Consecutive(s, n), k) == DATA_START + (s - 2) * SECTORS_PER_CLUSTER + k / SECTOR
  {
    ByteInFile(k, k + 1);
  }

  /** The blocks of FLASH.BIN are not blocks of EEPROM.BIN. */
  lemma {:induction false} FlashBlockOnly(d: Disk, k: nat)
    requires d.Fits() && Placed(d) && k < d.flashSize
    ensures var b := StartBlock(d.dir, FLASH_ENTRY) + k / SECTOR; d.InFlash(b) && !d.InEeprom(b) && b >= DATA_START
  {
    hide StartBlock, StartCluster, Holds;
    ByteInFile(k, d.flashSize);
    ByteInFile(0, d.eepromSize);
    FileBlocks(d.dir, FLASH_ENTRY, d.flashSize);
    FileBlocks(d.dir, EEPROM_ENTRY, d.eepromSize);
  }

  /** A host that follows the table reads the flash memory in FLASH.BIN, unless the file is lost. */
  lemma {:induction false} HostReadsFlash(d: Disk, k: nat)
    requires d.Fits() && Placed(d) && !Lost(d) && k < d.flashSize
    ensures k < |d.flash.mem| && FileByte(d, FLASH_ENTRY, k) == Some(d.flash.mem[k])
  {
    hide StartBlock, StartCluster, Holds, Clusters, Disk.ReadFlashFile, Disk.ReadEepromFile, Consecutive;
    var s, n := StartCluster(d.dir, FLASH_ENTRY), FileClusters(d.flashSize);
    var b := StartBlock(d.dir, FLASH_ENTRY) + k / SECTOR;
    ClustersFound(d);
    ByteInFile(k, d.flashSize);
    FileBlocks(d.dir, FLASH_ENTRY, d.flashSize);
    ByteBlock(s, n, k);
    FlashBlockOnly(d, k);
    FlashPlace(d, b);
    FlashReads(d, b);
  }

  /** A host that follows the table reads the EEPROM in EEPROM.BIN. */
  lemma {:induction false} HostReadsEeprom(d: Disk, k: nat)
    requires d.Fits() && Placed(d) && k < d.eepromSize
    ensures k < |d.eeprom| && FileByte(d, EEPROM_ENTRY, k) == Some(d.eeprom[k])
  {
    hide StartBlock, StartCluster, Holds, Clusters, Disk.ReadFlashFile, Disk.ReadEepromFile, Consecutive;
    var s, n := StartCluster(d.dir, EEPROM_ENTRY), FileClusters(d.eepromSize);
    var b := StartBlock(d.dir, EEPROM_ENTRY) + k / SECTOR;
    ClustersFound(d);
    ByteInFile(k, d.eepromSize);
    FileBlocks(d.dir, EEPROM_ENTRY, d.eepromSize);
    ByteBlock(s, n, k);
    EepromPlace(d, b);
    EepromReads(d, b);
  }

  /** A data block of neither file reads as zeros, and writes to it are ignored; so are writes to the boot and table blocks. */
  lemma {:induction false} OutsideFiles(d: Disk, block: nat, data: Sector)
    requires d.Valid() && block != ROOT_BLOCK && !d.FileBlock(block)
    ensures d.WriteBlock(block, data) == d
    ensures block > ROOT_BLOCK ==> forall i | 0 <= i < SECTOR :: d.ReadBlock(block)[i] == 0
  {
    hide Holds, ProgramWords, StoreBytes;
  }

  /** The sectors and clusters of a file hold its size, and with one less they would not. */
  lemma {:induction false} FileUnits(size: nat)
    requires size > 0
    ensures SECTOR * (FileSectors(size) - 1) < size <= SECTOR * FileSectors(size)
    ensures CLUSTER * (FileClusters(size) - 1) < size <= CLUSTER * FileClusters(size)
  {
    assert size == SECTOR * (size / SECTOR) + size % SECTOR;
    assert size == CLUSTER * (size / CLUSTER) + size % CLUSTER;
  }
}
