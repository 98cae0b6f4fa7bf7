/**
 * The virtual FAT12 disk of the mass-storage bootloader: a boot block, two copies of the table, one
 * directory block, and two files whose blocks are the flash and the EEPROM of the device.
 */
module VirtualDisk {
  import opened Arith
  import opened Memory
  import opened PageProgramming
  import opened Fat12

  const ROOT_BLOCK: nat := 3
  const DATA_START: nat := 4
  const SECTORS_PER_CLUSTER: nat := 4
  const CLUSTER: nat := 2048
  const DIRECTORY: nat := 160
  const BOOT_RECORD: nat := 62
  const FLASH_ENTRY: nat := 2
  const EEPROM_ENTRY: nat := 4

  function FileSectors(size: nat): nat {
    size / SECTOR + if size % SECTOR != 0 then 1 else 0
  }

  function FileClusters(size: nat): nat {
    size / CLUSTER + if size % CLUSTER != 0 then 1 else 0
  }

  /** The bootloader's interface to flash: erasing and writing a page also reopen the memory for reading. */
  function ErasePage(f: Flash, a: nat): (g: Flash)
    requires f.Valid()
    ensures g.Valid() && g.page == f.page && g.boot == f.boot && |g.mem| == |f.mem|
  {
    f.Erase(a).EnableRww()
  }

  function WritePage(f: Flash, a: nat): (g: Flash)
    requires f.Valid()
    ensures g.Valid() && g.page == f.page && g.boot == f.boot && |g.mem| == |f.mem|
  {
    f.Write(a).EnableRww()
  }

  /** One word of a sector: the page is erased at its first word and written after its last. */
  function ProgramStep(f: Flash, a: nat, low: Octet, high: Octet, span: nat): (g: Flash)
    requires f.Valid() && span > 0
    ensures g.Valid() && g.page == f.page && g.boot == f.boot && |g.mem| == |f.mem|
  {
    var erased := if a % f.page == 0 then ErasePage(f, a) else f;
    var filled := erased.Fill(a, low, high);
    var next := (a + 2) % span;
    if next % f.page == 0 then WritePage(filled, (next - f.page) % span) else filled
  }

  /** The words of a sector from index i on; addresses are counted modulo span. */
  function ProgramWords(f: Flash, a: nat, data: Sector, i: nat, span: nat): (g: Flash)
    requires f.Valid() && span > 0 && i % 2 == 0
    ensures g.Valid() && g.page == f.page && g.boot == f.boot && |g.mem| == |f.mem|
    decreases SECTOR - i
  {
    if i >= SECTOR then f
    else ProgramWords(ProgramStep(f, a, data[i], data[i + 1], span), (a + 2) % span, data, i + 2, span)
  }

  function StoreBytes(eeprom: seq<Octet>, a: nat, data: Sector, i: nat): (r: seq<Octet>)
    ensures |r| == |eeprom|
    decreases SECTOR - i
  {
    if i >= SECTOR then eeprom else StoreBytes(StoreEeprom(eeprom, a, data[i]), (a + 1) % 65536, data, i + 1)
  }

  /** n bytes of flash, the address counted modulo span. */
  function FlashBytes(f: Flash, a: nat, n: nat, span: nat): (s: seq<Octet>)
    requires span > 0
    ensures |s| == n
  {
    if n == 0 then [] else FlashBytes(f, a, n - 1, span) + [f.Read((a + n - 1) % span)]
  }

  lemma {:induction false} FlashBytesAt(f: Flash, a: nat, n: nat, span: nat, i: nat)
    requires span > 0 && i < n
    ensures FlashBytes(f, a, n, span)[i] == f.Read((a + i) % span)
  {
    if i < n - 1 {
      FlashBytesAt(f, a, n - 1, span, i);
    }
  }

  function EepromBytes(eeprom: seq<Octet>, a: nat, n: nat): (s: seq<Octet>)
    ensures |s| == n
  {
    if n == 0 then [] else EepromBytes(eeprom, a, n - 1) + [LoadEeprom(eeprom, (a + n - 1) % 65536)]
  }

  lemma {:induction false} EepromBytesAt(eeprom: seq<Octet>, a: nat, n: nat, i: nat)
    requires i < n
    ensures EepromBytes(eeprom, a, n)[i] == LoadEeprom(eeprom, (a + i) % 65536)
  {
    if i < n - 1 {
      EepromBytesAt(eeprom, a, n - 1, i);
    }
  }

  /** The first cluster of a file, from its directory entry. */
  function StartCluster(dir: seq<Octet>, entry: nat): (c: nat)
    requires |dir| == DIRECTORY && entry < 5
    ensures c < 65536
  {
    var low: int, high: int := dir[32 * entry + 26], dir[32 * entry + 27];
    low + 256 * high
  }

  /** The first block of a file, in sixteen bits. */
  function StartBlock(dir: seq<Octet>, entry: nat): (b: nat)
    requires |dir| == DIRECTORY && entry < 5
    ensures b < 65536
  {
    (DATA_START + (StartCluster(dir, entry) - 2) * SECTORS_PER_CLUSTER) % 65536
  }

  predicate Holds(dir: seq<Octet>, entry: nat, size: nat, block: nat)
    requires |dir| == DIRECTORY && entry < 5
  {
    StartBlock(dir, entry) <= block <= (StartBlock(dir, entry) + FileSectors(size) - 1) % 65536
  }

  datatype Disk = Disk(flash: Flash, eeprom: seq<Octet>, dir: seq<Octet>, boot: seq<Octet>,
                       flashSize: nat, eepromSize: nat, span: nat) {
    predicate Valid() {
      flash.Valid() && |dir| == DIRECTORY && |boot| == BOOT_RECORD && span > 0
    }

    /**
     * What holds of the chips the bootloader is built for: pages divide sectors, and the sectors of
     * either file lie within its memory and within the reach of its address variable.
     */
    predicate Fits()
      ensures Fits() ==> Valid()
    {
      && Valid() && SECTOR % flash.page == 0
      && flashSize > 0 && SECTOR * FileSectors(flashSize) <= |flash.mem| && SECTOR * FileSectors(flashSize) < span
      && eepromSize > 0 && SECTOR * FileSectors(eepromSize) <= |eeprom| && |eeprom| <= 65536
    }

    predicate InFlash(block: nat)
      requires Valid()
    {
      Holds(dir, FLASH_ENTRY, flashSize, block)
    }

    predicate InEeprom(block: nat)
      requires Valid()
    {
      Holds(dir, EEPROM_ENTRY, eepromSize, block)
    }

    function FlashAddress(block: nat): (a: nat)
      requires Valid()
    {
      (block - StartBlock(dir, FLASH_ENTRY)) * SECTOR % span
    }

    function EepromAddress(block: nat): (a: nat)
      requires Valid()
    {
      (block - StartBlock(dir, EEPROM_ENTRY)) * SECTOR % 65536
    }

    function ReadFlashFile(block: nat): Sector
      requires Valid()
    {
      FlashBytes(flash, FlashAddress(block), SECTOR, span)
    }

    function ReadEepromFile(block: nat): Sector
      requires Valid()
    {
      EepromBytes(eeprom, EepromAddress(block), SECTOR)
    }

    function WriteFlashFile(block: nat, data: Sector): (d: Disk)
      requires Valid()
      ensures d.Valid() && d == this.(flash := d.flash)
    {
      if InFlash(block) then this.(flash := ProgramWords(flash, FlashAddress(block), data, 0, span)) else this
    }

    function WriteEepromFile(block: nat, data: Sector): (d: Disk)
      requires Valid()
      ensures d.Valid() && d == this.(eeprom := d.eeprom)
    {
      if InEeprom(block) then this.(eeprom := StoreBytes(eeprom, EepromAddress(block), data, 0)) else this
    }

    /** The data blocks: a block of neither file reads as zeros. */
    function ReadData(block: nat): Sector
      requires Valid()
    {
      if InEeprom(block) then ReadEepromFile(block) else if InFlash(block) then ReadFlashFile(block) else Zeros()
    }

    function ReadBlock(block: nat): Sector
      requires Valid()
    {
      if block == 0 then boot + Zeros()[..SECTOR - BOOT_RECORD - 2] + [0x55, 0xAA]
      else if block < ROOT_BLOCK then
        Table(StartCluster(dir, FLASH_ENTRY), FileClusters(flashSize) % 256, StartCluster(dir, EEPROM_ENTRY), FileClusters(eepromSize) % 256)
      else if block == ROOT_BLOCK then dir + Zeros()[..SECTOR - DIRECTORY]
      else ReadData(block)
    }

    function WriteBlock(block: nat, data: Sector): (d: Disk)
      requires Valid()
      ensures d.Valid()
    {
      if block < ROOT_BLOCK then this
      else if block == ROOT_BLOCK then this.(dir := data[..DIRECTORY])
      else WriteFlashFile(block, data).WriteEepromFile(block, data)
    }

    /** A block of one of the two files. */
    predicate FileBlock(block: nat)
      requires Valid()
    {
      block >= DATA_START && (InFlash(block) || InEeprom(block))
    }
  }
}
