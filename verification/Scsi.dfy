/** The SCSI READ (10) and WRITE (10) commands over the virtual disk. */
module Scsi {
  import opened Arith
  import opened Memory
  import opened Fat12
  import opened VirtualDisk
  import opened DiskFiles

  const GOOD: nat := 0x00
  const ILLEGAL_REQUEST: nat := 0x05
  const NO_ADDITIONAL_INFORMATION: nat := 0x00
  const ADDRESS_OUT_OF_RANGE: nat := 0x21

  /** The disk, the sense data, the bytes of the transfer still owed, and the sectors sent to the host. */
  datatype Lun = Lun(disk: Disk, key: nat, code: nat, residue: nat, sent: seq<Sector>)

  function MediaBlocks(d: Disk): nat {
    FileSectors(d.flashSize) + FileSectors(d.eepromSize) + 32
  }

  /** The blocks from address on take the sectors in turn; block numbers have sixteen bits. */
  function WriteBlocks(d: Disk, address: nat, data: seq<Sector>): (e: Disk)
    requires d.Valid()
    ensures e.Valid()
    decreases |data|
  {
    if data == [] then d
    else
      var before := WriteBlocks(d, address, data[..|data| - 1]);
      before.WriteBlock((address + |data| - 1) % 65536, data[|data| - 1])
  }

  function ReadBlocks(d: Disk, address: nat, n: nat): (s: seq<Sector>)
    requires d.Valid()
    ensures |s| == n
  {
    if n == 0 then [] else ReadBlocks(d, address, n - 1) + [d.ReadBlock((address + n - 1) % 65536)]
  }

  lemma {:induction false} ReadBlocksAt(d: Disk, address: nat, n: nat, i: nat)
    requires d.Valid() && i < n
    ensures ReadBlocks(d, address, n)[i] == d.ReadBlock((address + i) % 65536)
  {
    hide Disk.ReadBlock, Disk.Valid;
    if i < n - 1 {
      ReadBlocksAt(d, address, n - 1, i);
    }
  }

  /** The command accepts its block address once that is cut to sixteen bits. */
  predicate Accepts(d: Disk, lba: nat) {
    lba % 65536 < MediaBlocks(d)
  }

  function Refuse(u: Lun): Lun {
    u.(key := ILLEGAL_REQUEST, code := ADDRESS_OUT_OF_RANGE)
  }

  function Succeed(u: Lun, n: nat): Lun {
    u.(key := GOOD, code := NO_ADDITIONAL_INFORMATION, residue := (u.residue - n * SECTOR) % 0x1_0000_0000)
  }

  function Write10(u: Lun, lba: nat, data: seq<Sector>): (v: Lun)
    requires u.disk.Valid()
    ensures v.disk.Valid()
  {
    if !Accepts(u.disk, lba) then Refuse(u)
    else Succeed(u.(disk := WriteBlocks(u.disk, lba % 65536, data)), |data|)
  }

  function Read10(u: Lun, lba: nat, n: nat): (v: Lun)
    requires u.disk.Valid()
    ensures v.disk.Valid()
  {
    if !Accepts(u.disk, lba) then Refuse(u)
    else Succeed(u.(sent := u.sent + ReadBlocks(u.disk, lba % 65536, n)), n)
  }

  /** Every block of the range belongs to a file. */
  ghost predicate FileRange(d: Disk, address: nat, n: nat) {
    && d.Valid() && address + n <= 65536
    && forall b | address <= b < address + n :: d.FileBlock(b)
  }

  /** After a range of file blocks is written, each of them reads as its sector and all others as before. */
  lemma {:induction false} BlocksWritten(d: Disk, address: nat, data: seq<Sector>, b: nat)
    requires d.Fits() && FileRange(d, address, |data|)
    ensures var e := WriteBlocks(d, address, data);
      SameFiles(d, e) && e.ReadBlock(b) == if address <= b < address + |data| then data[b - address] else d.ReadBlock(b)
    decreases |data|
  {
    hide Disk.ReadBlock, Disk.WriteBlock, Disk.Fits, Holds, Disk.Valid;
    if data != [] {
      var last := |data| - 1;
      assert d.FileBlock(address + last);
      SmallMod(address + last, 65536);
      BlocksWritten(d, address, data[..last], b);
      var before := WriteBlocks(d, address, data[..last]);
      SameFileBlocks(d, before, address + last);
      if b == address + last {
        WrittenBlockReads(before, b, data[last]);
      } else {
        OtherBlocksKept(before, address + last, data[last], b);
      }
    }
  }

  lemma {:induction false} SameFileBlocks(d: Disk, e: Disk, b: nat)
    requires SameFiles(d, e)
    ensures d.FileBlock(b) <==> e.FileBlock(b)
    ensures b >= DATA_START || !d.FileBlock(b)
  {
    hide Holds;
  }

  /**
   * A WRITE (10) over any range of blocks of the two files, then a READ (10) of that range: the host
   * gets back the sectors it wrote, both commands report success, and every other block of the disk
   * still reads as before.
   */
  lemma {:induction false} WriteThenRead(u: Lun, lba: nat, data: seq<Sector>, b: nat)
    requires u.disk.Fits() && Accepts(u.disk, lba) && FileRange(u.disk, lba % 65536, |data|)
    ensures var v := Read10(Write10(u, lba, data), lba, |data|);
      && v.sent == u.sent + data && v.key == GOOD && v.residue == (u.residue - 2 * |data| * SECTOR) % 0x1_0000_0000
      && (b < lba % 65536 || b >= lba % 65536 + |data| ==> v.disk.ReadBlock(b) == u.disk.ReadBlock(b))
  {
    hide Disk.ReadBlock, Disk.WriteBlock, Holds, Disk.Valid, WriteBlocks;
    var address := lba % 65536;
    var e := WriteBlocks(u.disk, address, data);
    BlocksWritten(u.disk, address, data, b);
    forall i | 0 <= i < |data|
      ensures ReadBlocks(e, address, |data|)[i] == data[i]
    {
      SmallMod(address + i, 65536);
      ReadBlocksAt(e, address, |data|, i);
      BlocksWritten(u.disk, address, data, address + i);
    }
    assert ReadBlocks(e, address, |data|) == data;
    assert Accepts(e, lba);
    Residues(u.residue, |data|);
  }

  lemma {:induction false} Residues(r: int, n: nat)
    ensures ((r - n * SECTOR) % 0x1_0000_0000 - n * SECTOR) % 0x1_0000_0000 == (r - 2 * n * SECTOR) % 0x1_0000_0000
  {
  }

  /** A refused command changes nothing but the sense data. */
  lemma {:induction false} RefusedWithoutEffect(u: Lun, lba: nat, data: seq<Sector>, n: nat)
    requires u.disk.Valid() && !Accepts(u.disk, lba)
    ensures Write10(u, lba, data) == Read10(u, lba, n) == u.(key := ILLEGAL_REQUEST, code := ADDRESS_OUT_OF_RANGE)
  {
  }

  /**
   * Addresses beyond the disk are refused exactly when their low sixteen bits are; so block
   * 65536 is accepted, and is block 0.
   */
  lemma {:induction false} BeyondTheDisk(u: Lun, lba: nat, n: nat)
    requires u.disk.Valid() && lba >= MediaBlocks(u.disk) && u.key == GOOD
    ensures Read10(u, lba, n).key == ILLEGAL_REQUEST <==> lba % 65536 >= MediaBlocks(u.disk)
    ensures Read10(u, 65536, n).sent == u.sent + ReadBlocks(u.disk, 0, n)
  {
    assert 65536 % 65536 == 0;
  }
}
