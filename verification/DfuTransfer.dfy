/**
 * Transfers of the DFU bootloader: the blank check, and a flash download read back by an upload.
 */
module DfuTransfer {
  import opened Arith
  import opened Memory
  import opened PageProgramming
  import opened DfuModel
  import opened DfuSecurity

  // ---- The blank check ----

  lemma {:induction false} FirstUsedLeast(f: Flash, addr: nat)
    requires addr <= f.boot
    ensures var r := FirstUsed(f, addr);
      && addr <= r <= f.boot && (forall x | addr <= x < r :: f.Read(x) == BLANK)
      && (r < f.boot ==> f.Read(r) != BLANK)
    decreases f.boot - addr
  {
    if addr < f.boot && f.Read(addr) == BLANK {
      FirstUsedLeast(f, addr + 1);
    }
  }

  /** A blank-check command that the device will carry out. */
  predicate IsBlankCheck(d: Dfu) {
    d.Valid() && !d.isSecure && d.sent.code == COMMAND_DISP_DATA && d.sent.data[0] == 1
  }

  /**
   * The check fails exactly when some application byte is not blank, and then the page and address
   * registers together hold the least such address; otherwise nothing changes.
   */
  lemma {:induction false} BlankCheckExact(d: Dfu)
    requires IsBlankCheck(d) && d.flash.boot <= 0x100_0000
    ensures var r := ProcessCommand(d);
      if ApplicationBlank(d.flash) then r == d
      else
        && r.state == DfuError && r.status == ErrCheckErased && r.flash == d.flash && r.eeprom == d.eeprom
        && r.FlashAddress() < d.flash.boot && d.flash.mem[r.FlashAddress()] != BLANK
        && forall x | 0 <= x < r.FlashAddress() :: d.flash.mem[x] == BLANK
  {
    hide FirstUsed, Flash.Read;
    FirstUsedReads(d.flash);
    var a := FirstUsed(d.flash, 0);
    if a < d.flash.boot {
      AddressParts(a);
    }
  }

  lemma {:induction false} AddressParts(a: nat)
    requires a < 0x100_0000
    ensures a / 65536 % 256 * 65536 + a % 65536 == a
  {
  }

  lemma {:induction false} FirstUsedReads(f: Flash)
    requires f.Valid()
    ensures var a := FirstUsed(f, 0);
      && a <= f.boot <= |f.mem| && (forall x | 0 <= x < a :: f.mem[x] == BLANK) && (a < f.boot ==> f.mem[a] != BLANK)
  {
    FirstUsedLeast(f, 0);
    forall x | 0 <= x < FirstUsed(f, 0)
      ensures f.mem[x] == BLANK
    {
      assert f.Read(x) == BLANK;
    }
  }

  /** A chip erase leaves nothing for a blank check to find. */
  lemma {:induction false} EraseThenCheck(d: Dfu, e: Dfu)
    requires d.Valid() && d.flash.buffer == Blank(d.flash.page) && d.flash.boot <= 0x100_0000
    requires d.sent.code == COMMAND_WRITE && d.sent.data[0] == 0 && d.sent.data[1] == 0xFF
    requires e.flash == ProcessCommand(d).flash && IsBlankCheck(e)
    ensures !ProcessCommand(d).isSecure && ProcessCommand(e) == e
  {
    hide ChipErase, FirstUsed;
    SmallMod(0, d.flash.page);
    ChipEraseBlanks(d.flash, 0);
    BlankCheckExact(e);
  }

  // ---- The firmware stream ----

  function Concat(packets: seq<seq<Octet>>): seq<Octet> {
    if packets == [] then [] else packets[0] + Concat(packets[1..])
  }

  /** The host sends at least the data, in packets of even, nonzero length. */
  ghost predicate Supplies(ep: Endpoint, data: seq<Octet>) {
    && |ep.current| % 2 == 0
    && (forall i | 0 <= i < |ep.pending| :: |ep.pending[i]| > 0 && |ep.pending[i]| % 2 == 0)
    && data <= ep.current + Concat(ep.pending)
  }

  /** Refilling loses no byte. */
  lemma {:induction false} RefillKeeps(ep: Endpoint)
    requires ep.Ready()
    ensures ep.current + Concat(ep.pending) == ep.Refill().current + Concat(ep.Refill().pending)
  {
    if ep.current == [] {
      assert ep.current + Concat(ep.pending) == Concat(ep.pending);
    }
  }

  /** A word off the front of a packet. */
  lemma {:induction false} WordOff(current: seq<Octet>, later: seq<Octet>, data: seq<Octet>)
    requires |current| >= 2 && |data| >= 2 && data <= current + later
    ensures current[0] == data[0] && current[1] == data[1] && data[2..] <= current[2..] + later
  {
    assert (current + later)[..|data|] == data;
    assert current[2..] + later == (current + later)[2..];
    assert data[2..] == (current + later)[2..|data|];
  }

  lemma {:induction false} SuppliesWord(ep: Endpoint, data: seq<Octet>)
    requires Supplies(ep, data) && |data| >= 2
    ensures ep.Ready()
    ensures var e := ep.Refill();
      e.Byte() == data[0] && e.Skip().Byte() == data[1] && Supplies(e.Skip().Skip(), data[2..])
  {
    assert |ep.current + Concat(ep.pending)| >= |data|;
    assert ep.Ready();
    hide Concat;
    RefillKeeps(ep);
    SuppliesFront(ep.Refill(), data);
  }

  lemma {:induction false} SuppliesFront(e: Endpoint, data: seq<Octet>)
    requires Supplies(e, data) && |data| >= 2 && e.current != []
    ensures e.Byte() == data[0] && e.Skip().Byte() == data[1] && Supplies(e.Skip().Skip(), data[2..])
  {
    hide Concat;
    var first := e.current;
    assert |first| >= 2;
    WordOff(first, Concat(e.pending), data);
    assert first[1..][1..] == first[2..];
    assert |first[2..]| == |first| - 2;
  }

  /** One turn of the word loop. */
  lemma {:induction false} DownloadTurn(f: Flash, ep: Endpoint, addr: nat, pageStart: nat, inPage: nat, remaining: nat, low: Octet, high: Octet)
    requires f.Valid() && remaining >= 1 && ep.Ready() && inPage < 255
    requires ep.Refill().Byte() == low && ep.Refill().Skip().Byte() == high
    ensures var e, g := ep.Refill().Skip().Skip(), f.Fill(addr, low, high);
      FlashDownload(f, ep, addr, pageStart, inPage, remaining) ==
      if remaining == 1 then Download(g.Write(pageStart), e, true)
      else if inPage + 1 == f.page / 2 then
        FlashDownload(g.Write(pageStart).Erase(addr + 2), e, addr + 2, addr + 2, 0, remaining - 1)
      else FlashDownload(g, e, addr + 2, pageStart, inPage + 1, remaining - 1)
  {
    hide Flash.Fill, Flash.Write, Flash.Erase, Flash.Valid, Endpoint.Refill, Endpoint.Skip, Endpoint.Byte, Endpoint.Ready;
  }

  /** The word loop programs what the host supplies. */
  lemma {:induction false} DownloadPrograms(f: Flash, f0: Flash, base: nat, data: seq<Octet>, q: nat, m: nat, ep: Endpoint, remaining: nat)
    requires Underway(f, f0, base, data, q, m, true) && m < f.page <= 510
    requires remaining >= 1 && q + m + 2 * remaining == |data| && Supplies(ep, data[q + m..])
    ensures f.Valid()
    ensures var t := FlashDownload(f, ep, base + q + m, base + q, m / 2, remaining);
      t.done && Programmed(t.flash, f0, base, data)
    decreases remaining
  {
    hide Supplies, Programmed, Underway, FlashDownload, Flash.Fill, Flash.Write, Flash.Erase, Flash.Valid, Endpoint.Refill, Endpoint.Skip;
    UnderwayShape(f, f0, base, data, q, m, true);
    var page := f.page;
    var rest := data[q + m..];
    SuppliesWord(ep, rest);
    DownloadTurn(f, ep, base + q + m, base + q, m / 2, remaining, rest[0], rest[1]);
    var e := ep.Refill().Skip().Skip();
    assert rest[2..] == data[q + m + 2..];
    FillStep(f, f0, base, data, q, m);
    var g := f.Fill(base + q + m, data[q + m], data[q + m + 1]);
    assert g.page == page;
    if remaining == 1 {
      WriteLast(g, f0, base, data, q, m + 2);
    } else if m + 2 == page {
      WriteFull(g, f0, base, data, q);
      EraseStep(g.Write(base + q), f0, base, data, q + page);
      DownloadPrograms(g.Write(base + q).Erase(base + q + page), f0, base, data, q + page, 0, e, remaining - 1);
    } else {
      DownloadPrograms(g, f0, base, data, q, m + 2, e, remaining - 1);
    }
  }

  /** The word loop of an upload sends the words of flash in order. */
  lemma {:induction false} UploadReads(f: Flash, addr: nat, remaining: nat, inPacket: nat, packets: nat)
    requires addr + 2 * remaining <= |f.mem| && inPacket % 2 == 0 && inPacket <= ENDPOINT_SIZE
    requires 2 * remaining <= ENDPOINT_SIZE - inPacket + ENDPOINT_SIZE * packets
    ensures FlashUpload(f, addr, remaining, inPacket, packets) == Upload(f.mem[addr..addr + 2 * remaining], true)
    decreases remaining
  {
    if remaining > 0 {
      if inPacket == ENDPOINT_SIZE {
        UploadReads(f, addr + 2, remaining - 1, 2, packets - 1);
      } else {
        UploadReads(f, addr + 2, remaining - 1, inPacket + 2, packets);
      }
      assert [f.mem[addr], f.mem[addr + 1]] + f.mem[addr + 2..addr + 2 * remaining] == f.mem[addr..addr + 2 * remaining];
    }
  }

  // ---- Download, then read back ----

  lemma {:induction false} DiscardPacket(ep: Endpoint)
    ensures Discard(ep, |ep.current|) == Endpoint([], ep.pending)
    decreases |ep.current|
  {
    if ep.current != [] {
      DiscardPacket(ep.Skip());
    }
  }

  /** A command packet: the code, a memory selector, and the start and end addresses. */
  function AddressCommand(code: Octet, selector: Octet, first: Word16, last: Word16): (p: seq<Octet>)
    ensures |p| == 6 && p[0] == code && p[1] == selector
  {
    [code, selector, first / 256, first % 256, last / 256, last % 256]
  }

  /** An open device with nothing pending and a blank page buffer. */
  predicate Open(d: Dfu) {
    d.Valid() && !d.isSecure && !d.waitForExit && d.flash.buffer == Blank(d.flash.page)
  }

  /** A command packet is loaded whole. */
  lemma {:induction false} LoadAddressCommand(c: Command, code: Octet, selector: Octet, first: Word16, last: Word16, filler: seq<Octet>)
    requires c.Valid()
    ensures var p := AddressCommand(code, selector, first, last);
      && LoadCommand(c, p + filler) == Command(code, p[1..], (c.size - 6) % 65536)
      && BigEndian(p[2], p[3]) == first && BigEndian(p[4], p[5]) == last
  {
    var p := AddressCommand(code, selector, first, last);
    assert (p + filler)[1..6] == p[1..];
    assert p[1..] + c.data[5..] == p[1..];
  }

  /** A download request that carries a command, on a device that is not exiting. */
  lemma {:induction false} DnloadSteps(d: Dfu, length: Word16, packet: seq<Octet>, rest: seq<seq<Octet>>)
    requires d.Valid() && !d.waitForExit && length != 0
    ensures var k := ProcessCommand(d.(sent := LoadCommand(d.sent.(size := length), packet)));
      Handle(d, Dnload(length, [packet] + rest)) == Reply(
        if k.state != DownloadIdle then k
        else if k.sent.size == 0 then k.(state := DfuIdle)
        else ReceiveFirmware(k, Endpoint(if |packet| <= 6 then [] else packet[6..], rest)), [])
  {
    hide ProcessCommand, LoadCommand, ReceiveFirmware;
    var packets := [packet] + rest;
    assert packets[0] == packet && packets[1..] == rest;
  }

  /** The two commands that name an address range of flash. */
  lemma {:induction false} RangeCommand(d: Dfu, code: Octet, first: Word16, last: Word16, size: Word16)
    requires d.Valid() && !d.isSecure && (code == COMMAND_PROG_START || code == COMMAND_DISP_DATA)
    ensures var p := AddressCommand(code, 0, first, last);
      var k := d.(sent := Command(code, p[1..], size));
      var ranged := k.(startAddr := first, endAddr := last);
      ProcessCommand(k) ==
      if code == COMMAND_DISP_DATA then ranged.(state := UploadIdle)
      else ranged.(state := DownloadIdle, flash := d.flash.Erase(ranged.FlashAddress()))
  {
    hide Flash.Erase;
    LoadAddressCommand(d.sent, code, 0, first, last, []);
    var p := AddressCommand(code, 0, first, last);
    assert p[1..][0] == 0 && p[1..][1] == p[2] && p[1..][2] == p[3] && p[1..][3] == p[4] && p[1..][4] == p[5];
  }

  /** The firmware stage, once the command packet has been taken in up to its filler bytes. */
  lemma {:induction false} FirmwareStage(d: Dfu, f0: Flash, filler: seq<Octet>, rest: seq<seq<Octet>>, data: seq<Octet>)
    requires d.Valid() && d.flash.page <= 510 && |filler| == FILLER_BYTES && d.sent.data[0] == 0
    requires d.startAddr % ENDPOINT_SIZE == 0 && d.startAddr <= d.endAddr && d.endAddr % 2 == 1 && d.endAddr - d.startAddr < 65535
    requires |data| == d.endAddr - d.startAddr + 1 && Supplies(Endpoint([], rest), data)
    requires Underway(d.flash, f0, d.FlashAddress(), data, 0, 0, true)
    ensures var r := ReceiveFirmware(d, Endpoint(filler, rest));
      && r == d.(flash := r.flash, startAddr := d.endAddr)
      && !r.flash.busy && Programmed(r.flash, f0, d.FlashAddress(), data)
  {
    hide Supplies, FlashDownload, Underway, Programmed, Discard, Flash.EnableRww, Dfu.FlashAddress, Flash.Valid;
    UnderwayShape(d.flash, f0, d.FlashAddress(), data, 0, 0, true);
    DiscardPacket(Endpoint(filler, rest));
    assert Discard(Endpoint([], rest), 0) == Endpoint([], rest) by {
      DiscardPacket(Endpoint([], rest));
    }
    assert data[0 + 0..] == data;
    DownloadPrograms(d.flash, f0, d.FlashAddress(), data, 0, 0, Endpoint([], rest), |data| / 2);
    var t := FlashDownload(d.flash, Endpoint([], rest), d.FlashAddress(), d.FlashAddress(), 0, |data| / 2);
    ProgrammedReadable(t.flash, f0, d.FlashAddress(), data);
  }

  /** The data fill the range of addresses, which starts at a page and at a packet boundary of flash. */
  predicate FillsRange(d: Dfu, first: Word16, last: Word16, data: seq<Octet>)
    requires d.Valid()
  {
    var base := d.flash64Page * 65536 + first;
    && first % ENDPOINT_SIZE == 0 && first <= last && last % 2 == 1 && last - first < 65535
    && |data| == last - first + 1 && base % d.flash.page == 0 && base + |data| <= |d.flash.mem|
  }

  lemma {:induction false} RangeFacts(d: Dfu, first: Word16, last: Word16, data: seq<Octet>)
    requires d.Valid() && FillsRange(d, first, last, data)
    ensures first % 2 == 0 && first <= last && last % 2 == 1 && last - first < 65535 && |data| == last - first + 1
  {
  }

  lemma {:induction false} RangeErased(d: Dfu, k: Dfu, first: Word16, last: Word16, data: seq<Octet>)
    requires Open(d) && FillsRange(d, first, last, data)
    requires k.startAddr == first && k.endAddr == last && k.flash64Page == d.flash64Page
    requires k.flash == d.flash.Erase(k.FlashAddress())
    ensures Underway(k.flash, d.flash, k.FlashAddress(), data, 0, 0, true)
    ensures k.startAddr % ENDPOINT_SIZE == 0 && k.startAddr <= k.endAddr && k.endAddr % 2 == 1 && k.endAddr - k.startAddr < 65535
    ensures |data| == k.endAddr - k.startAddr + 1
  {
    hide Underway;
    UnderwayStarts(d.flash, k.FlashAddress(), data);
    EraseStep(d.flash, d.flash, k.FlashAddress(), data, 0);
  }

  /** A download request from a page boundary programs its data and nothing else. */
  lemma {:induction false} DownloadRequest(d: Dfu, first: Word16, last: Word16, filler: seq<Octet>, rest: seq<seq<Octet>>, length: Word16, data: seq<Octet>)
    requires Open(d) && d.flash.page <= 510 && FillsRange(d, first, last, data) && Supplies(Endpoint([], rest), data)
    requires |filler| == FILLER_BYTES && length != 0 && length != 6
    ensures var r := Handle(d, Dnload(length, [AddressCommand(COMMAND_PROG_START, 0, first, last) + filler] + rest)).dfu;
      && Open(r) && !r.flash.busy && Programmed(r.flash, d.flash, d.flash64Page * 65536 + first, data)
      && r.flash64Page == d.flash64Page && r.eeprom == d.eeprom
  {
    hide Handle, ProcessCommand, ReceiveFirmware, LoadCommand, Supplies, Flash.Erase, Underway, Programmed, AddressCommand, FillsRange;
    var command := AddressCommand(COMMAND_PROG_START, 0, first, last);
    DnloadSteps(d, length, command + filler, rest);
    LoadAddressCommand(d.sent.(size := length), COMMAND_PROG_START, 0, first, last, filler);
    RangeCommand(d, COMMAND_PROG_START, first, last, (length - 6) % 65536);
    assert (command + filler)[6..] == filler;
    var k := ProcessCommand(d.(sent := LoadCommand(d.sent.(size := length), command + filler)));
    RangeErased(d, k, first, last, data);
    FirmwareStage(k, d.flash, filler, rest, data);
    ProgrammedAt(ReceiveFirmware(k, Endpoint(filler, rest)).flash, d.flash, k.FlashAddress(), data);
  }

  lemma {:induction false} UploadSteps(d: Dfu, length: Word16, inPackets: nat)
    requires d.Valid() && d.state == UploadIdle && d.sent.data[0] == 0 && inPackets > 0
    ensures Handle(d, UploadReq(length, inPackets)).bytes ==
      FlashUpload(d.flash, d.FlashAddress(), d.ByteCount() / 2, 0, inPackets - 1).sent
  {
    hide FlashUpload;
  }

  /** A read command readies an upload of its range. */
  lemma {:induction false} ReadRequest(d: Dfu, first: Word16, last: Word16)
    requires Open(d)
    ensures var r := Handle(d, Dnload(6, [AddressCommand(COMMAND_DISP_DATA, 0, first, last)])).dfu;
      r.state == UploadIdle && r.sent.data[0] == 0 && r.flash == d.flash &&
      r.flash64Page == d.flash64Page && r.startAddr == first && r.endAddr == last
  {
    hide Handle, ProcessCommand, LoadCommand, AddressCommand;
    var command := AddressCommand(COMMAND_DISP_DATA, 0, first, last);
    assert command + [] == command && [command] + [] == [command];
    DnloadSteps(d, 6, command, []);
    LoadAddressCommand(d.sent.(size := 6), COMMAND_DISP_DATA, 0, first, last, []);
    RangeCommand(d, COMMAND_DISP_DATA, first, last, 0);
  }

  lemma {:induction false} WholeWords(d: Dfu)
    requires d.startAddr % 2 == 0 && d.endAddr % 2 == 1 && d.startAddr <= d.endAddr && d.endAddr - d.startAddr < 65535
    ensures d.ByteCount() == d.endAddr - d.startAddr + 1 && 2 * (d.ByteCount() / 2) == d.ByteCount()
  {
  }

  /** The word loop for a range of whole words, with a host that collects it all. */
  lemma {:induction false} WholeUpload(d: Dfu, inPackets: nat)
    requires d.startAddr % 2 == 0 && d.endAddr % 2 == 1 && d.startAddr <= d.endAddr && d.endAddr - d.startAddr < 65535
    requires d.FlashAddress() + (d.endAddr - d.startAddr) < |d.flash.mem|
    requires d.endAddr - d.startAddr + 1 <= ENDPOINT_SIZE * inPackets && inPackets > 0
    ensures var n := d.endAddr - d.startAddr + 1;
      FlashUpload(d.flash, d.FlashAddress(), d.ByteCount() / 2, 0, inPackets - 1)
      == Upload(d.flash.mem[d.FlashAddress()..d.FlashAddress() + n], true)
  {
    WholeWords(d);
    hide Dfu.ByteCount, Dfu.FlashAddress, FlashUpload;
    UploadReads(d.flash, d.FlashAddress(), d.ByteCount() / 2, 0, inPackets - 1);
  }

  /** A read command and an upload send the flash bytes of the range. */
  lemma {:induction false} UploadRequest(d: Dfu, first: Word16, last: Word16, length: Word16, inPackets: nat)
    requires Open(d) && first % 2 == 0 && first <= last && last % 2 == 1 && last - first < 65535
    requires d.flash64Page * 65536 + last < |d.flash.mem| && last - first + 1 <= ENDPOINT_SIZE * inPackets
    ensures var r := Handle(d, Dnload(6, [AddressCommand(COMMAND_DISP_DATA, 0, first, last)])).dfu;
      var base := d.flash64Page * 65536 + first;
      Handle(r, UploadReq(length, inPackets)).bytes == d.flash.mem[base..base + (last - first + 1)]
  {
    hide Handle, AddressCommand, FlashUpload;
    ReadRequest(d, first, last);
    var k := Handle(d, Dnload(6, [AddressCommand(COMMAND_DISP_DATA, 0, first, last)])).dfu;
    UploadSteps(k, length, inPackets);
    hide Dfu.ByteCount;
    WholeUpload(k, inPackets);
  }

  /** What was downloaded to flash is what an upload of the same range sends back. */
  lemma {:induction false} DownloadUploadRoundTrip(d: Dfu, first: Word16, last: Word16, filler: seq<Octet>, rest: seq<seq<Octet>>, length: Word16, data: seq<Octet>, inPackets: nat)
    requires Open(d) && d.flash.page <= 510 && FillsRange(d, first, last, data) && Supplies(Endpoint([], rest), data)
    requires |filler| == FILLER_BYTES && length != 0 && length != 6
    requires |data| <= ENDPOINT_SIZE * inPackets
    ensures var program := Dnload(length, [AddressCommand(COMMAND_PROG_START, 0, first, last) + filler] + rest);
      var read := Dnload(6, [AddressCommand(COMMAND_DISP_DATA, 0, first, last)]);
      Handle(Handle(Handle(d, program).dfu, read).dfu, UploadReq(0, inPackets)).bytes == data
  {
    hide Handle, Supplies, AddressCommand, Programmed, FillsRange;
    RangeFacts(d, first, last, data);
    DownloadRequest(d, first, last, filler, rest, length, data);
    var r := Handle(d, Dnload(length, [AddressCommand(COMMAND_PROG_START, 0, first, last) + filler] + rest)).dfu;
    ProgrammedAt(r.flash, d.flash, d.flash64Page * 65536 + first, data);
    UploadRequest(r, first, last, 0, inPackets);
  }
}
