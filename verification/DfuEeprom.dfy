/** The DFU bootloader's EEPROM: what a download stores there is what an upload of the same range sends. */
module DfuEeprom {
  import opened Arith
  import opened Memory
  import opened DfuModel
  import opened DfuTransfer

  const SELECT_WRITE_EEPROM: Octet := 1
  const SELECT_READ_EEPROM: Octet := 2

  /** The host sends at least the data, in packets that are not empty. */
  ghost predicate Offers(ep: Endpoint, data: seq<Octet>) {
    && (forall i | 0 <= i < |ep.pending| :: |ep.pending[i]| > 0)
    && data <= ep.current + Concat(ep.pending)
  }

  lemma {:induction false} OffersByte(ep: Endpoint, data: seq<Octet>)
    requires Offers(ep, data) && data != []
    ensures ep.Ready()
    ensures var e := ep.Refill(); e.Byte() == data[0] && Offers(e.Skip(), data[1..])
  {
    var e := ep.Refill();
    assert ep.current + Concat(ep.pending) == e.current + Concat(e.pending) by {
      if ep.current == [] {
        assert ep.current + Concat(ep.pending) == Concat(ep.pending);
      }
    }
    var all := e.current + Concat(e.pending);
    assert data[0] == all[0];
    assert e.Skip().current + Concat(e.pending) == all[1..];
  }

  lemma {:induction false} OneMoreStored(eeprom: seq<Octet>, addr: nat, data: seq<Octet>)
    requires data != [] && addr + |data| <= |eeprom|
    ensures var e := eeprom[addr := data[0]];
      e[..addr + 1] + data[1..] + e[addr + |data|..] == eeprom[..addr] + data + eeprom[addr + |data|..]
  {
    assert data == [data[0]] + data[1..];
  }

  /** The byte loop stores what the host sends, at consecutive addresses. */
  lemma {:induction false} DownloadStores(eeprom: seq<Octet>, ep: Endpoint, addr: Word16, data: seq<Octet>)
    requires Offers(ep, data) && addr + |data| <= |eeprom| <= 65536
    ensures var t := DownloadEeprom(eeprom, ep, addr, |data|);
      t.done && t.eeprom == eeprom[..addr] + data + eeprom[addr + |data|..] && t.addr == (addr + |data|) % 65536
    decreases |data|
  {
    hide Offers, Endpoint.Refill, Endpoint.Skip, Endpoint.Byte, Endpoint.Ready, DownloadEeprom;
    if data == [] {
      assert eeprom[..addr] + data + eeprom[addr..] == eeprom;
      DownloadDone(eeprom, ep, addr);
    } else {
      OffersByte(ep, data);
      DownloadByte(eeprom, ep, addr, data[0], |data|);
      OneMoreStored(eeprom, addr, data);
      var e, rest := eeprom[addr := data[0]], ep.Refill().Skip();
      if addr + 1 < 65536 {
        assert (addr + 1) % 65536 == addr + 1;
        DownloadStores(e, rest, addr + 1, data[1..]);
      } else {
        assert e[..addr + 1] + data[1..] + e[addr + 1..] == e;
        DownloadDone(e, rest, 0);
      }
    }
  }

  lemma {:induction false} DownloadByte(eeprom: seq<Octet>, ep: Endpoint, addr: Word16, b: Octet, n: nat)
    requires ep.Ready() && ep.Refill().Byte() == b && addr < |eeprom| && n > 0
    ensures DownloadEeprom(eeprom, ep, addr, n) == DownloadEeprom(eeprom[addr := b], ep.Refill().Skip(), (addr + 1) % 65536, n - 1)
  {
  }

  lemma {:induction false} DownloadDone(eeprom: seq<Octet>, ep: Endpoint, addr: Word16)
    ensures DownloadEeprom(eeprom, ep, addr, 0) == EepromDownload(eeprom, ep, addr, true)
  {
  }

  /** The byte loop sends consecutive bytes, however they fall into packets. */
  lemma {:induction false} UploadLoads(eeprom: seq<Octet>, addr: Word16, n: nat, inPacket: nat, packets: nat)
    requires addr + n <= |eeprom| <= 65536 && inPacket <= ENDPOINT_SIZE && n <= ENDPOINT_SIZE - inPacket + ENDPOINT_SIZE * packets
    ensures var t := UploadEeprom(eeprom, addr, n, inPacket, packets); t.done && t.sent == eeprom[addr..addr + n] && t.addr == (addr + n) % 65536
    decreases n
  {
    if n > 0 {
      var full := inPacket == ENDPOINT_SIZE;
      var p, k := if full then 1 else inPacket + 1, if full then packets - 1 else packets;
      assert eeprom[addr..addr + n] == [eeprom[addr]] + eeprom[addr + 1..addr + n];
      if addr + 1 < 65536 {
        UploadLoads(eeprom, addr + 1, n - 1, p, k);
      }
    }
  }

  /** The commands that name an address range of EEPROM leave memory alone. */
  lemma {:induction false} EepromCommand(d: Dfu, write: bool, first: Word16, last: Word16, size: Word16)
    requires d.Valid() && !d.isSecure
    ensures var code := if write then COMMAND_PROG_START else COMMAND_DISP_DATA;
      var selector := if write then SELECT_WRITE_EEPROM else SELECT_READ_EEPROM;
      var k := d.(sent := Command(code, AddressCommand(code, selector, first, last)[1..], size));
      ProcessCommand(k) == k.(startAddr := first, endAddr := last, state := if write then DownloadIdle else UploadIdle)
  {
    hide Flash.Erase;
    var code := if write then COMMAND_PROG_START else COMMAND_DISP_DATA;
    var selector := if write then SELECT_WRITE_EEPROM else SELECT_READ_EEPROM;
    LoadAddressCommand(d.sent, code, selector, first, last, []);
    var p := AddressCommand(code, selector, first, last);
    assert p[1..][0] == selector && p[1..][1] == p[2] && p[1..][2] == p[3] && p[1..][3] == p[4] && p[1..][4] == p[5];
  }

  /** The data fill a range of EEPROM that starts at a packet boundary. */
  predicate FillsEeprom(d: Dfu, first: Word16, last: Word16, data: seq<Octet>) {
    && first % ENDPOINT_SIZE == 0 && first <= last && last - first < 65535
    && |data| == last - first + 1 && last < |d.eeprom| <= 65536
  }

  /** The stage after the command packet, up to its filler bytes. */
  lemma {:induction false} EepromStage(d: Dfu, filler: seq<Octet>, rest: seq<seq<Octet>>, data: seq<Octet>)
    requires d.Valid() && |filler| == FILLER_BYTES && d.sent.data[0] == SELECT_WRITE_EEPROM
    requires FillsEeprom(d, d.startAddr, d.endAddr, data) && Offers(Endpoint([], rest), data)
    ensures var r := ReceiveFirmware(d, Endpoint(filler, rest));
      r == d.(eeprom := d.eeprom[..d.startAddr] + data + d.eeprom[d.startAddr + |data|..], startAddr := (d.endAddr + 1) % 65536)
  {
    hide Offers, FlashDownload, DownloadEeprom, Discard, Dfu.FlashAddress, Flash.Valid;
    DiscardPacket(Endpoint(filler, rest));
    assert Discard(Endpoint([], rest), 0) == Endpoint([], rest) by {
      DiscardPacket(Endpoint([], rest));
    }
    DownloadStores(d.eeprom, Endpoint([], rest), d.startAddr, data);
  }

  /** A download request to EEPROM stores its data at the range, and changes no other memory. */
  lemma {:induction false} EepromDownloadRequest(d: Dfu, first: Word16, last: Word16, filler: seq<Octet>, rest: seq<seq<Octet>>, length: Word16, data: seq<Octet>)
    requires Open(d) && FillsEeprom(d, first, last, data) && Offers(Endpoint([], rest), data)
    requires |filler| == FILLER_BYTES && length != 0 && length != 6
    ensures var r := Handle(d, Dnload(length, [AddressCommand(COMMAND_PROG_START, SELECT_WRITE_EEPROM, first, last) + filler] + rest)).dfu;
      && Open(r) && r.flash == d.flash && r.eeprom == d.eeprom[..first] + data + d.eeprom[first + |data|..]
      && r.state == DownloadIdle && r.startAddr == (last + 1) % 65536
  {
    hide Handle, ProcessCommand, ReceiveFirmware, LoadCommand, Offers, AddressCommand;
    var command := AddressCommand(COMMAND_PROG_START, SELECT_WRITE_EEPROM, first, last);
    DnloadSteps(d, length, command + filler, rest);
    LoadAddressCommand(d.sent.(size := length), COMMAND_PROG_START, SELECT_WRITE_EEPROM, first, last, filler);
    EepromCommand(d, true, first, last, (length - 6) % 65536);
    assert (command + filler)[6..] == filler;
    var k := ProcessCommand(d.(sent := LoadCommand(d.sent.(size := length), command + filler)));
    EepromStage(k, filler, rest, data);
  }

  /** A read command and an upload send the EEPROM bytes of the range and leave the device idle behind it. */
  lemma {:induction false} EepromUploadRequest(d: Dfu, first: Word16, last: Word16, length: Word16, inPackets: nat)
    requires Open(d) && first <= last < |d.eeprom| <= 65536 && last - first < 65535 && last - first + 1 <= ENDPOINT_SIZE * inPackets
    ensures var r := Handle(d, Dnload(6, [AddressCommand(COMMAND_DISP_DATA, SELECT_READ_EEPROM, first, last)])).dfu;
      var s := Handle(r, UploadReq(length, inPackets));
      s.bytes == d.eeprom[first..last + 1] && s.dfu.state == DfuIdle && s.dfu.startAddr == (last + 1) % 65536 && s.dfu.eeprom == d.eeprom
  {
    hide ProcessCommand, LoadCommand, AddressCommand, HandleDnload, UploadEeprom, FlashUpload, Flash.Valid;
    var command := AddressCommand(COMMAND_DISP_DATA, SELECT_READ_EEPROM, first, last);
    assert command + [] == command && [command] + [] == [command];
    DnloadSteps(d, 6, command, []);
    LoadAddressCommand(d.sent.(size := 6), COMMAND_DISP_DATA, SELECT_READ_EEPROM, first, last, []);
    EepromCommand(d, false, first, last, 0);
    var k := Handle(d, Dnload(6, [command])).dfu;
    assert k.state == UploadIdle && k.startAddr == first && k.endAddr == last && k.eeprom == d.eeprom;
    UploadLoads(d.eeprom, first, last - first + 1, 0, inPackets - 1);
  }

  /** What was downloaded to EEPROM is what an upload of the same range sends back. */
  lemma {:induction false} EepromRoundTrip(d: Dfu, first: Word16, last: Word16, filler: seq<Octet>, rest: seq<seq<Octet>>, length: Word16, data: seq<Octet>, inPackets: nat)
    requires Open(d) && FillsEeprom(d, first, last, data) && Offers(Endpoint([], rest), data)
    requires |filler| == FILLER_BYTES && length != 0 && length != 6 && |data| <= ENDPOINT_SIZE * inPackets
    ensures var write := Dnload(length, [AddressCommand(COMMAND_PROG_START, SELECT_WRITE_EEPROM, first, last) + filler] + rest);
      var read := Dnload(6, [AddressCommand(COMMAND_DISP_DATA, SELECT_READ_EEPROM, first, last)]);
      Handle(Handle(Handle(d, write).dfu, read).dfu, UploadReq(0, inPackets)).bytes == data
  {
    hide Handle, Offers, AddressCommand;
    EepromDownloadRequest(d, first, last, filler, rest, length, data);
    var r := Handle(d, Dnload(length, [AddressCommand(COMMAND_PROG_START, SELECT_WRITE_EEPROM, first, last) + filler] + rest)).dfu;
    EepromUploadRequest(r, first, last, 0, inPackets);
    assert r.eeprom[first..last + 1] == data;
  }
}
