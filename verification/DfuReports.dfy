/**
 * What a DFU host is told, over runs of requests and in the numbers of the DFU class: a status of
 * zero is OK and of three, five and eight an error; a state of two is idle and of ten an error.
 */
module DfuReports {
  import opened Memory
  import opened PageProgramming
  import opened DfuModel
  import opened DfuSecurity
  import opened DfuTransfer

  const SELECT_BLANK_CHECK: Octet := 1

  predicate Resting(d: Dfu) {
    d.Valid() && !d.waitForExit && d.state == DfuIdle && d.status == StatusOk
  }

  /** A request that does not stay in the middle of a download is its command. */
  lemma {:induction false} CommandHandled(d: Dfu, length: Word16, packet: seq<Octet>, rest: seq<seq<Octet>>)
    requires d.Valid() && !d.waitForExit && length != 0
    requires ProcessCommand(d.(sent := LoadCommand(d.sent.(size := length), packet))).state != DownloadIdle
    ensures Handle(d, Dnload(length, [packet] + rest)).dfu
      == ProcessCommand(d.(sent := LoadCommand(d.sent.(size := length), packet)))
  {
    hide ProcessCommand, LoadCommand, ReceiveFirmware, Handle;
    DnloadSteps(d, length, packet, rest);
  }

  /** The command code and the first parameters of a packet. */
  lemma {:induction false} CommandLoaded(c: Command, packet: seq<Octet>)
    requires c.Valid() && |packet| >= 3
    ensures var k := LoadCommand(c, packet); k.code == packet[0] && k.data[0] == packet[1] && k.data[1] == packet[2]
    ensures |packet| >= 4 ==> LoadCommand(c, packet).data[2] == packet[3]
  {
  }

  // ---- Blank check ----

  /** The device after a blank-check download. */
  function Checked(d: Dfu, length: Word16, packet: seq<Octet>, rest: seq<seq<Octet>>): (r: Dfu)
    requires d.Valid()
    ensures r.Valid()
  {
    Handle(d, Dnload(length, [packet] + rest)).dfu
  }

  lemma {:induction false} CheckDone(d: Dfu, length: Word16, packet: seq<Octet>, rest: seq<seq<Octet>>)
    requires Resting(d) && !d.isSecure && d.flash.boot <= 0x100_0000 && length != 0
    requires |packet| >= 3 && packet[0] == COMMAND_DISP_DATA && packet[1] == SELECT_BLANK_CHECK
    ensures var r := Checked(d, length, packet, rest);
      if ApplicationBlank(d.flash) then r.state == DfuIdle && r.status == StatusOk
      else
        && r.state == DfuError && r.status == ErrCheckErased && r.sent.data[0] == SELECT_BLANK_CHECK
        && r.FlashAddress() < d.flash.boot && r.FlashAddress() % 65536 == r.startAddr && d.flash.mem[r.FlashAddress()] != BLANK
        && forall x | 0 <= x < r.FlashAddress() :: d.flash.mem[x] == BLANK
  {
    var k := d.(sent := LoadCommand(d.sent.(size := length), packet));
    CommandLoaded(d.sent.(size := length), packet);
    hide ProcessCommand, LoadCommand, Handle;
    BlankCheckExact(k);
    CheckKeepsCommand(k);
    CommandHandled(d, length, packet, rest);
  }

  lemma {:induction false} CheckKeepsCommand(d: Dfu)
    requires IsBlankCheck(d)
    ensures ProcessCommand(d).sent == d.sent
  {
    hide FirstUsed;
  }

  /** GETSTATUS after a blank check reports an error exactly when some application byte is not blank. */
  lemma {:induction false} BlankCheckReported(d: Dfu, length: Word16, packet: seq<Octet>, rest: seq<seq<Octet>>, m: Word16, n: nat)
    requires Resting(d) && !d.isSecure && d.flash.boot <= 0x100_0000 && length != 0 && n > 0
    requires |packet| >= 3 && packet[0] == COMMAND_DISP_DATA && packet[1] == SELECT_BLANK_CHECK
    ensures var r := Checked(d, length, packet, rest);
      Handle(r, GetStatus(m, n)).bytes == if ApplicationBlank(d.flash) then [0, 0, 0, 0, 2, 0] else [5, 0, 0, 0, 10, 0]
  {
    CheckDone(d, length, packet, rest);
    hide Checked, HandleDnload, HandleUpload, ApplicationBlank;
  }

  /** UPLOAD then answers the low and the high byte of the least address that is not blank. */
  lemma {:induction false} UsedAddressReported(d: Dfu, length: Word16, packet: seq<Octet>, rest: seq<seq<Octet>>, m: Word16, n: nat, a: nat)
    requires Resting(d) && !d.isSecure && d.flash.boot <= 0x100_0000 && length != 0 && n > 0
    requires |packet| >= 3 && packet[0] == COMMAND_DISP_DATA && packet[1] == SELECT_BLANK_CHECK
    requires a < d.flash.boot && d.flash.mem[a] != BLANK && forall x | 0 <= x < a :: d.flash.mem[x] == BLANK
    ensures var r := Handle(Checked(d, length, packet, rest), GetStatus(m, n)).dfu;
      Handle(r, UploadReq(m, n)).bytes == [a % 256, a / 256 % 256]
  {
    CheckDone(d, length, packet, rest);
    var r := Checked(d, length, packet, rest);
    var b := r.FlashAddress();
    assert b == a;
    LowHalf(a);
    hide Checked, HandleDnload, FlashUpload, UploadEeprom;
  }

  lemma {:induction false} LowHalf(a: nat)
    ensures a % 65536 % 256 == a % 256 && a % 65536 / 256 == a / 256 % 256
  {
    var q, r := a / 65536, a % 65536;
    assert a == 65536 * q + r;
    assert a / 256 == 256 * q + r / 256;
  }

  // ---- Refusal, CLRSTATUS, ABORT ----

  lemma {:induction false} RefusedCommand(d: Dfu, length: Word16, packet: seq<Octet>, rest: seq<seq<Octet>>)
    requires d.Valid() && d.isSecure && !d.waitForExit && length != 0
    requires !AllowedInSecure(LoadCommand(d.sent.(size := length), packet))
    ensures var k := d.(sent := LoadCommand(d.sent.(size := length), packet));
      Handle(d, Dnload(length, [packet] + rest)).dfu == k.(state := DfuError, status := ErrWrite)
  {
    hide LoadCommand, Handle;
    CommandHandled(d, length, packet, rest);
  }

  /**
   * After a refused command GETSTATUS reports a write error; CLRSTATUS clears the status and leaves
   * the state, and only ABORT makes the device idle again.
   */
  lemma {:induction false} RefusalReported(d: Dfu, length: Word16, packet: seq<Octet>, rest: seq<seq<Octet>>, m: Word16, n: nat)
    requires d.Valid() && d.isSecure && !d.waitForExit && length != 0 && n > 0
    requires !AllowedInSecure(LoadCommand(d.sent.(size := length), packet))
    ensures var refused := Handle(d, Dnload(length, [packet] + rest)).dfu;
      var cleared := Handle(refused, ClrStatus(m)).dfu;
      var aborted := Handle(cleared, Abort(m)).dfu;
      && Handle(refused, GetStatus(m, n)).bytes == [3, 0, 0, 0, 10, 0] && Handle(refused, GetState(m, n)).bytes == [10]
      && Handle(cleared, GetStatus(m, n)).bytes == [0, 0, 0, 0, 10, 0] && Handle(cleared, GetState(m, n)).bytes == [10]
      && Handle(aborted, GetStatus(m, n)).bytes == [0, 0, 0, 0, 2, 0] && Handle(aborted, GetState(m, n)).bytes == [2]
  {
    RefusedCommand(d, length, packet, rest);
    hide HandleDnload, HandleUpload, LoadCommand;
    var refused := Handle(d, Dnload(length, [packet] + rest)).dfu;
    Reports(refused, m, n);
    var cleared := Handle(refused, ClrStatus(m)).dfu;
    Reports(cleared, m, n);
    Reports(Handle(cleared, Abort(m)).dfu, m, n);
  }

  /** The two requests for the state answer what the device is in. */
  lemma {:induction false} Reports(d: Dfu, m: Word16, n: nat)
    requires d.Valid() && n > 0
    ensures Handle(d, GetStatus(m, n)).bytes == [d.status.Code(), 0, 0, 0, d.state.Code(), 0]
    ensures Handle(d, GetState(m, n)).bytes == [d.state.Code()]
  {
  }

  // ---- Read commands ----

  /** What the read command of a selector and an index is answered with: bootloader or signature bytes. */
  predicate Answers(d: Dfu, selector: Octet, index: Octet, b: Octet)
    requires d.Valid()
  {
    || (selector == 0 && index == 0 && b == 0x20) || (selector == 0 && index == 1 && b == 0xDC) || (selector == 0 && index == 2 && b == 0xFB)
    || (selector == 1 && index == 0x30 && b == d.signature[0]) || (selector == 1 && index == 0x31 && b == d.signature[1])
    || (selector == 1 && index == 0x60 && b == d.signature[2]) || (selector == 1 && index == 0x61 && b == d.signature[3])
  }

  /** A read command and an upload answer with that byte, in secure mode too. */
  lemma {:induction false} ReadAnswered(d: Dfu, length: Word16, packet: seq<Octet>, rest: seq<seq<Octet>>, m: Word16, n: nat, b: Octet)
    requires Resting(d) && length != 0 && n > 0 && |packet| >= 3 && packet[0] == COMMAND_READ && Answers(d, packet[1], packet[2], b)
    ensures var r := Handle(d, Dnload(length, [packet] + rest)).dfu;
      Handle(r, GetStatus(m, n)).bytes == [0, 0, 0, 0, 2, 0] && Handle(r, UploadReq(m, n)).bytes == [b]
  {
    var k := d.(sent := LoadCommand(d.sent.(size := length), packet));
    CommandLoaded(d.sent.(size := length), packet);
    assert ProcessCommand(k) == k.(response := b);
    CommandHandled(d, length, packet, rest);
    hide LoadCommand, HandleDnload, FlashUpload, UploadEeprom;
  }

  /** A read command of any other index of the two selectors is an address error. */
  lemma {:induction false} ReadRefused(d: Dfu, length: Word16, packet: seq<Octet>, rest: seq<seq<Octet>>, m: Word16, n: nat)
    requires Resting(d) && length != 0 && n > 0 && |packet| >= 3 && packet[0] == COMMAND_READ && packet[1] <= 1
    requires forall b: Octet :: !Answers(d, packet[1], packet[2], b)
    ensures var r := Handle(d, Dnload(length, [packet] + rest)).dfu; Handle(r, GetStatus(m, n)).bytes == [8, 0, 0, 0, 10, 0]
  {
    var k := d.(sent := LoadCommand(d.sent.(size := length), packet));
    CommandLoaded(d.sent.(size := length), packet);
    var i := packet[2];
    assert !Answers(d, packet[1], i, 0x20) && !Answers(d, packet[1], i, 0xDC) && !Answers(d, packet[1], i, 0xFB);
    assert !Answers(d, packet[1], i, d.signature[0]) && !Answers(d, packet[1], i, d.signature[1]);
    assert !Answers(d, packet[1], i, d.signature[2]) && !Answers(d, packet[1], i, d.signature[3]);
    assert ProcessCommand(k) == k.(state := DfuError, status := ErrAddress);
    CommandHandled(d, length, packet, rest);
    hide LoadCommand, HandleDnload, HandleUpload;
    Reports(ProcessCommand(k), m, n);
  }

  // ---- The 64 KB page ----

  lemma {:induction false} PageSelected(d: Dfu, length: Word16, packet: seq<Octet>, rest: seq<seq<Octet>>)
    requires Open(d) && d.state != DownloadIdle && length != 0
    requires |packet| >= 4 && packet[0] == COMMAND_CHANGE_BASE_ADDR && packet[1] == 3 && packet[2] == 0
    ensures var r := Handle(d, Dnload(length, [packet] + rest)).dfu;
      r == d.(sent := r.sent, flash64Page := packet[3]) && r.sent.Valid()
  {
    var k := d.(sent := LoadCommand(d.sent.(size := length), packet));
    CommandLoaded(d.sent.(size := length), packet);
    assert ProcessCommand(k) == k.(flash64Page := packet[3]);
    CommandHandled(d, length, packet, rest);
  }

  /** A page command followed by a download programs the data in that 64 KB page. */
  lemma {:induction false} PagedDownload(d: Dfu, select: seq<Octet>, first: Word16, last: Word16, filler: seq<Octet>, rest: seq<seq<Octet>>, length: Word16, data: seq<Octet>)
    requires Open(d) && d.state != DownloadIdle && d.flash.page <= 510 && |filler| == FILLER_BYTES && length != 0 && length != 6
    requires |select| >= 4 && select[0] == COMMAND_CHANGE_BASE_ADDR && select[1] == 3 && select[2] == 0
    requires FillsRange(d.(flash64Page := select[3]), first, last, data) && Supplies(Endpoint([], rest), data)
    ensures var r := Handle(d, Dnload(length, [select] + [])).dfu;
      var s := Handle(r, Dnload(length, [AddressCommand(COMMAND_PROG_START, 0, first, last) + filler] + rest)).dfu;
      Programmed(s.flash, d.flash, select[3] * 65536 + first, data)
  {
    hide Handle, Supplies, Programmed, AddressCommand, FillsRange, Flash.Valid;
    PageSelected(d, length, select, []);
    var r := Handle(d, Dnload(length, [select] + [])).dfu;
    RangeMoved(d, r, first, last, data);
    DownloadRequest(r, first, last, filler, rest, length, data);
  }

  lemma {:induction false} RangeMoved(d: Dfu, r: Dfu, first: Word16, last: Word16, data: seq<Octet>)
    requires d.Valid() && r.Valid() && r.flash == d.flash && FillsRange(d.(flash64Page := r.flash64Page), first, last, data)
    ensures FillsRange(r, first, last, data)
  {
  }

  // ---- After an upload ----

  /** An upload that the host collects whole leaves the device idle at the end of the range, with memory as it was. */
  lemma {:induction false} UploadFinishes(d: Dfu, first: Word16, last: Word16, length: Word16, inPackets: nat)
    requires Open(d) && first % 2 == 0 && first <= last && last % 2 == 1 && last - first < 65535
    requires d.flash64Page * 65536 + last < |d.flash.mem| && last - first + 1 <= ENDPOINT_SIZE * inPackets
    ensures var r := Handle(d, Dnload(6, [AddressCommand(COMMAND_DISP_DATA, 0, first, last)])).dfu;
      var s := Handle(r, UploadReq(length, inPackets)).dfu;
      s.state == DfuIdle && s.startAddr == last && s.flash == d.flash
  {
    hide Handle, AddressCommand, FlashUpload;
    ReadRequest(d, first, last);
    var k := Handle(d, Dnload(6, [AddressCommand(COMMAND_DISP_DATA, 0, first, last)])).dfu;
    hide Dfu.ByteCount;
    WholeUpload(k, inPackets);
    UploadClosed(k, length, inPackets);
  }

  lemma {:induction false} UploadClosed(d: Dfu, length: Word16, inPackets: nat)
    requires d.Valid() && d.state == UploadIdle && d.sent.data[0] == 0 && inPackets > 0
    requires FlashUpload(d.flash, d.FlashAddress(), d.ByteCount() / 2, 0, inPackets - 1).done
    ensures var s := Handle(d, UploadReq(length, inPackets)).dfu;
      s.state == DfuIdle && s.startAddr == d.endAddr && s.flash == d.flash
  {
    hide FlashUpload;
  }

  // ---- Around a download ----

  /** After its data a download is still open, and a download request without data closes it. */
  lemma {:induction false} DownloadCloses(d: Dfu, first: Word16, last: Word16, filler: seq<Octet>, rest: seq<seq<Octet>>, length: Word16, data: seq<Octet>, m: Word16, n: nat)
    requires Open(d) && d.flash.page <= 510 && FillsRange(d, first, last, data) && Supplies(Endpoint([], rest), data)
    requires |filler| == FILLER_BYTES && length != 0 && length != 6 && d.status == StatusOk && n > 0
    ensures var r := Handle(d, Dnload(length, [AddressCommand(COMMAND_PROG_START, 0, first, last) + filler] + rest)).dfu;
      var s := Handle(r, Dnload(0, [])).dfu;
      && Handle(r, GetStatus(m, n)).bytes == [0, 0, 0, 0, 5, 0] && Handle(s, GetStatus(m, n)).bytes == [0, 0, 0, 0, 2, 0]
      && s.flash == r.flash && r.startAddr == last
  {
    hide ProcessCommand, ReceiveFirmware, LoadCommand, Supplies, Programmed, AddressCommand, FillsRange, Flash.Valid;
    DownloadRequest(d, first, last, filler, rest, length, data);
    DownloadState(d, first, last, filler, rest, length, data);
    var r := Handle(d, Dnload(length, [AddressCommand(COMMAND_PROG_START, 0, first, last) + filler] + rest)).dfu;
    hide HandleUpload;
    Reports(r, m, n);
    EmptyDownload(r);
    Reports(Handle(r, Dnload(0, [])).dfu, m, n);
  }

  lemma {:induction false} EmptyDownload(d: Dfu)
    requires d.Valid() && !d.waitForExit && d.state == DownloadIdle
    ensures Handle(d, Dnload(0, [])).dfu == d.(sent := d.sent.(size := 0), state := DfuIdle)
  {
    hide ProcessCommand, ReceiveFirmware, LoadCommand;
  }

  lemma {:induction false} DownloadState(d: Dfu, first: Word16, last: Word16, filler: seq<Octet>, rest: seq<seq<Octet>>, length: Word16, data: seq<Octet>)
    requires Open(d) && d.flash.page <= 510 && FillsRange(d, first, last, data) && Supplies(Endpoint([], rest), data)
    requires |filler| == FILLER_BYTES && length != 0 && length != 6
    ensures var r := Handle(d, Dnload(length, [AddressCommand(COMMAND_PROG_START, 0, first, last) + filler] + rest)).dfu;
      r.state == DownloadIdle && r.status == d.status && r.startAddr == last && !r.waitForExit
  {
    hide Handle, ProcessCommand, ReceiveFirmware, LoadCommand, Supplies, Flash.Erase, Underway, Programmed, AddressCommand, FillsRange;
    var command := AddressCommand(COMMAND_PROG_START, 0, first, last);
    DnloadSteps(d, length, command + filler, rest);
    LoadAddressCommand(d.sent.(size := length), COMMAND_PROG_START, 0, first, last, filler);
    RangeCommand(d, COMMAND_PROG_START, first, last, (length - 6) % 65536);
    assert (command + filler)[6..] == filler;
    var k := ProcessCommand(d.(sent := LoadCommand(d.sent.(size := length), command + filler)));
    RangeErased(d, k, first, last, data);
    FirmwareStage(k, d.flash, filler, rest, data);
  }

  // ---- Alignment bytes ----

  lemma {:induction false} DiscardWithin(ep: Endpoint, n: nat)
    requires n <= |ep.current|
    ensures Discard(ep, n) == Endpoint(ep.current[n..], ep.pending)
    decreases n
  {
    if n > 0 {
      DiscardWithin(ep.Skip(), n - 1);
    }
  }

  lemma {:induction false} DiscardAcross(packet: seq<Octet>, rest: seq<seq<Octet>>, n: nat)
    requires 0 < n <= |packet|
    ensures Discard(Endpoint([], [packet] + rest), n) == Endpoint(packet[n - 1..], rest)
  {
    var ep := Endpoint([], [packet] + rest);
    assert ([packet] + rest)[1..] == rest;
    assert ep.Refill() == Endpoint(packet, rest);
    DiscardWithin(Endpoint(packet, rest), n - 1);
  }

  /**
   * The fillers end the command packet; of the alignment bytes that follow, one is spent on the wait
   * for the next packet. So the firmware stage starts where the host means it to exactly when there
   * are none.
   */
  lemma {:induction false} AlignmentExactly(filler: seq<Octet>, packet: seq<Octet>, rest: seq<seq<Octet>>, n: nat)
    requires |filler| == FILLER_BYTES && n < ENDPOINT_SIZE && n <= |packet|
    ensures var ep := Discard(Discard(Endpoint(filler, [packet] + rest), FILLER_BYTES), n);
      && ep == (if n == 0 then Endpoint([], [packet] + rest) else Endpoint(packet[n - 1..], rest))
      && (ep.current + Concat(ep.pending) == packet[n..] + Concat(rest) <==> n == 0)
  {
    DiscardPacket(Endpoint(filler, [packet] + rest));
    if n > 0 {
      DiscardAcross(packet, rest, n);
      assert |packet[n - 1..]| == |packet[n..]| + 1;
    } else {
      assert ([packet] + rest)[1..] == rest;
      assert [] + (packet + Concat(rest)) == packet[0..] + Concat(rest);
    }
    hide Discard;
  }

  // ---- Leaving the bootloader ----

  const SELECT_START: Octet := 3

  /** A start command: the kind of start, and in a packet of six bytes or more the address of a jump. */
  predicate IsStart(packet: seq<Octet>) {
    |packet| >= 3 && packet[0] == COMMAND_WRITE && packet[1] == SELECT_START
  }

  /** A start command takes a jump address if the request announces more than its parameters, and acts at once if not. */
  lemma {:induction false} StartTaken(d: Dfu, length: Word16, packet: seq<Octet>)
    requires Open(d) && d.state != DownloadIdle && length != 0 && IsStart(packet)
    ensures var r := Handle(d, Dnload(length, [packet] + [])).dfu;
      && r.Valid() && r.waitForExit && r.state == d.state && !r.isSecure && r.flash == d.flash && r.eeprom == d.eeprom
      && r.sent.code == COMMAND_WRITE && r.sent.data[0] == SELECT_START && r.sent.data[1] == packet[2]
      && (r.watchdog ==> d.watchdog || packet[2] == 0) && (d.watchdog ==> r.watchdog)
      && (!r.running ==> !d.running || (packet[2] != 0 && d.flash.Read(0) == BLANK && d.flash.Read(1) == BLANK)) && (!d.running ==> !r.running)
  {
    var k := d.(sent := LoadCommand(d.sent.(size := length), packet));
    CommandLoaded(d.sent.(size := length), packet);
    hide LoadCommand, Flash.Valid, ChipErase;
    CommandHandled(d, length, packet, []);
    hide Handle;
  }

  lemma {:induction false} ExitStep(d: Dfu)
    requires d.Valid() && d.waitForExit && d.state != DownloadIdle && !d.isSecure
    ensures Handle(d, Dnload(0, [])).dfu == ProcessCommand(d.(sent := d.sent.(size := 0))).(waitForExit := false)
      || ProcessCommand(d.(sent := d.sent.(size := 0))).state == DownloadIdle
  {
    hide ProcessCommand, ReceiveFirmware, LoadCommand, HandleUpload;
  }

  /**
   * A start command and the empty download that confirms it: a start by reset arms the watchdog; any
   * other start ends the bootloader exactly when the first word of flash is blank. Memory is not changed.
   */
  lemma {:induction false} StartConfirmed(d: Dfu, length: Word16, packet: seq<Octet>)
    requires Open(d) && d.state != DownloadIdle && length != 0 && IsStart(packet) && d.running && !d.watchdog
    ensures var s := Handle(Handle(d, Dnload(length, [packet] + [])).dfu, Dnload(0, [])).dfu;
      && s.watchdog == (packet[2] == 0)
      && (!s.running <==> packet[2] != 0 && d.flash.Read(0) == BLANK && d.flash.Read(1) == BLANK)
      && !s.waitForExit && s.flash == d.flash && s.eeprom == d.eeprom
  {
    StartTaken(d, length, packet);
    var r := Handle(d, Dnload(length, [packet] + [])).dfu;
    hide Handle, Flash.Valid, ChipErase;
    ExitStep(r);
  }

  /** The jump address is the fifth and sixth byte of the packet, exactly when the request announces more than six bytes. */
  lemma {:induction false} JumpAddress(d: Dfu, length: Word16, packet: seq<Octet>)
    requires Open(d) && d.state != DownloadIdle && length != 0 && IsStart(packet) && |packet| >= 6 && packet[2] == 1
    ensures var s := Handle(Handle(d, Dnload(length, [packet] + [])).dfu, Dnload(0, [])).dfu;
      s.appStart == if length != 6 then 256 * packet[4] as int + packet[5] else d.appStart
  {
    var k := d.(sent := LoadCommand(d.sent.(size := length), packet));
    assert k.sent == Command(packet[0], packet[1..6], (length - 6) % 65536) by {
      assert packet[1..6] + d.sent.data[5..] == packet[1..6];
    }
    hide LoadCommand, Flash.Valid, ChipErase;
    CommandHandled(d, length, packet, []);
    StartTaken(d, length, packet);
    var r := Handle(d, Dnload(length, [packet] + [])).dfu;
    hide Handle;
    ExitStep(r);
  }

  // ---- Requests that do nothing ----

  /** A request that is not of the class might as well not have been made. */
  lemma {:induction false} ForeignIgnored(d: Dfu, before: seq<Request>, after: seq<Request>)
    requires d.Valid()
    ensures Run(d, before + [Foreign] + after) == Run(d, before + after)
    decreases |after|
  {
    hide HandleDnload, HandleUpload;
    var with, without := before + [Foreign] + after, before + after;
    if after == [] {
      assert with[..|with| - 1] == before && without == before;
      assert Run(d, before).bytes + [] == Run(d, before).bytes;
    } else {
      var last := |after| - 1;
      ForeignIgnored(d, before, after[..last]);
      assert with[..|with| - 1] == before + [Foreign] + after[..last];
      assert without[..|without| - 1] == before + after[..last];
      hide Handle;
    }
  }

  /** A download request without data packets erases the first page of its range and stays open at its start. */
  lemma {:induction false} DownloadWithoutData(d: Dfu, first: Word16, last: Word16, filler: seq<Octet>, length: Word16)
    requires Open(d) && first % ENDPOINT_SIZE == 0 && first % 2 == 0 && first < last && last - first < 65535
    requires |filler| == FILLER_BYTES && length != 0 && length != 6
    ensures var r := Handle(d, Dnload(length, [AddressCommand(COMMAND_PROG_START, 0, first, last) + filler] + [])).dfu;
      r.state == DownloadIdle && r.startAddr == first && r.endAddr == last && r.flash == d.flash.Erase(d.flash64Page * 65536 + first)
  {
    hide Handle, ProcessCommand, ReceiveFirmware, LoadCommand, AddressCommand, Flash.Valid;
    var command := AddressCommand(COMMAND_PROG_START, 0, first, last);
    DnloadSteps(d, length, command + filler, []);
    LoadAddressCommand(d.sent.(size := length), COMMAND_PROG_START, 0, first, last, filler);
    RangeCommand(d, COMMAND_PROG_START, first, last, (length - 6) % 65536);
    assert (command + filler)[6..] == filler;
    var k := ProcessCommand(d.(sent := LoadCommand(d.sent.(size := length), command + filler)));
    NothingReceived(k, filler);
  }

  lemma {:induction false} NothingReceived(d: Dfu, filler: seq<Octet>)
    requires d.Valid() && |filler| == FILLER_BYTES && d.sent.data[0] == 0 && d.ByteCount() >= 2 && d.startAddr % ENDPOINT_SIZE == 0
    ensures ReceiveFirmware(d, Endpoint(filler, [])) == d
  {
    hide Flash.Valid, Discard;
    DiscardPacket(Endpoint(filler, []));
    assert Discard(Endpoint([], []), 0) == Endpoint([], []) by { DiscardWithin(Endpoint([], []), 0); }
  }
}
