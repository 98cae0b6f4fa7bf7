/**
 * The DFU bootloader as it is coded: global registers changed by the request handler, and word and
 * byte loops over the two memories and the control endpoint.
 */
module DfuCode {
  import opened Memory
  import opened DfuModel

  lemma {:induction false} OneLess(x: int)
    ensures (x % 65536 - 1) % 65536 == (x - 1) % 65536
  {
  }

  class DfuDevice {
    var isSecure: bool
    var running: bool
    var waitForExit: bool
    var state: DfuState
    var status: DfuStatus
    var sent: Command
    var response: Octet
    var appStart: Word16
    var watchdog: bool
    var flash64Page: Octet
    var startAddr: Word16
    var endAddr: Word16
    var flash: Flash
    var eeprom: seq<Octet>
    const signature: seq<Octet>

    function Snapshot(): Dfu
      reads this
    {
      Dfu(isSecure, running, waitForExit, state, status, sent, response, appStart, watchdog, flash64Page, startAddr,
        endAddr, flash, eeprom, signature)
    }

    constructor (secureMode: bool, f: Flash, e: seq<Octet>, s: seq<Octet>)
      requires f.Valid() && |s| == 4
      ensures Snapshot().Valid() && isSecure == secureMode && flash == f && eeprom == e && signature == s
      ensures state == DfuIdle && status == StatusOk && running && !waitForExit
    {
      isSecure, running, waitForExit := secureMode, true, false;
      state, status := DfuIdle, StatusOk;
      sent := Command(0, [0, 0, 0, 0, 0], 0);
      response, appStart, watchdog, flash64Page, startAddr, endAddr := 0, 0, false, 0, 0, 0;
      flash, eeprom, signature := f, e, s;
    }

    /** The word loop of a flash download. */
    method DownloadFlashWords(ep0: Endpoint, words: nat) returns (done: bool)
      requires flash.Valid()
      modifies this`flash
      ensures var t := FlashDownload(old(flash), ep0, Snapshot().FlashAddress(), Snapshot().FlashAddress(), 0, words);
        flash == t.flash && done == t.done
    {
      hide Flash.Fill, Flash.Write, Flash.Erase;
      var ep, remaining: nat := ep0, words;
      var addr: nat := flash64Page * 65536 + startAddr;
      var pageStart: nat, inPage: nat := addr, 0;
      ghost var goal := FlashDownload(flash, ep, addr, pageStart, inPage, remaining);
      while remaining > 0
        invariant flash.Valid() && FlashDownload(flash, ep, addr, pageStart, inPage, remaining) == goal
        decreases remaining
      {
        if !ep.Ready() {
          return false;
        }
        ep := ep.Refill();
        remaining := remaining - 1;
        flash := flash.Fill(addr, ep.Byte(), ep.Skip().Byte());
        ep := ep.Skip().Skip();
        inPage := (inPage + 1) % 256;
        addr := addr + 2;
        if inPage == flash.page / 2 || remaining == 0 {
          flash := flash.Write(pageStart);
          if remaining > 0 {
            pageStart, inPage := addr, 0;
            flash := flash.Erase(addr);
          }
        }
      }
      done := true;
    }

    /** The byte loop of an EEPROM download. */
    method DownloadEepromBytes(ep0: Endpoint, bytes: nat)
      modifies this`eeprom, this`startAddr
      ensures var t := DownloadEeprom(old(eeprom), ep0, old(startAddr), bytes);
        eeprom == t.eeprom && startAddr == t.addr
    {
      var ep, remaining := ep0, bytes;
      ghost var goal := DownloadEeprom(eeprom, ep, startAddr, remaining);
      while remaining > 0
        invariant DownloadEeprom(eeprom, ep, startAddr, remaining) == goal
        decreases remaining
      {
        if !ep.Ready() {
          return;
        }
        ep := ep.Refill();
        remaining := remaining - 1;
        eeprom := StoreEeprom(eeprom, startAddr, ep.Byte());
        ep := ep.Skip();
        startAddr := (startAddr + 1) % 65536;
      }
    }

    /** The word loop of a flash upload. */
    method UploadFlashWords(words: nat, inPackets: nat) returns (bytes: seq<Octet>, done: bool)
      ensures Upload(bytes, done) == FlashUpload(flash, Snapshot().FlashAddress(), words, 0, inPackets)
    {
      bytes := [];
      var remaining: nat, inPacket: nat, packets: nat := words, 0, inPackets;
      var addr: nat := flash64Page * 65536 + startAddr;
      ghost var goal := FlashUpload(flash, addr, words, 0, inPackets);
      while remaining > 0
        invariant var rest := FlashUpload(flash, addr, remaining, inPacket, packets);
          goal == Upload(bytes + rest.sent, rest.done)
        decreases remaining
      {
        if inPacket == ENDPOINT_SIZE {
          if packets == 0 {
            return bytes, false;
          }
          packets, inPacket := packets - 1, 0;
        }
        bytes := bytes + [flash.Read(addr), flash.Read(addr + 1)];
        inPacket := inPacket + 2;
        addr, remaining := addr + 2, remaining - 1;
      }
      done := true;
    }

    /** The byte loop of an EEPROM upload. */
    method UploadEepromBytes(count: nat, inPackets: nat) returns (bytes: seq<Octet>, done: bool)
      modifies this`startAddr
      ensures EepromUpload(bytes, startAddr, done) == UploadEeprom(eeprom, old(startAddr), count, 0, inPackets)
    {
      bytes := [];
      var remaining: nat, inPacket: nat, packets: nat := count, 0, inPackets;
      ghost var goal := UploadEeprom(eeprom, startAddr, count, 0, inPackets);
      while remaining > 0
        invariant var rest := UploadEeprom(eeprom, startAddr, remaining, inPacket, packets);
          goal == EepromUpload(bytes + rest.sent, rest.addr, rest.done)
        decreases remaining
      {
        if inPacket == ENDPOINT_SIZE {
          if packets == 0 {
            return bytes, false;
          }
          packets, inPacket := packets - 1, 0;
        }
        bytes := bytes + [LoadEeprom(eeprom, startAddr)];
        inPacket := inPacket + 1;
        startAddr := (startAddr + 1) % 65536;
        remaining := remaining - 1;
      }
      done := true;
    }

    /** Erases the application section page by page. */
    method EraseChip()
      requires flash.Valid()
      modifies this`flash, this`isSecure
      ensures flash == ChipErase(old(flash), 0).EnableRww() && !isSecure
    {
      hide Flash.Erase, Flash.Write;
      ghost var goal := ChipErase(flash, 0);
      var addr := 0;
      while addr < flash.boot
        invariant flash.Valid() && flash.boot == old(flash.boot) && flash.page == old(flash.page)
        invariant ChipErase(flash, addr) == goal
        decreases flash.boot - addr
      {
        flash := flash.Erase(addr);
        flash := flash.Write(addr);
        addr := addr + flash.page;
      }
      flash := flash.EnableRww();
      isSecure := false;
    }

    /** Looks for the first application byte that is not blank. */
    method BlankCheck()
      requires flash.Valid()
      modifies this
      ensures var d := old(Snapshot());
        var a := FirstUsed(d.flash, 0);
        Snapshot() == if a < d.flash.boot then
          d.(flash64Page := a / 65536 % 256, startAddr := a % 65536, state := DfuError, status := ErrCheckErased)
        else d
    {
      ghost var goal := FirstUsed(flash, 0);
      var addr: nat := 0;
      while addr < flash.boot
        invariant addr <= flash.boot && FirstUsed(flash, addr) == goal && Snapshot() == old(Snapshot())
        decreases flash.boot - addr
      {
        if flash.Read(addr) != BLANK {
          flash64Page := addr / 65536 % 256;
          startAddr := addr % 65536;
          state := DfuError;
          status := ErrCheckErased;
          break;
        }
        addr := addr + 1;
      }
    }

    method LoadStartEndAddresses()
      requires Snapshot().Valid()
      modifies this`startAddr, this`endAddr
      ensures Snapshot() == LoadAddresses(old(Snapshot()))
    {
      startAddr := BigEndian(sent.data[1], sent.data[2]);
      endAddr := BigEndian(sent.data[3], sent.data[4]);
    }

    method ProcessMemProgCommand()
      requires Snapshot().Valid()
      modifies this
      ensures Snapshot() == MemProg(old(Snapshot()))
    {
      hide Flash.Erase;
      if sent.data[0] == 0 || sent.data[0] == 1 {
        LoadStartEndAddresses();
        if sent.data[0] == 0 {
          flash := flash.Erase(flash64Page * 65536 + startAddr);
        }
        state := DownloadIdle;
      }
    }

    method ProcessMemReadCommand()
      requires Snapshot().Valid()
      modifies this
      ensures Snapshot() == MemRead(old(Snapshot()))
    {
      hide FirstUsed;
      if sent.data[0] == 0 || sent.data[0] == 2 {
        LoadStartEndAddresses();
        state := UploadIdle;
      } else if sent.data[0] == 1 {
        BlankCheck();
      }
    }

    method ProcessWriteCommand()
      requires Snapshot().Valid()
      modifies this
      ensures Snapshot() == WriteCommand(old(Snapshot()))
    {
      hide ChipErase;
      if sent.data[0] == 3 {
        waitForExit := true;
        if sent.size != 0 {
          if sent.data[1] == 1 {
            appStart := BigEndian(sent.data[3], sent.data[4]);
          }
        } else if sent.data[1] == 0 {
          watchdog := true;
        } else if flash.Read(0) == BLANK && flash.Read(1) == BLANK {
          running := false;
        }
      } else if sent.data[0] == 0 && sent.data[1] == 0xFF {
        EraseChip();
      }
    }

    method ProcessReadCommand()
      requires Snapshot().Valid()
      modifies this
      ensures Snapshot() == ReadCommand(old(Snapshot()))
    {
      var index, invalid := sent.data[1], false;
      if sent.data[0] == 0 {
        if index < 3 {
          response := BOOTLOADER_INFO[index];
        } else {
          invalid := true;
        }
      } else if sent.data[0] == 1 {
        match index
        case 0x30 => response := signature[0];
        case 0x31 => response := signature[1];
        case 0x60 => response := signature[2];
        case 0x61 => response := signature[3];
        case _ => invalid := true;
      }
      if invalid {
        state := DfuError;
        status := ErrAddress;
      }
    }

    method ProcessBootloaderCommand()
      requires Snapshot().Valid()
      modifies this
      ensures Snapshot() == ProcessCommand(old(Snapshot()))
    {
      hide MemProg, MemRead, WriteCommand, ReadCommand;
      if isSecure {
        if !((sent.code == COMMAND_WRITE && sent.data[0] == 0 && sent.data[1] == 0xFF) || sent.code == COMMAND_READ) {
          state := DfuError;
          status := ErrWrite;
          return;
        }
      }
      match sent.code
      case 0x01 => ProcessMemProgCommand();
      case 0x03 => ProcessMemReadCommand();
      case 0x04 => ProcessWriteCommand();
      case 0x05 => ProcessReadCommand();
      case 0x06 =>
        if sent.data[0] == 3 && sent.data[1] == 0 {
          flash64Page := sent.data[2];
        }
      case _ =>
    }

    /** Reads the command and its parameters from the first packet of a download. */
    method LoadSentCommand(packet: seq<Octet>) returns (rest: seq<Octet>)
      requires sent.Valid()
      modifies this`sent
      ensures sent == LoadCommand(old(sent), packet)
      ensures rest == if |packet| <= 6 then [] else packet[6..]
    {
      var c := sent;
      var code := if packet == [] then 0 else packet[0];
      var data, size := c.data, (c.size - 1) % 65536;
      var i: nat := 0;
      while i < 5 && 1 + i < |packet|
        invariant i <= 5 && |data| == 5 && (i > 0 ==> 1 + i <= |packet|)
        invariant forall j | 0 <= j < 5 :: data[j] == if j < i then packet[1 + j] else c.data[j]
        invariant size == (c.size - 1 - i) % 65536
      {
        data := data[i := packet[1 + i]];
        OneLess(c.size - 1 - i);
        size := (size - 1) % 65536;
        i := i + 1;
      }
      assert data == if i == 0 then c.data else packet[1..1 + i] + c.data[i..];
      sent := Command(code, data, size);
      rest := if |packet| <= 1 + i then [] else packet[1 + i..];
    }

    /** The firmware stage of a download. */
    method ReceiveFirmwareStage(ep0: Endpoint)
      requires Snapshot().Valid()
      modifies this
      ensures Snapshot() == ReceiveFirmware(old(Snapshot()), ep0)
    {
      hide FlashDownload, DownloadEeprom, Discard;
      var ep := Discard(Discard(ep0, FILLER_BYTES), startAddr % ENDPOINT_SIZE);
      var bytesRemaining := (endAddr - startAddr + 1) % 65536;
      if sent.data[0] == 0 {
        var done := DownloadFlashWords(ep, bytesRemaining / 2);
        if done {
          startAddr := endAddr;
          flash := flash.EnableRww();
        }
      } else {
        DownloadEepromBytes(ep, bytesRemaining);
      }
    }

    method HandleDnloadRequest(packets: seq<seq<Octet>>)
      requires Snapshot().Valid()
      modifies this
      ensures Snapshot() == HandleDnload(old(Snapshot()), packets)
    {
      hide ProcessCommand, ReceiveFirmware, LoadCommand;
      if waitForExit {
        ProcessBootloaderCommand();
        waitForExit := false;
      }
      var ep := Endpoint([], packets);
      if sent.size != 0 {
        if packets == [] {
          return;
        }
        var rest := LoadSentCommand(packets[0]);
        ep := Endpoint(rest, packets[1..]);
        ProcessBootloaderCommand();
      }
      if state == DownloadIdle {
        if sent.size == 0 {
          state := DfuIdle;
        } else {
          ReceiveFirmwareStage(ep);
        }
      }
    }

    method HandleUploadRequest(inPackets: nat) returns (bytes: seq<Octet>)
      requires Snapshot().Valid()
      modifies this
      ensures Reply(Snapshot(), bytes) == HandleUpload(old(Snapshot()), inPackets)
    {
      hide FlashUpload, UploadEeprom;
      bytes := [];
      if inPackets == 0 {
        return;
      }
      if state != UploadIdle {
        if state == DfuError && sent.data[0] == 1 {
          bytes := [startAddr % 256, startAddr / 256];
        } else {
          bytes := [response];
        }
      } else {
        var bytesRemaining := (endAddr - startAddr + 1) % 65536;
        var done := true;
        if sent.data[0] == 0 {
          bytes, done := UploadFlashWords(bytesRemaining / 2, inPackets - 1);
          if !done {
            return;
          }
          startAddr := endAddr;
        } else if sent.data[0] == 2 {
          bytes, done := UploadEepromBytes(bytesRemaining, inPackets - 1);
          if !done {
            return;
          }
        }
        state := DfuIdle;
      }
    }

    /** Handles one control request. */
    method ControlRequest(r: Request) returns (bytes: seq<Octet>)
      requires Snapshot().Valid()
      modifies this
      ensures Reply(Snapshot(), bytes) == Handle(old(Snapshot()), r)
    {
      hide HandleDnload, HandleUpload;
      bytes := [];
      if r.Foreign? {
        return;
      }
      sent := sent.(size := r.length);
      match r
      case Dnload(_, packets) =>
        HandleDnloadRequest(packets);
      case UploadReq(_, inPackets) =>
        bytes := HandleUploadRequest(inPackets);
      case GetStatus(_, inPackets) =>
        if inPackets > 0 {
          bytes := [status.Code(), 0, 0, 0, state.Code(), 0];
        }
      case ClrStatus(_) =>
        status := StatusOk;
      case GetState(_, inPackets) =>
        if inPackets > 0 {
          bytes := [state.Code()];
        }
      case Abort(_) =>
        state := DfuIdle;
      case OtherRequest(_) =>
    }
  }
}
