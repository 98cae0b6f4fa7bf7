/**
 * The DFU-class bootloader: control requests, the commands they carry, and their effect on flash
 * and EEPROM. A request brings the OUT packets the host will send and the number of IN packets it
 * will collect; when they run out the host has detached, and the handler returns where it waits.
 */
module DfuModel {
  import opened Memory

  const ENDPOINT_SIZE: nat := 32
  const FILLER_BYTES: nat := 26

  const COMMAND_PROG_START: Octet := 0x01
  const COMMAND_DISP_DATA: Octet := 0x03
  const COMMAND_WRITE: Octet := 0x04
  const COMMAND_READ: Octet := 0x05
  const COMMAND_CHANGE_BASE_ADDR: Octet := 0x06

  /** Bootloader version 2.0 and its two identification bytes. */
  const BOOTLOADER_INFO: seq<Octet> := [0x20, 0xDC, 0xFB]

  datatype DfuState = DfuIdle | DownloadIdle | UploadIdle | DfuError {
    function Code(): Octet {
      match this case DfuIdle => 2 case DownloadIdle => 5 case UploadIdle => 9 case DfuError => 10
    }
  }

  datatype DfuStatus = StatusOk | ErrWrite | ErrCheckErased | ErrAddress {
    function Code(): Octet {
      match this case StatusOk => 0 case ErrWrite => 3 case ErrCheckErased => 5 case ErrAddress => 8
    }
  }

  type Word16 = w: int | 0 <= w < 65536

  /** The last command received: its code, five parameter bytes, and the size left after them. */
  datatype Command = Command(code: Octet, data: seq<Octet>, size: Word16) {
    predicate Valid() {
      |data| == 5
    }
  }

  datatype Dfu = Dfu(
    isSecure: bool, running: bool, waitForExit: bool, state: DfuState, status: DfuStatus, sent: Command,
    response: Octet, appStart: Word16, watchdog: bool, flash64Page: Octet, startAddr: Word16, endAddr: Word16,
    flash: Flash, eeprom: seq<Octet>, signature: seq<Octet>)
  {
    predicate Valid() {
      sent.Valid() && flash.Valid() && |signature| == 4
    }

    /** The current 16-bit address in the current 64 KB page of flash. */
    function FlashAddress(): nat {
      flash64Page * 65536 + startAddr
    }

    /** The number of bytes from the start to the end address, in sixteen bits. */
    function ByteCount(): Word16 {
      (endAddr - startAddr + 1) % 65536
    }
  }

  // ---- The OUT endpoint ----

  datatype Endpoint = Endpoint(current: seq<Octet>, pending: seq<seq<Octet>>) {
    /** Ready to be read: the current packet has bytes left, or another packet has arrived. */
    predicate Ready() {
      current != [] || pending != []
    }

    function Refill(): Endpoint
      requires Ready()
    {
      if current != [] then this else Endpoint(pending[0], pending[1..])
    }

    /** A read from an empty packet gives zero. */
    function Byte(): Octet {
      if current == [] then 0 else current[0]
    }

    function Skip(): Endpoint {
      if current == [] then this else Endpoint(current[1..], pending)
    }
  }

  /** Discards n bytes; at a packet boundary one of the n is spent on the wait itself. */
  function Discard(ep: Endpoint, n: nat): Endpoint
    decreases n
  {
    if n == 0 || !ep.Ready() then ep
    else if ep.current == [] then Discard(ep.Refill(), n - 1)
    else Discard(ep.Skip(), n - 1)
  }

  // ---- Memory loops ----

  datatype Download = Download(flash: Flash, ep: Endpoint, done: bool)

  /** The word loop of a flash download. The count of words in the page is eight bits wide. */
  function FlashDownload(f: Flash, ep: Endpoint, addr: nat, pageStart: nat, inPage: nat, remaining: nat): (r: Download)
    requires f.Valid()
    ensures r.flash.Valid()
    decreases remaining
  {
    if remaining == 0 then Download(f, ep, true)
    else if !ep.Ready() then Download(f, ep, false)
    else
      var e := ep.Refill();
      var e' := e.Skip().Skip();
      var g := f.Fill(addr, e.Byte(), e.Skip().Byte());
      var words := (inPage + 1) % 256;
      if words == f.page / 2 || remaining == 1 then
        var h := g.Write(pageStart);
        if remaining == 1 then Download(h, e', true)
        else FlashDownload(h.Erase(addr + 2), e', addr + 2, addr + 2, 0, remaining - 1)
      else FlashDownload(g, e', addr + 2, pageStart, words, remaining - 1)
  }

  datatype EepromDownload = EepromDownload(eeprom: seq<Octet>, ep: Endpoint, addr: Word16, done: bool)

  function DownloadEeprom(eeprom: seq<Octet>, ep: Endpoint, addr: Word16, remaining: nat): EepromDownload
    decreases remaining
  {
    if remaining == 0 then EepromDownload(eeprom, ep, addr, true)
    else if !ep.Ready() then EepromDownload(eeprom, ep, addr, false)
    else
      var e := ep.Refill();
      DownloadEeprom(StoreEeprom(eeprom, addr, e.Byte()), e.Skip(), (addr + 1) % 65536, remaining - 1)
  }

  /** The bytes handed to the IN endpoint, and whether the loop ran to its end. */
  datatype Upload = Upload(sent: seq<Octet>, done: bool)

  /** The word loop of a flash upload; each further packet needs the host to collect the last one. */
  function FlashUpload(f: Flash, addr: nat, remaining: nat, inPacket: nat, packets: nat): Upload
    decreases remaining
  {
    if remaining == 0 then Upload([], true)
    else if inPacket == ENDPOINT_SIZE && packets == 0 then Upload([], false)
    else
      var full := inPacket == ENDPOINT_SIZE;
      var rest := FlashUpload(f, addr + 2, remaining - 1,
        if full then 2 else inPacket + 2, if full then packets - 1 else packets);
      Upload([f.Read(addr), f.Read(addr + 1)] + rest.sent, rest.done)
  }

  datatype EepromUpload = EepromUpload(sent: seq<Octet>, addr: Word16, done: bool)

  function UploadEeprom(eeprom: seq<Octet>, addr: Word16, remaining: nat, inPacket: nat, packets: nat): EepromUpload
    decreases remaining
  {
    if remaining == 0 then EepromUpload([], addr, true)
    else if inPacket == ENDPOINT_SIZE && packets == 0 then EepromUpload([], addr, false)
    else
      var full := inPacket == ENDPOINT_SIZE;
      var rest := UploadEeprom(eeprom, (addr + 1) % 65536, remaining - 1,
        if full then 1 else inPacket + 1, if full then packets - 1 else packets);
      EepromUpload([LoadEeprom(eeprom, addr)] + rest.sent, rest.addr, rest.done)
  }

  /** Erases and writes back every page of the application section from addr on. */
  function ChipErase(f: Flash, addr: nat): (g: Flash)
    requires f.Valid()
    ensures g.Valid()
    decreases f.boot - addr
  {
    if addr >= f.boot then f else ChipErase(f.Erase(addr).Write(addr), addr + f.page)
  }

  /** The first address from addr on, below the boot section, that is not blank; the boot address if none. */
  function FirstUsed(f: Flash, addr: nat): nat
    decreases f.boot - addr
  {
    if addr >= f.boot then f.boot
    else if f.Read(addr) != BLANK then addr
    else FirstUsed(f, addr + 1)
  }

  // ---- Commands ----

  function BigEndian(high: Octet, low: Octet): Word16 {
    high as int * 256 + low
  }

  function LoadAddresses(d: Dfu): Dfu
    requires d.Valid()
  {
    var p := d.sent.data;
    d.(startAddr := BigEndian(p[1], p[2]), endAddr := BigEndian(p[3], p[4]))
  }

  function MemProg(d: Dfu): (r: Dfu)
    requires d.Valid()
    ensures r.Valid() && (r.isSecure == d.isSecure)
  {
    if d.sent.data[0] == 0 || d.sent.data[0] == 1 then
      var k := LoadAddresses(d);
      k.(flash := if d.sent.data[0] == 0 then k.flash.Erase(k.FlashAddress()) else k.flash, state := DownloadIdle)
    else d
  }

  function MemRead(d: Dfu): (r: Dfu)
    requires d.Valid()
    ensures r.Valid() && (r.isSecure == d.isSecure)
  {
    if d.sent.data[0] == 0 || d.sent.data[0] == 2 then LoadAddresses(d).(state := UploadIdle)
    else if d.sent.data[0] == 1 then
      var a := FirstUsed(d.flash, 0);
      if a < d.flash.boot then
        d.(flash64Page := a / 65536 % 256, startAddr := a % 65536, state := DfuError, status := ErrCheckErased)
      else d
    else d
  }

  function WriteCommand(d: Dfu): (r: Dfu)
    requires d.Valid()
    ensures r.Valid() && (r.isSecure ==> d.isSecure)
  {
    var p := d.sent.data;
    if p[0] == 3 then
      var k := d.(waitForExit := true);
      if d.sent.size != 0 then if p[1] == 1 then k.(appStart := BigEndian(p[3], p[4])) else k
      else if p[1] == 0 then k.(watchdog := true)
      else if d.flash.Read(0) == BLANK && d.flash.Read(1) == BLANK then k.(running := false)
      else k
    else if p[0] == 0 && p[1] == 0xFF then
      d.(flash := ChipErase(d.flash, 0).EnableRww(), isSecure := false)
    else d
  }

  function ReadCommand(d: Dfu): (r: Dfu)
    requires d.Valid()
    ensures r.Valid() && (r.isSecure == d.isSecure)
  {
    var p := d.sent.data;
    var invalid := d.(state := DfuError, status := ErrAddress);
    if p[0] == 0 then
      if p[1] < 3 then d.(response := BOOTLOADER_INFO[p[1]]) else invalid
    else if p[0] == 1 then
      if p[1] == 0x30 then d.(response := d.signature[0])
      else if p[1] == 0x31 then d.(response := d.signature[1])
      else if p[1] == 0x60 then d.(response := d.signature[2])
      else if p[1] == 0x61 then d.(response := d.signature[3])
      else invalid
    else d
  }

  /** In secure mode only a read command and the chip erase pass. */
  predicate AllowedInSecure(c: Command)
    requires c.Valid()
  {
    (c.code == COMMAND_WRITE && c.data[0] == 0 && c.data[1] == 0xFF) || c.code == COMMAND_READ
  }

  function ProcessCommand(d: Dfu): (r: Dfu)
    requires d.Valid()
    ensures r.Valid() && (r.isSecure ==> d.isSecure)
  {
    if d.isSecure && !AllowedInSecure(d.sent) then d.(state := DfuError, status := ErrWrite)
    else if d.sent.code == COMMAND_PROG_START then MemProg(d)
    else if d.sent.code == COMMAND_DISP_DATA then MemRead(d)
    else if d.sent.code == COMMAND_WRITE then WriteCommand(d)
    else if d.sent.code == COMMAND_READ then ReadCommand(d)
    else if d.sent.code == COMMAND_CHANGE_BASE_ADDR && d.sent.data[0] == 3 && d.sent.data[1] == 0 then
      d.(flash64Page := d.sent.data[2])
    else d
  }

  // ---- Requests ----

  datatype Request =
    | Dnload(length: Word16, packets: seq<seq<Octet>>)
    | UploadReq(length: Word16, inPackets: nat)
    | GetStatus(length: Word16, inPackets: nat)
    | ClrStatus(length: Word16)
    | GetState(length: Word16, inPackets: nat)
    | Abort(length: Word16)
    | OtherRequest(length: Word16)
    | Foreign

  /** Loads the command byte and up to five parameters from the first packet of a download. */
  function LoadCommand(c: Command, packet: seq<Octet>): (r: Command)
    requires c.Valid()
    ensures r.Valid()
  {
    var n := if |packet| <= 1 then 0 else if |packet| <= 6 then |packet| - 1 else 5;
    Command(if packet == [] then 0 else packet[0],
      if n == 0 then c.data else packet[1..1 + n] + c.data[n..],
      (c.size - 1 - n) % 65536)
  }

  /** The firmware stage of a download request. */
  function ReceiveFirmware(d: Dfu, ep0: Endpoint): (r: Dfu)
    requires d.Valid()
    ensures r.Valid() && r.isSecure == d.isSecure
  {
    var ep := Discard(Discard(ep0, FILLER_BYTES), d.startAddr % ENDPOINT_SIZE);
    if d.sent.data[0] == 0 then
      var t := FlashDownload(d.flash, ep, d.FlashAddress(), d.FlashAddress(), 0, d.ByteCount() / 2);
      if t.done then d.(flash := t.flash.EnableRww(), startAddr := d.endAddr) else d.(flash := t.flash)
    else
      var t := DownloadEeprom(d.eeprom, ep, d.startAddr, d.ByteCount());
      d.(eeprom := t.eeprom, startAddr := t.addr)
  }

  function HandleDnload(d0: Dfu, packets: seq<seq<Octet>>): (r: Dfu)
    requires d0.Valid()
    ensures r.Valid() && (r.isSecure ==> d0.isSecure)
  {
    var d := if d0.waitForExit then ProcessCommand(d0).(waitForExit := false) else d0;
    if d.sent.size != 0 && packets == [] then d
    else
      var k := if d.sent.size == 0 then d else ProcessCommand(d.(sent := LoadCommand(d.sent, packets[0])));
      var ep := if d.sent.size == 0 then Endpoint([], packets)
                else Endpoint(if |packets[0]| <= 6 then [] else packets[0][6..], packets[1..]);
      if k.state != DownloadIdle then k
      else if k.sent.size == 0 then k.(state := DfuIdle)
      else ReceiveFirmware(k, ep)
  }

  /** The new state and the bytes sent to the host. */
  datatype Reply = Reply(dfu: Dfu, bytes: seq<Octet>)

  function HandleUpload(d: Dfu, inPackets: nat): (r: Reply)
    requires d.Valid()
    ensures r.dfu.Valid() && r.dfu.isSecure == d.isSecure
  {
    if inPackets == 0 then Reply(d, [])
    else if d.state != UploadIdle then
      if d.state == DfuError && d.sent.data[0] == 1 then Reply(d, [d.startAddr % 256, d.startAddr / 256])
      else Reply(d, [d.response])
    else if d.sent.data[0] == 0 then
      var t := FlashUpload(d.flash, d.FlashAddress(), d.ByteCount() / 2, 0, inPackets - 1);
      Reply(if t.done then d.(startAddr := d.endAddr, state := DfuIdle) else d, t.sent)
    else if d.sent.data[0] == 2 then
      var t := UploadEeprom(d.eeprom, d.startAddr, d.ByteCount(), 0, inPackets - 1);
      var k := d.(startAddr := t.addr);
      Reply(if t.done then k.(state := DfuIdle) else k, t.sent)
    else Reply(d.(state := DfuIdle), [])
  }

  function Handle(d0: Dfu, r: Request): (reply: Reply)
    requires d0.Valid()
    ensures reply.dfu.Valid() && (reply.dfu.isSecure ==> d0.isSecure)
  {
    if r.Foreign? then Reply(d0, [])
    else
      var d := d0.(sent := d0.sent.(size := r.length));
      match r
      case Dnload(_, packets) => Reply(HandleDnload(d, packets), [])
      case UploadReq(_, inPackets) => HandleUpload(d, inPackets)
      case GetStatus(_, inPackets) =>
        Reply(d, if inPackets == 0 then [] else [d.status.Code(), 0, 0, 0, d.state.Code(), 0])
      case ClrStatus(_) => Reply(d.(status := StatusOk), [])
      case GetState(_, inPackets) => Reply(d, if inPackets == 0 then [] else [d.state.Code()])
      case Abort(_) => Reply(d.(state := DfuIdle), [])
      case OtherRequest(_) => Reply(d, [])
  }

  /** A run of requests: the final state and everything sent. */
  function Run(d: Dfu, rs: seq<Request>): (reply: Reply)
    requires d.Valid()
    ensures reply.dfu.Valid()
  {
    if rs == [] then Reply(d, [])
    else
      var first := Run(d, rs[..|rs| - 1]);
      var last := Handle(first.dfu, rs[|rs| - 1]);
      Reply(last.dfu, first.bytes + last.bytes)
  }
}
