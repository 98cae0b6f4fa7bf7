/**
 * Secure mode of the DFU bootloader. Until a chip erase nothing in memory changes, nothing that is
 * sent depends on what memory holds, and the erase that opens the device leaves the application
 * section blank.
 */
module DfuSecurity {
  import opened Arith
  import opened Memory
  import opened PageProgramming
  import opened DfuModel

  /** While secure, the device is idle or in error, is not about to exit, and has buffered nothing. */
  predicate Sealed(d: Dfu) {
    d.isSecure ==> (d.state == DfuIdle || d.state == DfuError) && !d.waitForExit && d.flash.buffer == Blank(d.flash.page)
  }

  /** d with another memory of the same shape behind the same registers. */
  predicate SameButMemory(d: Dfu, e: Dfu) {
    && e == d.(flash := e.flash, eeprom := e.eeprom)
    && e.flash == d.flash.(mem := e.flash.mem, busy := e.flash.busy) && |e.flash.mem| == |d.flash.mem|
  }

  // ---- The chip erase ----

  lemma {:induction false} ErasePageBlank(f: Flash, addr: nat)
    requires f.Valid() && f.buffer == Blank(f.page) && addr % f.page == 0 && addr < f.boot
    ensures var g := f.Erase(addr).Write(addr);
      && SameShape(g, f) && g.buffer == Blank(f.page)
      && forall x | 0 <= x < |f.mem| :: g.mem[x] == if f.InPage(x, addr) then BLANK else f.mem[x]
  {
    Aligned(addr, 0, f.page);
    AndBlank(BLANK);
  }

  /** Everything below the boot section from addr on is blank, and the rest is as before. */
  lemma {:induction false} ChipEraseBlanks(f: Flash, addr: nat)
    requires f.Valid() && f.buffer == Blank(f.page) && addr % f.page == 0
    ensures var g := ChipErase(f, addr);
      && SameShape(g, f) && g.buffer == Blank(f.page)
      && forall x | 0 <= x < |f.mem| :: g.mem[x] == if addr <= x < f.boot then BLANK else f.mem[x]
    decreases f.boot - addr
  {
    if addr < f.boot {
      ErasePageBlank(f, addr);
      ModAddsPeriod(addr, f.page);
      PageFits(addr, f.boot, f.page);
      ChipEraseBlanks(f.Erase(addr).Write(addr), addr + f.page);
    }
  }

  /** The application section is blank. */
  predicate ApplicationBlank(f: Flash) {
    f.boot <= |f.mem| && forall x | 0 <= x < f.boot :: f.mem[x] == BLANK
  }

  // ---- One request ----

  /** What a command does in secure mode: nothing to memory, or the erase. */
  lemma {:induction false} SecureCommand(d: Dfu)
    requires d.Valid() && d.isSecure && Sealed(d)
    ensures var r := ProcessCommand(d);
      && Sealed(r) && !r.waitForExit && r.state != DownloadIdle
      && (r.isSecure ==> r.flash == d.flash && r.eeprom == d.eeprom)
      && (!r.isSecure ==> ApplicationBlank(r.flash) && r.eeprom == d.eeprom)
  {
    hide ChipErase;
    SmallMod(0, d.flash.page);
    ChipEraseBlanks(d.flash, 0);
  }

  lemma {:induction false} SecureRequest(d: Dfu, q: Request)
    requires d.Valid() && d.isSecure && Sealed(d)
    ensures var r := Handle(d, q).dfu;
      && Sealed(r)
      && (r.isSecure ==> r.flash == d.flash && r.eeprom == d.eeprom)
      && (!r.isSecure ==> ApplicationBlank(r.flash) && r.eeprom == d.eeprom)
  {
    hide ProcessCommand, ReceiveFirmware, FlashUpload, UploadEeprom, ApplicationBlank;
    var k := if q.Foreign? then d else d.(sent := d.sent.(size := q.length));
    if q.Dnload? && k.sent.size != 0 && q.packets != [] {
      SecureCommand(k.(sent := LoadCommand(k.sent, q.packets[0])));
    }
  }

  /** What a command does does not depend on memory, and neither does what a request sends. */
  lemma {:induction false} SecureCommandBlind(d: Dfu, e: Dfu)
    requires d.Valid() && e.Valid() && d.isSecure && Sealed(d) && SameButMemory(d, e)
    ensures SameButMemory(ProcessCommand(d), ProcessCommand(e))
  {
    hide ChipErase;
    SmallMod(0, d.flash.page);
    ChipEraseBlanks(d.flash, 0);
    ChipEraseBlanks(e.flash, 0);
  }

  lemma {:induction false} SecureRequestBlind(d: Dfu, e: Dfu, q: Request)
    requires d.Valid() && e.Valid() && d.isSecure && Sealed(d) && SameButMemory(d, e)
    ensures SameButMemory(Handle(d, q).dfu, Handle(e, q).dfu)
    ensures Handle(d, q).bytes == Handle(e, q).bytes
  {
    hide ProcessCommand, ReceiveFirmware, FlashUpload, UploadEeprom;
    if q.Dnload? && q.length != 0 && q.packets != [] {
      var c := LoadCommand(d.sent.(size := q.length), q.packets[0]);
      var k, m := d.(sent := c), e.(sent := c);
      SecureCommandBlind(k, m);
      SecureCommand(k);
      SecureCommand(m);
    }
  }

  // ---- Every run ----

  /** A run that ends in secure mode has left memory untouched and never entered a transfer state. */
  lemma {:induction false} SecureRun(d: Dfu, rs: seq<Request>)
    requires d.Valid() && Sealed(d) && Run(d, rs).dfu.isSecure
    ensures var r := Run(d, rs).dfu;
      && d.isSecure && Sealed(r) && r.state != DownloadIdle && r.state != UploadIdle
      && r.flash == d.flash && r.eeprom == d.eeprom
  {
    hide Handle;
    if rs != [] {
      SecureRun(d, rs[..|rs| - 1]);
      SecureRequest(Run(d, rs[..|rs| - 1]).dfu, rs[|rs| - 1]);
    }
  }

  /** The request that ends secure mode leaves the whole application section blank. */
  lemma {:induction false} OpeningErases(d: Dfu, rs: seq<Request>)
    requires d.Valid() && Sealed(d) && d.isSecure && rs != []
    requires Run(d, rs[..|rs| - 1]).dfu.isSecure && !Run(d, rs).dfu.isSecure
    ensures ApplicationBlank(Run(d, rs).dfu.flash) && Run(d, rs).dfu.eeprom == d.eeprom
  {
    hide Handle, ApplicationBlank;
    SecureRun(d, rs[..|rs| - 1]);
    SecureRequest(Run(d, rs[..|rs| - 1]).dfu, rs[|rs| - 1]);
  }

  /**
   * Up to and including the request that ends secure mode, two devices that differ only in what
   * their memories hold send the same bytes.
   */
  lemma {:induction false} SecureRunBlind(d: Dfu, e: Dfu, rs: seq<Request>)
    requires d.Valid() && e.Valid() && Sealed(d) && d.isSecure && SameButMemory(d, e)
    requires rs != [] ==> Run(d, rs[..|rs| - 1]).dfu.isSecure
    ensures Run(d, rs).bytes == Run(e, rs).bytes
    ensures SameButMemory(Run(d, rs).dfu, Run(e, rs).dfu)
  {
    hide Handle;
    if rs != [] {
      var most := rs[..|rs| - 1];
      SecureRun(d, most);
      if most != [] {
        SecureEarlier(d, most);
      }
      SecureRunBlind(d, e, most);
      SecureRequestBlind(Run(d, most).dfu, Run(e, most).dfu, rs[|rs| - 1]);
    }
  }

  lemma {:induction false} SecureEarlier(d: Dfu, rs: seq<Request>)
    requires d.Valid() && rs != [] && Run(d, rs).dfu.isSecure
    ensures Run(d, rs[..|rs| - 1]).dfu.isSecure
  {
    hide Handle;
  }
}
