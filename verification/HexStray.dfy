/**
 * Which texts can harm the boot section. The guard compares the address of a word with the boot
 * section, but the page that is erased is the one the loader last moved to; after the last word of
 * the application that is the first page of the boot section.
 */
module HexStray {
  import opened Arith
  import opened Memory
  import opened PageProgramming
  import opened HexLoader
  import opened HexImage
  import opened HexGuard

  /** The character completes a word of a data record that the guard lets through. */
  predicate TakesWord(l: Loader, c: char) {
    && l.phase == ReadData && c != ':' && HexToDecimal(c) >= 0 && l.readMsb
    && l.recordType == TYPE_DATA && l.currAddress < l.flash.boot && (l.dataRem - 1) % 256 % 2 == 0
  }

  /** A word is taken below the boot section while the page to be erased for it is in the boot section. */
  predicate Stray(l: Loader, c: char) {
    TakesWord(l, c) && !l.pageDirty && l.flash.boot <= l.pageStart < |l.flash.mem|
  }

  predicate Strays(l: Loader, text: string)
    requires l.Valid()
  {
    text != [] && (Strays(l, text[..|text| - 1]) || Stray(Run(l, text[..|text| - 1]), text[|text| - 1]))
  }

  // ---- What every character keeps ----

  /** One more digit of the current byte. */
  function WithDigit(l: Loader, c: char): (r: Loader)
    requires HexToDecimal(c) >= 0
    ensures r == l.(data := r.data, readMsb := !l.readMsb)
  {
    l.(data := l.data * 16 % 256 + HexToDecimal(c), readMsb := !l.readMsb)
  }

  lemma {:induction false} StepCases(l: Loader, c: char)
    requires l.Valid()
    ensures Step(l, c) ==
      if l.phase == WaitLine || c == ':' then StartLine(l, c)
      else if HexToDecimal(c) < 0 then l
      else if l.readMsb then TakeByte(WithDigit(l, c))
      else WithDigit(l, c)
  {
    hide TakeByte, HexToDecimal, Flash.Valid;
  }

  /** The flash has its shape, and the page start is one. */
  predicate Regular(l: Loader, f0: Flash) {
    SameShape(l.flash, f0) && l.pageStart % f0.page == 0
  }

  lemma {:induction false} WordRegular(l: Loader, f0: Flash)
    requires Regular(l, f0)
    ensures l.Valid() && Regular(FlushPageIfRequired(l), f0) && Regular(ProgramWord(l), f0)
  {
  }

  lemma {:induction false} StepRegular(l: Loader, f0: Flash, c: char)
    requires Regular(l, f0)
    ensures l.Valid() && Regular(Step(l, c), f0)
  {
    hide Step, TakeByte, WithDigit, HexToDecimal;
    StepCases(l, c);
    if l.phase != WaitLine && c != ':' && HexToDecimal(c) >= 0 && l.readMsb {
      ByteRegular(WithDigit(l, c), f0);
    }
  }

  lemma {:induction false} ByteRegular(l: Loader, f0: Flash)
    requires Regular(l, f0)
    ensures l.Valid() && Regular(TakeByte(l), f0)
  {
    hide ProgramWord, FlushPageIfRequired;
    if l.phase == Checksum {
      WordRegular(l, f0);
    } else if l.phase == ReadData {
      WordRegular(l.(checksum := (l.checksum + l.data) % 256, dataRem := (l.dataRem - 1) % 256), f0);
    }
  }

  lemma {:induction false} RunRegular(l: Loader, f0: Flash, text: string)
    requires l.Valid() && Regular(l, f0)
    ensures Regular(Run(l, text), f0)
  {
    hide Step, Regular;
    if text != [] {
      RunRegular(l, f0, text[..|text| - 1]);
      StepRegular(Run(l, text[..|text| - 1]), f0, text[|text| - 1]);
    }
  }

  // ---- Without a stray word the boot section is kept ----

  /** A page below the boot section, or none at all. */
  predicate Harmless(f: Flash, p: nat) {
    p < f.boot || p >= |f.mem|
  }

  ghost predicate Kept(l: Loader, f0: Flash) {
    && SameShape(l.flash, f0) && l.pageStart % f0.page == 0
    && (l.pageDirty ==> Harmless(f0, l.pageStart))
    && forall x | f0.boot <= x < |f0.mem| :: l.flash.mem[x] == f0.mem[x]
  }

  lemma {:induction false} PageApart(f: Flash, p: nat, x: nat)
    requires f.Valid() && p % f.page == 0 && Harmless(f, p) && f.boot <= x < |f.mem|
    ensures !f.InPage(x, PageStart(p, f.page))
  {
    Aligned(p, 0, f.page);
    if p < f.boot {
      PageFits(p, f.boot, f.page);
    }
  }

  lemma {:induction false} EraseHarmless(f: Flash, p: nat)
    requires f.Valid() && p % f.page == 0 && Harmless(f, p)
    ensures forall x | f.boot <= x < |f.mem| :: f.Erase(p).mem[x] == f.mem[x] && f.Write(p).mem[x] == f.mem[x]
  {
    forall x | f.boot <= x < |f.mem|
      ensures f.Erase(p).mem[x] == f.mem[x] && f.Write(p).mem[x] == f.mem[x]
    {
      PageApart(f, p, x);
    }
  }

  lemma {:induction false} FlushKept(l: Loader, f0: Flash)
    requires l.Valid() && Kept(l, f0)
    ensures Kept(FlushPageIfRequired(l), f0)
  {
    hide Flash.Write;
    if l.pageDirty {
      EraseHarmless(l.flash, l.pageStart);
    }
  }

  lemma {:induction false} WordKept(l: Loader, f0: Flash)
    requires l.Valid() && Kept(l, f0) && (l.pageDirty || Harmless(f0, l.pageStart))
    ensures Kept(ProgramWord(l), f0)
  {
    hide Flash.Erase, Flash.Fill, FlushPageIfRequired;
    if !l.pageDirty {
      EraseHarmless(l.flash, l.pageStart);
    }
    var ready := if l.pageDirty then l else l.(flash := l.flash.Erase(l.pageStart), pageDirty := true);
    FlushKept(ready.(flash := ready.flash.Fill(l.currAddress, l.prevData, l.data), currAddress := l.currAddress + 2), f0);
  }

  /** Kept depends on three fields only. */
  lemma {:induction false} KeptFrame(l: Loader, k: Loader, f0: Flash)
    requires Kept(l, f0) && k.flash == l.flash && k.pageStart == l.pageStart && (k.pageDirty ==> l.pageDirty)
    ensures Kept(k, f0)
  {
  }

  lemma {:induction false} ByteKept(l: Loader, f0: Flash)
    requires l.Valid() && Kept(l, f0)
    requires l.phase == ReadData && l.recordType == TYPE_DATA && l.currAddress < l.flash.boot && (l.dataRem - 1) % 256 % 2 == 0
      ==> l.pageDirty || Harmless(f0, l.pageStart)
    ensures Kept(TakeByte(l), f0)
  {
    hide ProgramWord, FlushPageIfRequired, Kept, Flash.Valid;
    var k := if l.phase == Checksum then l else l.(checksum := (l.checksum + l.data) % 256);
    KeptFrame(l, k, f0);
    if l.phase == ReadData {
      var d := k.(dataRem := (k.dataRem - 1) % 256);
      KeptFrame(k, d, f0);
      if d.currAddress < d.flash.boot && d.dataRem % 2 == 0 && d.recordType == TYPE_DATA {
        WordKept(d, f0);
        KeptFrame(ProgramWord(d), TakeByte(l), f0);
      } else {
        KeptFrame(d, TakeByte(l), f0);
      }
    } else if l.phase == Checksum {
      FlushKept(k, f0);
      if TakeByte(l).pageStart == FlushPageIfRequired(k).pageStart && k.data == (256 - k.checksum) % 256 {
        KeptFrame(FlushPageIfRequired(k), TakeByte(l), f0);
      } else {
        KeptFrame(k, TakeByte(l), f0);
      }
    } else {
      KeptFrame(k, TakeByte(l), f0);
    }
  }

  lemma {:induction false} StepKept(l: Loader, f0: Flash, c: char)
    requires l.Valid() && Kept(l, f0) && !Stray(l, c)
    ensures Kept(Step(l, c), f0)
  {
    assert SameShape(l.flash, f0);
    hide Step, TakeByte, WithDigit, HexToDecimal, Flash.Valid, Kept;
    StepCases(l, c);
    if l.phase == WaitLine || c == ':' {
      KeptFrame(l, Step(l, c), f0);
    } else if HexToDecimal(c) >= 0 {
      KeptFrame(l, WithDigit(l, c), f0);
      if l.readMsb {
        ByteKept(WithDigit(l, c), f0);
      }
    }
  }

  lemma {:induction false} RunKept(l: Loader, f0: Flash, text: string)
    requires l.Valid() && Kept(l, f0) && !Strays(l, text)
    ensures Kept(Run(l, text), f0)
  {
    hide Step, Kept, Stray;
    if text != [] {
      RunKept(l, f0, text[..|text| - 1]);
      StepKept(Run(l, text[..|text| - 1]), f0, text[|text| - 1]);
    }
  }

  // ---- A stray word wipes what was there ----

  /** The same loader over another memory of the same size. */
  predicate Twin(l: Loader, k: Loader) {
    l.Valid() && |k.flash.mem| == |l.flash.mem| && k == l.(flash := l.flash.(mem := k.flash.mem))
  }

  predicate EqualAt(l: Loader, k: Loader, p: nat) {
    p < |l.flash.mem| && p < |k.flash.mem| && l.flash.mem[p] == k.flash.mem[p]
  }

  lemma {:induction false} TwinFlush(l: Loader, k: Loader, p: nat)
    requires Twin(l, k)
    ensures Twin(FlushPageIfRequired(l), FlushPageIfRequired(k))
    ensures EqualAt(l, k, p) ==> EqualAt(FlushPageIfRequired(l), FlushPageIfRequired(k), p)
  {
  }

  /** A word treats both memories alike; at a page that it erases, both end with the same byte. */
  lemma {:induction false} TwinWord(l: Loader, k: Loader, p: nat)
    requires Twin(l, k)
    ensures Twin(ProgramWord(l), ProgramWord(k))
    ensures EqualAt(l, k, p) || (!l.pageDirty && p < |l.flash.mem| && l.flash.InPage(p, PageStart(l.pageStart, l.flash.page)))
      ==> EqualAt(ProgramWord(l), ProgramWord(k), p)
  {
    hide FlushPageIfRequired;
    var a := if l.pageDirty then l else l.(flash := l.flash.Erase(l.pageStart), pageDirty := true);
    var b := if k.pageDirty then k else k.(flash := k.flash.Erase(k.pageStart), pageDirty := true);
    TwinFlush(a.(flash := a.flash.Fill(l.currAddress, l.prevData, l.data), currAddress := l.currAddress + 2),
              b.(flash := b.flash.Fill(k.currAddress, k.prevData, k.data), currAddress := k.currAddress + 2), p);
  }

  /** Other fields do not matter. */
  lemma {:induction false} TwinFrame(l: Loader, k: Loader, l': Loader, k': Loader, p: nat)
    requires Twin(l, k) && l'.flash == l.flash && k'.flash == k.flash && k' == l'.(flash := k'.flash)
    ensures Twin(l', k') && (EqualAt(l, k, p) ==> EqualAt(l', k', p))
  {
  }

  lemma {:induction false} EqualFrame(l: Loader, k: Loader, l': Loader, k': Loader, p: nat)
    requires EqualAt(l, k, p) && l'.flash == l.flash && k'.flash == k.flash
    ensures EqualAt(l', k', p)
  {
  }

  lemma {:induction false} TwinData(l: Loader, k: Loader, p: nat)
    requires Twin(l, k)
    ensures Twin(TakeData(l), TakeData(k)) && (EqualAt(l, k, p) ==> EqualAt(TakeData(l), TakeData(k), p))
  {
    hide ProgramWord, Twin, EqualAt, Flash.Valid;
    TwinFields(l, k);
    var a, b := l.(dataRem := (l.dataRem - 1) % 256), k.(dataRem := (k.dataRem - 1) % 256);
    TwinFrame(l, k, a, b, p);
    if l.recordType == TYPE_DATA && l.currAddress < l.flash.boot && a.dataRem % 2 == 0 {
      TwinWord(a, b, p);
      TwinFields(ProgramWord(a), ProgramWord(b));
      TwinFrame(ProgramWord(a), ProgramWord(b), TakeData(l), TakeData(k), p);
    } else {
      TwinFrame(a, b, TakeData(l), TakeData(k), p);
    }
  }

  lemma {:induction false} TwinFields(l: Loader, k: Loader)
    requires Twin(l, k)
    ensures l.Valid() && k.Valid() && k == l.(flash := k.flash) && k.flash.boot == l.flash.boot && k.flash.page == l.flash.page
  {
  }

  lemma {:induction false} TwinByte(l: Loader, k: Loader, p: nat)
    requires Twin(l, k)
    ensures k.Valid() && Twin(TakeByte(l), TakeByte(k)) && (EqualAt(l, k, p) ==> EqualAt(TakeByte(l), TakeByte(k), p))
  {
    hide TakeData, FlushPageIfRequired, Twin, EqualAt, Flash.Valid;
    TwinFields(l, k);
    if l.phase == ReadData {
      var a, b := l.(checksum := (l.checksum + l.data) % 256), k.(checksum := (k.checksum + k.data) % 256);
      TwinFrame(l, k, a, b, p);
      TwinData(a, b, p);
    } else if l.phase == Checksum && l.data == (256 - l.checksum) % 256 {
      TwinFlush(l, k, p);
      TwinFields(FlushPageIfRequired(l), FlushPageIfRequired(k));
      TwinFrame(FlushPageIfRequired(l), FlushPageIfRequired(k), TakeByte(l), TakeByte(k), p);
    } else {
      TwinFrame(l, k, TakeByte(l), TakeByte(k), p);
    }
  }

  lemma {:induction false} TwinStep(l: Loader, k: Loader, c: char, p: nat)
    requires Twin(l, k)
    ensures k.Valid() && Twin(Step(l, c), Step(k, c)) && (EqualAt(l, k, p) ==> EqualAt(Step(l, c), Step(k, c), p))
  {
    hide Step, TakeByte, Twin, EqualAt, Flash.Valid, HexToDecimal;
    TwinFields(l, k);
    StepCases(l, c);
    StepCases(k, c);
    if l.phase == WaitLine || c == ':' || HexToDecimal(c) < 0 {
      TwinFrame(l, k, Step(l, c), Step(k, c), p);
    } else {
      TwinFrame(l, k, WithDigit(l, c), WithDigit(k, c), p);
      TwinByte(WithDigit(l, c), WithDigit(k, c), p);
    }
  }

  lemma {:induction false} TwinStray(l: Loader, k: Loader, c: char)
    requires Twin(l, k)
    ensures Stray(l, c) == Stray(k, c)
  {
  }

  /** The loader as the word that a byte completes is programmed. */
  function AtWord(l: Loader): (r: Loader)
    ensures r.flash == l.flash && r.pageStart == l.pageStart && r.pageDirty == l.pageDirty
  {
    l.(checksum := (l.checksum + l.data) % 256, dataRem := (l.dataRem - 1) % 256)
  }

  lemma {:induction false} StepTakesWord(l: Loader, c: char)
    requires l.Valid() && TakesWord(l, c)
    ensures Step(l, c).flash == ProgramWord(AtWord(WithDigit(l, c))).flash
  {
    hide ProgramWord, Flash.Valid, HexToDecimal, WithDigit, Step;
    StepCases(l, c);
  }

  /** After a stray word the first byte of its page no longer depends on what was there. */
  lemma {:induction false} StrayWipes(l: Loader, k: Loader, c: char)
    requires Twin(l, k) && Stray(l, c) && l.pageStart % l.flash.page == 0
    ensures k.Valid() && EqualAt(Step(l, c), Step(k, c), l.pageStart)
  {
    Aligned(l.pageStart, 0, l.flash.page);
    TwinStray(l, k, c);
    StepTakesWord(l, c);
    hide ProgramWord, Twin, EqualAt, Flash.Valid, Step, HexToDecimal;
    TwinFields(l, k);
    StepTakesWord(k, c);
    var a, b := AtWord(WithDigit(l, c)), AtWord(WithDigit(k, c));
    TwinFrame(l, k, a, b, l.pageStart);
    TwinWord(a, b, l.pageStart);
    EqualFrame(ProgramWord(a), ProgramWord(b), Step(l, c), Step(k, c), l.pageStart);
  }

  /** The page of the first stray word. */
  function StrayPage(l: Loader, text: string): nat
    requires l.Valid() && Strays(l, text)
  {
    var init := text[..|text| - 1];
    if Strays(l, init) then StrayPage(l, init) else Run(l, init).pageStart
  }

  lemma {:induction false} TwinRun(l: Loader, k: Loader, text: string, p: nat)
    requires Twin(l, k)
    ensures k.Valid() && Twin(Run(l, text), Run(k, text)) && Strays(l, text) == Strays(k, text)
    ensures EqualAt(l, k, p) ==> EqualAt(Run(l, text), Run(k, text), p)
  {
    hide Step, Stray, Flash.Valid, EqualAt, Twin;
    TwinFields(l, k);
    if text != [] {
      var n := |text| - 1;
      TwinRun(l, k, text[..n], p);
      TwinStep(Run(l, text[..n]), Run(k, text[..n]), text[n], p);
      TwinStray(Run(l, text[..n]), Run(k, text[..n]), text[n]);
    }
  }

  /** Once a stray word has come, both memories hold the same first byte of its page for good. */
  lemma {:induction false} StraysWipe(l: Loader, k: Loader, text: string)
    requires Twin(l, k) && Regular(l, l.flash) && Strays(l, text)
    ensures var p := StrayPage(l, text);
      l.flash.boot <= p < |l.flash.mem| && k.Valid() && EqualAt(Run(l, text), Run(k, text), p)
  {
    hide Step, Flash.Valid, EqualAt, Twin;
    TwinFields(l, k);
    var n, p := |text| - 1, StrayPage(l, text);
    var a, b := Run(l, text[..n]), Run(k, text[..n]);
    TwinRun(l, k, text[..n], p);
    if Strays(l, text[..n]) {
      StraysWipe(l, k, text[..n]);
      TwinStep(a, b, text[n], p);
    } else {
      RunRegular(l, l.flash, text[..n]);
      StrayWipes(a, b, text[n]);
    }
  }

  // ---- The exact condition ----

  predicate SameButContents(f: Flash, f0: Flash) {
    f == f0.(mem := f.mem) && |f.mem| == |f0.mem|
  }

  predicate BootKept(f: Flash, text: string)
    requires f.Valid()
  {
    var g := Run(Reset(f), text).flash; |g.mem| == |f.mem| && g.mem[f.boot..] == f.mem[f.boot..]
  }

  lemma {:induction false} NoStrayKeeps(f: Flash, text: string)
    requires f.Valid() && !Strays(Reset(f), text)
    ensures BootKept(f, text)
  {
    hide Run;
    SmallMod(0, f.page);
    RunKept(Reset(f), f, text);
  }

  /** Some contents of the boot section do not survive a text with a stray word. */
  lemma {:induction false} StrayHarms(f: Flash, text: string) returns (g: Flash)
    requires f.Valid() && Strays(Reset(f), text)
    ensures SameButContents(g, f) && g.Valid() && !(BootKept(f, text) && BootKept(g, text))
  {
    hide Run, Strays;
    SmallMod(0, f.page);
    var p := StrayPage(Reset(f), text);
    StraysWipe(Reset(f), Reset(f), text);
    g := f.(mem := f.mem[p := if f.mem[p] == 0 then 1 else 0]);
    StraysWipe(Reset(f), Reset(g), text);
    KeptAt(f, text, p);
    KeptAt(g, text, p);
  }

  lemma {:induction false} KeptAt(f: Flash, text: string, p: nat)
    requires f.Valid() && f.boot <= p < |f.mem|
    ensures BootKept(f, text) ==> p < |Run(Reset(f), text).flash.mem| && Run(Reset(f), text).flash.mem[p] == f.mem[p]
  {
    hide Run;
    var x := Run(Reset(f), text).flash.mem;
    if BootKept(f, text) {
      assert x[f.boot..][p - f.boot] == f.mem[f.boot..][p - f.boot];
    }
  }

  /**
   * A text leaves the boot section alone, whatever flash holds, exactly when it has no word that is
   * taken while the page to be erased lies in the boot section.
   */
  lemma {:induction false} BootKeptExactly(f0: Flash, text: string)
    requires f0.Valid()
    ensures (forall f: Flash | SameButContents(f, f0) :: f.Valid() && BootKept(f, text)) <==> !Strays(Reset(f0), text)
  {
    hide Run, Strays, BootKept;
    SmallMod(0, f0.page);
    if Strays(Reset(f0), text) {
      var g := StrayHarms(f0, text);
      assert SameButContents(f0, f0);
    } else {
      forall f: Flash | SameButContents(f, f0)
        ensures f.Valid() && BootKept(f, text)
      {
        TwinRun(Reset(f0), Reset(f), text, 0);
        NoStrayKeeps(f, text);
      }
    }
  }

  // ---- A text that harms it ----

  /** The lines of an image, a word each. */
  function Lines(image: seq<Octet>, n: nat): string
    requires |image| <= 65536 && |image| % 2 == 0 && n % 2 == 0
    decreases |image| - n
  {
    if n >= |image| then "" else ":" + HexText(Record(n, TYPE_DATA, image[n..n + 2])) + Lines(image, n + 2)
  }

  lemma {:induction false} LinesLoad(l: Loader, f0: Flash, image: seq<Octet>, n: nat)
    requires |image| <= 65536 && |image| % 2 == 0 && n % 2 == 0 && LoadedTo(l, f0, image, n)
    ensures l.Valid() && LoadedTo(Run(l, Lines(image, n)), f0, image, |image|)
    decreases |image| - n
  {
    hide LoadedTo, Run, HexText, Record;
    LoadedBounds(l, f0, image, n);
    if n < |image| {
      var bs := Record(n, TYPE_DATA, image[n..n + 2]);
      HexTextSpells(bs);
      WithinRuns(l, f0, image, n, HexText(bs), 2);
      RunConcat(l, ":" + HexText(bs), Lines(image, n + 2));
      LinesLoad(Run(l, ":" + HexText(bs)), f0, image, n + 2);
    } else {
      RunNothing(l);
    }
  }

  lemma {:induction false} RunNothing(l: Loader)
    requires l.Valid()
    ensures Run(l, "") == l
  {
  }

  /** A word at address zero, taken while the page to be erased is the first of the boot section. */
  lemma {:induction false} WordOverwrites(l: Loader)
    requires Calm(l, l.flash) && l.flash.buffer == Blank(l.flash.page) && l.pageStart == l.flash.boot && l.currAddress == 0
    requires 2 < l.flash.page && 0 < l.flash.boot < |l.flash.mem|
    ensures var r := ProgramWord(l);
      && !r.pageDirty && l.flash.boot + 1 < |r.flash.mem|
      && r.flash.mem[l.flash.boot] == l.prevData && r.flash.mem[l.flash.boot + 1] == l.data
  {
    var f, p := l.flash, l.flash.boot;
    Aligned(p, 0, f.page);
    Aligned(0, 2, f.page) by {
      SmallMod(0, f.page);
    }
    PageFits(p, |f.mem|, f.page);
    SmallMod(0, f.page);
    AndBlank(l.prevData);
    AndBlank(l.data);
  }

  /** The record of one word at address zero, for such a loader. */
  lemma {:induction false} RecordOverwrites(l: Loader, a: Octet, b: Octet)
    requires Calm(l, l.flash) && l.flash.buffer == Blank(l.flash.page) && l.pageStart == l.flash.boot
    requires 2 < l.flash.page && 0 < l.flash.boot < |l.flash.mem|
    ensures var f := Run(l, ":" + HexText(Record(0, TYPE_DATA, [a, b]))).flash;
      l.flash.boot + 1 < |f.mem| && f.mem[l.flash.boot] == a && f.mem[l.flash.boot + 1] == b
  {
    hide RunBytes, StaysInRecord, Sum, ByteStep, ProgramWord, FlushPageIfRequired, Run, HexText, Flash.Valid;
    StartLineState(l);
    var k, header := StartLine(l, ':'), [2, 0, 0, TYPE_DATA];
    HeaderRuns(k, 0, TYPE_DATA, 2);
    var h := RunBytes(k, header);
    DataSteps(h, a);
    var h1 := ByteStep(h, a);
    DataSteps(h1, b);
    var before := h1.(data := b, checksum := (h1.checksum + b) % 256, dataRem := 0);
    WordOverwrites(before);
    var h2 := ByteStep(h1, b);
    StaysOne(h, a);
    StaysOne(h1, b);
    StaysConcat(k, header, [a]);
    StaysConcat(k, header + [a], [b]);
    assert header + [a] + [b] == header + [a, b];
    var body := header + [a, b];
    var c := (256 - Sum(body) % 256) % 256;
    ChecksumKeeps(h2, c);
    StaysOne(h2, c);
    StaysConcat(k, body, [c]);
    var bs := Record(0, TYPE_DATA, [a, b]);
    assert bs == body + [c];
    HexTextSpells(bs);
    LineRuns(l, HexText(bs), bs);
  }

  lemma {:induction false} ChecksumKeeps(l: Loader, b: Octet)
    requires l.Valid() && l.phase == Checksum && !l.pageDirty
    ensures ByteStep(l, b).flash == l.flash && ByteStep(l, b).phase == Checksum
  {
  }

  /**
   * An image that fills the application section exactly, then one more record at address zero: its
   * word replaces the first word of the bootloader.
   */
  lemma {:induction false} SecondPassOverwrites(f0: Flash, image: seq<Octet>, a: Octet, b: Octet)
    requires f0.Valid() && f0.buffer == Blank(f0.page) && 2 < f0.page
    requires 0 < f0.boot == |image| <= 65536 && f0.boot < |f0.mem| && |image| % 2 == 0
    ensures var f := Run(Reset(f0), Lines(image, 0) + (":" + HexText(Record(0, TYPE_DATA, [a, b])))).flash;
      f0.boot + 1 < |f.mem| && f.mem[f0.boot] == a && f.mem[f0.boot + 1] == b
  {
    hide Run, Lines, Underway, HexText, Record, Flash.Valid;
    var l := Reset(f0);
    SmallMod(0, f0.page);
    UnderwayStarts(f0, 0, image);
    LinesLoad(l, f0, image, 0);
    var k := Run(l, Lines(image, 0));
    BoundaryClean(k, f0, image);
    ProgrammedAt(k.flash, f0, 0, image);
    RunConcat(l, Lines(image, 0), ":" + HexText(Record(0, TYPE_DATA, [a, b])));
    RecordOverwrites(k, a, b);
  }
}
