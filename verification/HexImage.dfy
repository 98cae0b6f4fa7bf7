/**
 * What the HEX loader leaves in flash: an image cut into in-order data records and closed by an
 * end-of-file record, with any characters other than digits and colons in between.
 */
module HexImage {
  import opened Arith
  import opened Memory
  import opened PageProgramming
  import opened HexLoader

  /** The first n bytes of the image have been taken in. */
  ghost predicate LoadedTo(l: Loader, f0: Flash, image: seq<Octet>, n: nat) {
    && l.Valid() && f0.Valid() && l.flash.page == f0.page
    && n % 2 == 0 && |image| % 2 == 0 && n <= |image| <= f0.boot
    && l.currBase == 0
    && l.pageStart <= n < l.pageStart + f0.page && (l.pageDirty <==> n != l.pageStart)
    && Underway(l.flash, f0, 0, image, l.pageStart, n - l.pageStart, l.pageDirty)
  }

  lemma {:induction false} LoadedBounds(l: Loader, f0: Flash, image: seq<Octet>, n: nat)
    requires LoadedTo(l, f0, image, n)
    ensures l.Valid() && l.flash.boot == f0.boot && n <= |image| <= f0.boot && l.currBase == 0
  {
  }

  /** LoadedTo depends on four fields only. */
  lemma {:induction false} LoadedFrame(l: Loader, k: Loader, f0: Flash, image: seq<Octet>, n: nat)
    requires LoadedTo(l, f0, image, n)
    requires k.flash == l.flash && k.pageStart == l.pageStart && k.pageDirty == l.pageDirty && k.currBase == l.currBase
    ensures LoadedTo(k, f0, image, n)
  {
    hide Underway;
  }

  /** The page of an address from the start of the page on. */
  lemma {:induction false} PageOf(f: Flash, f0: Flash, image: seq<Octet>, q: nat, m: nat, erased: bool, a: nat)
    requires Underway(f, f0, 0, image, q, m, erased) && q <= a < q + f0.page
    ensures f.page == f0.page && PageStart(a, f0.page) == q && q % f0.page == 0
  {
    Aligned(q, a - q, f0.page);
  }

  lemma {:induction false} ProgramWordLoads(l: Loader, f0: Flash, image: seq<Octet>, n: nat)
    requires LoadedTo(l, f0, image, n) && l.currAddress == n && n + 2 <= |image|
    requires l.prevData == image[n] && l.data == image[n + 1]
    ensures LoadedTo(ProgramWord(l), f0, image, n + 2) && ProgramWord(l).currAddress == n + 2
  {
    hide Underway, PageStart, Flash.Erase, Flash.Fill, Flash.Write;
    var page, q, m := f0.page, l.pageStart, n - l.pageStart;
    if !l.pageDirty {
      EraseStep(l.flash, f0, 0, image, q);
    }
    var f := if l.pageDirty then l.flash else l.flash.Erase(q);
    FillStep(f, f0, 0, image, q, m);
    var g := f.Fill(n, image[n], image[n + 1]);
    if m + 2 == page {
      WriteFull(g, f0, 0, image, q);
      PageOf(g.Write(q), f0, image, q + page, 0, false, n + 2);
    } else {
      PageOf(g, f0, image, q, m + 2, true, n + 2);
    }
  }

  // ---- One record ----

  function Sum(bs: seq<Octet>): nat {
    if bs == [] then 0 else Sum(bs[..|bs| - 1]) + bs[|bs| - 1]
  }

  lemma {:induction false} SumConcat(a: seq<Octet>, b: seq<Octet>)
    ensures Sum(a + b) == Sum(a) + Sum(b)
  {
    if b == [] {
      assert a + b == a;
    } else {
      SumConcat(a, b[..|b| - 1]);
      assert (a + b)[..|a + b| - 1] == a + b[..|b| - 1];
    }
  }

  /** A record as Intel HEX defines it: count, address, type, data, and a checksum to make the sum zero. */
  function Record(address: nat, recordType: Octet, data: seq<Octet>): (bs: seq<Octet>)
    requires address < 65536 && |data| < 256
  {
    var body := [|data|, address / 256, address % 256, recordType] + data;
    body + [(256 - Sum(body) % 256) % 256]
  }

  lemma {:induction false} StaysConcat(l: Loader, a: seq<Octet>, b: seq<Octet>)
    requires l.Valid() && StaysInRecord(l, a) && StaysInRecord(RunBytes(l, a), b)
    ensures StaysInRecord(l, a + b) && RunBytes(l, a + b) == RunBytes(RunBytes(l, a), b)
  {
    hide RunBytes;
    RunBytesConcat(l, a, b);
    forall n | 0 <= n <= |a + b|
      ensures RunBytes(l, (a + b)[..n]).phase != WaitLine
    {
      if n <= |a| {
        assert (a + b)[..n] == a[..n];
      } else {
        assert (a + b)[..n] == a + b[..n - |a|];
        RunBytesConcat(l, a, b[..n - |a|]);
      }
    }
  }

  lemma {:induction false} StaysOne(l: Loader, b: Octet)
    requires l.Valid() && l.phase != WaitLine && ByteStep(l, b).phase != WaitLine
    ensures StaysInRecord(l, [b]) && RunBytes(l, [b]) == ByteStep(l, b)
  {
    hide ByteStep;
    assert [b][..0] == [] && [b][..1] == [b];
  }

  lemma {:induction false} SumModulo(x: nat, y: nat)
    ensures (x % 256 + y) % 256 == (x + y) % 256
  {
  }

  /** The effect of each header byte. */
  lemma {:induction false} HeaderSteps(l: Loader, b: Octet)
    requires l.Valid()
    ensures var k := l.(data := b, readMsb := false, checksum := (l.checksum + b) % 256);
      && (l.phase == ByteCount ==> ByteStep(l, b) == k.(dataRem := b, phase := AddressHigh))
      && (l.phase == AddressHigh ==> ByteStep(l, b) == k.(currAddress := l.currAddress + b * 256, phase := AddressLow))
      && (l.phase == AddressLow ==> ByteStep(l, b) == k.(currAddress := l.currAddress + b, phase := RecordType))
      && (l.phase == RecordType ==>
            ByteStep(l, b) == k.(recordType := b, phase := if l.dataRem != 0 then ReadData else Checksum))
  {
    hide TakeData, FlushPageIfRequired;
  }

  lemma {:induction false} FourBytes(l: Loader, a: Octet, b: Octet, c: Octet, d: Octet)
    requires l.Valid() && l.phase != WaitLine
    requires var l1 := ByteStep(l, a); var l2 := ByteStep(l1, b); var l3 := ByteStep(l2, c); var l4 := ByteStep(l3, d);
      l1.phase != WaitLine && l2.phase != WaitLine && l3.phase != WaitLine && l4.phase != WaitLine
    ensures StaysInRecord(l, [a, b, c, d])
    ensures RunBytes(l, [a, b, c, d]) == ByteStep(ByteStep(ByteStep(ByteStep(l, a), b), c), d)
    ensures Sum([a, b, c, d]) == a + b + c + d
  {
    hide ByteStep, StaysInRecord;
    var l1 := ByteStep(l, a);
    var l2 := ByteStep(l1, b);
    var l3 := ByteStep(l2, c);
    StaysOne(l, a);
    StaysOne(l1, b);
    StaysOne(l2, c);
    StaysOne(l3, d);
    StaysConcat(l, [a], [b]);
    assert [a] + [b] == [a, b];
    StaysConcat(l, [a, b], [c]);
    assert [a, b] + [c] == [a, b, c];
    StaysConcat(l, [a, b, c], [d]);
    assert [a, b, c] + [d] == [a, b, c, d];
    SumConcat([a], [b]);
    SumConcat([a, b], [c]);
    SumConcat([a, b, c], [d]);
  }

  /** The four header bytes, from the start of a line. */
  lemma {:induction false} HeaderRuns(l: Loader, address: nat, recordType: Octet, count: Octet)
    requires l.Valid() && l.phase == ByteCount && l.checksum == 0 && l.currAddress == 0 && address < 65536
    ensures var header := [count, address / 256, address % 256, recordType];
      StaysInRecord(l, header) &&
      RunBytes(l, header) == l.(data := recordType, readMsb := false, dataRem := count, currAddress := address,
        recordType := recordType, checksum := Sum(header) % 256, phase := if count != 0 then ReadData else Checksum)
  {
    hide ByteStep, RunBytes, StaysInRecord, Sum, Flash.Valid;
    var a, b := address / 256, address % 256;
    HeaderSteps(l, count);
    var l1 := ByteStep(l, count);
    HeaderSteps(l1, a);
    var l2 := ByteStep(l1, a);
    HeaderSteps(l2, b);
    var l3 := ByteStep(l2, b);
    HeaderSteps(l3, recordType);
    FourBytes(l, count, a, b, recordType);
    HeaderSum(count, a, b, recordType);
  }

  lemma {:induction false} HeaderSum(a: Octet, b: Octet, c: Octet, d: Octet)
    ensures ((((0 + a) % 256 + b) % 256 + c) % 256 + d) % 256 == (a + b + c + d) % 256
  {
    SumModulo(a, b);
    SumModulo(a + b, c);
    SumModulo(a + b + c, d);
  }

  /** A data byte that completes no word, and one that does. */
  lemma {:induction false} DataSteps(l: Loader, b: Octet)
    requires l.Valid() && l.phase == ReadData && l.recordType == TYPE_DATA && l.currAddress < l.flash.boot && l.dataRem >= 1
    ensures var k := l.(data := b, readMsb := false, checksum := (l.checksum + b) % 256, dataRem := l.dataRem - 1);
      && (l.dataRem % 2 == 0 ==> ByteStep(l, b) == k.(prevData := b))
      && (l.dataRem % 2 == 1 ==>
            ByteStep(l, b) == if l.dataRem == 1 then ProgramWord(k).(phase := Checksum) else ProgramWord(k))
  {
    hide ProgramWord;
  }

  /** Two data bytes of a data record load one word. */
  lemma {:induction false} WordRuns(l: Loader, f0: Flash, image: seq<Octet>, n: nat)
    requires LoadedTo(l, f0, image, n) && l.phase == ReadData && l.recordType == TYPE_DATA && l.currAddress == n
    requires n + 2 <= |image| && l.dataRem % 2 == 0 && l.dataRem >= 2
    ensures var k := RunBytes(l, image[n..n + 2]);
      && StaysInRecord(l, image[n..n + 2]) && LoadedTo(k, f0, image, n + 2) && k.currAddress == n + 2
      && k.recordType == TYPE_DATA && k.dataRem == l.dataRem - 2 && k.running == l.running
      && k.checksum == (l.checksum + Sum(image[n..n + 2])) % 256
      && k.phase == if l.dataRem == 2 then Checksum else ReadData
  {
    hide LoadedTo, ProgramWord, ByteStep, StaysInRecord, RunBytes;
    LoadedBounds(l, f0, image, n);
    var a, b := image[n], image[n + 1];
    DataSteps(l, a);
    var k := ByteStep(l, a);
    DataSteps(k, b);
    var before := k.(data := b, checksum := (k.checksum + b) % 256, dataRem := k.dataRem - 1);
    LoadedFrame(l, before, f0, image, n);
    ProgramWordLoads(before, f0, image, n);
    LoadedFrame(ProgramWord(before), ByteStep(k, b), f0, image, n + 2);
    StaysOne(l, a);
    StaysOne(k, b);
    StaysConcat(l, [a], [b]);
    assert [a] + [b] == image[n..n + 2];
    SumConcat([a], [b]);
    assert Sum([a]) == a && Sum([b]) == b;
    SumModulo(l.checksum + a, b);
  }

  /** The first bytes of the data of a record, or all of them. */
  lemma {:induction false} DataRuns(l: Loader, f0: Flash, image: seq<Octet>, n: nat, take: nat)
    requires LoadedTo(l, f0, image, n) && l.phase == ReadData && l.recordType == TYPE_DATA && l.currAddress == n
    requires 2 <= take <= l.dataRem && n + take <= |image| && l.dataRem % 2 == 0 && take % 2 == 0
    ensures var data := image[n..n + take];
      var k := RunBytes(l, data);
      && StaysInRecord(l, data) && LoadedTo(k, f0, image, n + take)
      && k.currAddress == n + take
      && k.recordType == TYPE_DATA && k.phase == (if take == l.dataRem then Checksum else ReadData) && k.running == l.running
      && k.checksum == (l.checksum + Sum(data)) % 256
    decreases take
  {
    hide LoadedTo, RunBytes, StaysInRecord, Sum;
    LoadedBounds(l, f0, image, n);
    WordRuns(l, f0, image, n);
    if take > 2 {
      var k := RunBytes(l, image[n..n + 2]);
      DataRuns(k, f0, image, n + 2, take - 2);
      StaysConcat(l, image[n..n + 2], image[n + 2..n + take]);
      assert image[n..n + 2] + image[n + 2..n + take] == image[n..n + take];
      SumConcat(image[n..n + 2], image[n + 2..n + take]);
      SumModulo(l.checksum + Sum(image[n..n + 2]), Sum(image[n + 2..n + take]));
    }
  }

  /** A right checksum flushes nothing while the address is still in the buffered page. */
  lemma {:induction false} ChecksumStep(l: Loader, b: Octet)
    requires l.Valid() && l.phase == Checksum && b == (256 - l.checksum) % 256
    ensures ByteStep(l, b) ==
      var f := FlushPageIfRequired(l.(data := b, readMsb := false));
      if l.recordType == TYPE_END_OF_FILE then f.(running := false) else f
  {
    hide FlushPageIfRequired;
  }

  lemma {:induction false} NoFlush(l: Loader, f0: Flash, image: seq<Octet>, n: nat)
    requires LoadedTo(l, f0, image, n) && l.currAddress == n
    ensures FlushPageIfRequired(l) == l
  {
    hide Underway, PageStart;
    PageOf(l.flash, f0, image, l.pageStart, n - l.pageStart, l.pageDirty, n);
  }

  /** A data record loads its bytes. */
  lemma {:induction false} RecordRuns(l: Loader, f0: Flash, image: seq<Octet>, n: nat, count: nat)
    requires LoadedTo(l, f0, image, n) && l.phase == ByteCount && l.checksum == 0 && l.currAddress == 0
    requires n < 65536 && count < 256 && count % 2 == 0 && n + count <= |image|
    ensures var bs := Record(n, TYPE_DATA, image[n..n + count]);
      var k := RunBytes(l, bs);
      StaysInRecord(l, bs) && LoadedTo(k, f0, image, n + count) && k.running == l.running
  {
    hide LoadedTo, RunBytes, StaysInRecord, Sum, FlushPageIfRequired, ByteStep;
    LoadedBounds(l, f0, image, n);
    var header, data := [count, n / 256, n % 256, TYPE_DATA], image[n..n + count];
    HeaderRuns(l, n, TYPE_DATA, count);
    var h := RunBytes(l, header);
    LoadedFrame(l, h, f0, image, n);
    if count > 0 {
      DataRuns(h, f0, image, n, count);
      StaysConcat(l, header, data);
      SumConcat(header, data);
      SumModulo(Sum(header), Sum(data));
    } else {
      assert header + data == header;
    }
    var k := RunBytes(l, header + data);
    var b := (256 - Sum(header + data) % 256) % 256;
    LoadedBounds(k, f0, image, n + count);
    ChecksumStep(k, b);
    LoadedFrame(k, k.(data := b, readMsb := false), f0, image, n + count);
    NoFlush(k.(data := b, readMsb := false), f0, image, n + count);
    StaysOne(k, b);
    StaysConcat(l, header + data, [b]);
  }

  // ---- Text ----

  /** The text has the digits of the bytes, in order, and no colon. */
  ghost predicate Spells(text: string, bs: seq<Octet>) {
    ':' !in text && |Digits(text)| == 2 * |bs| && BytesOf(Digits(text)) == bs
  }

  /** The plain spelling of a sequence of bytes. */
  function HexText(bs: seq<Octet>): string {
    if bs == [] then []
    else HexText(bs[..|bs| - 1]) + [HexDigit(bs[|bs| - 1] / 16), HexDigit(bs[|bs| - 1] % 16)]
  }

  lemma {:induction false} SpellsMore(text: string, bs: seq<Octet>, b: Octet)
    requires Spells(text, bs)
    ensures Spells(text + [HexDigit(b / 16), HexDigit(b % 16)], bs + [b])
  {
    hide HexToDecimal, HexDigit, BytesOf;
    var h, d := b / 16, b % 16;
    HexDigitRead(h);
    HexDigitRead(d);
    var u, v := text + [HexDigit(h)], text + [HexDigit(h), HexDigit(d)];
    assert u[..|u| - 1] == text && v[..|v| - 1] == u;
    assert Digits(u) == Digits(text) + [h];
    assert Digits(v) == Digits(text) + [h] + [d];
    BytesOfStep(Digits(text), h);
    BytesOfStep(Digits(text) + [h], d);
    assert forall c | c in v :: c in text || c == HexDigit(h) || c == HexDigit(d);
  }

  lemma {:induction false} HexTextSpells(bs: seq<Octet>)
    ensures Spells(HexText(bs), bs)
  {
    if bs != [] {
      HexTextSpells(bs[..|bs| - 1]);
      SpellsMore(HexText(bs[..|bs| - 1]), bs[..|bs| - 1], bs[|bs| - 1]);
      assert bs[..|bs| - 1] + [bs[|bs| - 1]] == bs;
    }
  }

  /** A line that spells bytes runs them from the start of a line. */
  lemma {:induction false} LineRuns(l: Loader, text: string, bs: seq<Octet>)
    requires l.Valid() && Spells(text, bs) && StaysInRecord(StartLine(l, ':'), bs)
    ensures Run(l, ":" + text) == RunBytes(StartLine(l, ':'), bs)
  {
    hide StartLine, StaysInRecord;
    var k := StartLine(l, ':');
    assert Run(l, ":") == k by {
      assert ":"[..0] == [] && Run(l, []) == l;
    }
    RunConcat(l, ":", text);
    assert !k.readMsb by {
      StartLineState(l);
    }
    RunDecodes(k, text);
  }

  lemma {:induction false} StartLineState(l: Loader)
    requires l.Valid()
    ensures var k := StartLine(l, ':');
      k == l.(checksum := 0, currAddress := l.currBase, readMsb := false, phase := ByteCount)
  {
  }

  /** A HEX file: lines of data, then the end-of-file line. Each text is what follows the colon. */
  datatype HexFile = EndLine(text: string) | DataLine(text: string, count: nat, rest: HexFile)

  function Text(h: HexFile): string {
    match h
    case EndLine(text) => ":" + text
    case DataLine(text, _, rest) => ":" + text + Text(rest)
  }

  /** The lines spell the image from byte n on, in order and in even pieces. */
  ghost predicate Describes(h: HexFile, image: seq<Octet>, n: nat) {
    match h
    case EndLine(text) => n == |image| && Spells(text, Record(0, TYPE_END_OF_FILE, []))
    case DataLine(text, count, rest) =>
      && n < 65536 && count < 256 && count % 2 == 0 && n + count <= |image|
      && Spells(text, Record(n, TYPE_DATA, image[n..n + count]))
      && Describes(rest, image, n + count)
  }

  /** Flash after the end-of-file record: the image, unless it never left the first page. */
  ghost predicate Outcome(l: Loader, f0: Flash, image: seq<Octet>) {
    && !l.running
    && if f0.page > 0 && 0 < |image| < f0.page then Underway(l.flash, f0, 0, image, 0, |image|, true)
       else Programmed(l.flash, f0, 0, image)
  }

  lemma {:induction false} EndRuns(l: Loader, f0: Flash, image: seq<Octet>)
    requires LoadedTo(l, f0, image, |image|) && l.phase == ByteCount && l.checksum == 0 && l.currAddress == 0
    ensures var bs := Record(0, TYPE_END_OF_FILE, []);
      StaysInRecord(l, bs) && Outcome(RunBytes(l, bs), f0, image)
  {
    hide LoadedTo, RunBytes, StaysInRecord, Sum, FlushPageIfRequired, ByteStep, Outcome;
    LoadedBounds(l, f0, image, |image|);
    var header := [0, 0, 0, TYPE_END_OF_FILE];
    HeaderRuns(l, 0, TYPE_END_OF_FILE, 0);
    assert header + [] == header;
    var k := RunBytes(l, header);
    var b := (256 - Sum(header) % 256) % 256;
    ChecksumStep(k, b);
    var k' := k.(data := b, readMsb := false);
    LoadedFrame(l, k', f0, image, |image|);
    StaysOne(k, b);
    StaysConcat(l, header, [b]);
    EndFlush(k', f0, image);
  }

  lemma {:induction false} EndFlush(l: Loader, f0: Flash, image: seq<Octet>)
    requires LoadedTo(l, f0, image, |image|) && l.currAddress == 0
    ensures Outcome(FlushPageIfRequired(l).(running := false), f0, image)
  {
    hide Underway, Programmed, PageStart, Flash.Write;
    var page, n, q := f0.page, |image|, l.pageStart;
    PageOf(l.flash, f0, image, q, n - q, l.pageDirty, n);
    FirstPage(page);
    if q > 0 {
      AlignedPositive(q, page);
    }
    if !l.pageDirty {
      UnderwayEnds(l.flash, f0, 0, image);
    } else if q > 0 {
      WriteLast(l.flash, f0, 0, image, q, n - q);
    }
  }

  lemma {:induction false} FirstPage(page: nat)
    requires page > 0
    ensures PageStart(0, page) == 0
  {
    SmallMod(0, page);
  }

  lemma {:induction false} FileRuns(l: Loader, f0: Flash, image: seq<Octet>, n: nat, h: HexFile)
    requires LoadedTo(l, f0, image, n) && Describes(h, image, n)
    ensures Outcome(Run(l, Text(h)), f0, image)
    decreases h
  {
    hide LoadedTo, Run, RunBytes, Spells, StaysInRecord, Outcome, StartLine, Record;
    LoadedBounds(l, f0, image, n);
    StartLineState(l);
    var k := StartLine(l, ':');
    LoadedFrame(l, k, f0, image, n);
    match h
    case EndLine(text) =>
      EndRuns(k, f0, image);
      LineRuns(l, text, Record(0, TYPE_END_OF_FILE, []));
    case DataLine(text, count, rest) =>
      RecordRuns(k, f0, image, n, count);
      LineRuns(l, text, Record(n, TYPE_DATA, image[n..n + count]));
      RunConcat(l, ":" + text, Text(rest));
      FileRuns(Run(l, ":" + text), f0, image, n + count, rest);
  }

  // ---- The whole run, from reset ----

  /** The bootloader at reset. */
  function Reset(f: Flash): Loader {
    Loader(WaitLine, 0, 0, false, 0, 0, 0, 0, 0, 0, false, true, f)
  }

  lemma {:induction false} IdleRuns(l: Loader, lead: string)
    requires l.Valid() && l.phase == WaitLine && ':' !in lead
    ensures var k := Run(l, lead); k == l || k == l.(checksum := 0, currAddress := l.currBase, readMsb := false)
  {
    if lead != [] {
      IdleRuns(l, lead[..|lead| - 1]);
    }
  }

  /**
   * Any HEX file of the image leaves the loader stopped, with the image in flash and every page
   * past it as it was, provided the image fills at least one page.
   */
  lemma {:induction false} FileLoadsImage(f0: Flash, image: seq<Octet>, lead: string, h: HexFile)
    requires f0.Valid() && f0.buffer == Blank(f0.page)
    requires |image| % 2 == 0 && |image| <= f0.boot && ':' !in lead && Describes(h, image, 0)
    ensures var l := Run(Reset(f0), lead + Text(h));
      !l.running && (|image| >= f0.page ==> Programmed(l.flash, f0, 0, image))
  {
    RunLoads(f0, image, lead, h);
  }

  lemma {:induction false} RunLoads(f0: Flash, image: seq<Octet>, lead: string, h: HexFile)
    requires f0.Valid() && f0.buffer == Blank(f0.page)
    requires |image| % 2 == 0 && |image| <= f0.boot && ':' !in lead && Describes(h, image, 0)
    ensures Outcome(Run(Reset(f0), lead + Text(h)), f0, image)
  {
    hide Underway, Programmed, Run, Text, Describes, Outcome;
    var l := Run(Reset(f0), lead);
    IdleRuns(Reset(f0), lead);
    SmallMod(0, f0.page);
    UnderwayStarts(f0, 0, image);
    RunConcat(Reset(f0), lead, Text(h));
    FileRuns(l, f0, image, 0, h);
  }

  /** An image that never leaves its first page stays in the page buffer: the page is only erased. */
  lemma {:induction false} ShortImageLost(f0: Flash, image: seq<Octet>, lead: string, h: HexFile)
    requires f0.Valid() && f0.buffer == Blank(f0.page)
    requires |image| % 2 == 0 && |image| <= f0.boot && ':' !in lead && Describes(h, image, 0)
    requires 0 < |image| < f0.page
    ensures var l := Run(Reset(f0), lead + Text(h));
      |l.flash.mem| == |f0.mem| && l.flash.mem[..|image|] == Blank(|image|)
  {
    hide Run;
    RunLoads(f0, image, lead, h);
  }

  /** Flash holds the image exactly when it fills a page, or is blank to begin with. */
  lemma {:induction false} LoadsExactly(f0: Flash, image: seq<Octet>, lead: string, h: HexFile)
    requires f0.Valid() && f0.buffer == Blank(f0.page)
    requires |image| % 2 == 0 && |image| <= f0.boot && ':' !in lead && Describes(h, image, 0)
    ensures var l := Run(Reset(f0), lead + Text(h));
      |l.flash.mem| == |f0.mem| &&
      (l.flash.mem[..|image|] == image <==> |image| >= f0.page || image == Blank(|image|))
  {
    hide Run;
    RunLoads(f0, image, lead, h);
    if 0 < |image| < f0.page {
      ShortImageLost(f0, image, lead, h);
    }
  }
}
