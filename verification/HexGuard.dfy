/**
 * The HEX loader and the boot section: an image that runs into the boot section is loaded up to it
 * and no further, and a record past the boundary drops the page that was begun.
 */
module HexGuard {
  import opened Arith
  import opened Memory
  import opened PageProgramming
  import opened HexLoader
  import opened HexImage

  // ---- Cutting the text of a record ----

  lemma {:induction false} SplitDigits(text: string, n: nat) returns (k: nat)
    requires n <= |Digits(text)|
    ensures k <= |text| && Digits(text[..k]) == Digits(text)[..n]
  {
    if n == |Digits(text)| {
      k := |text|;
      assert text[..k] == text;
    } else {
      var t := text[..|text| - 1];
      k := SplitDigits(t, n);
      assert t[..k] == text[..k];
    }
  }

  lemma {:induction false} BytesOfPrefix(ds: seq<int>, m: nat)
    requires (forall i | 0 <= i < |ds| :: 0 <= ds[i] < 16) && 2 * m <= |ds|
    ensures BytesOf(ds[..2 * m]) == BytesOf(ds)[..m]
  {
  }

  /** The text of some bytes begins with a text of the first of them. */
  lemma {:induction false} SplitText(text: string, bs: seq<Octet>, m: nat) returns (a: string, b: string)
    requires Spells(text, bs) && m <= |bs|
    ensures text == a + b && Spells(a, bs[..m]) && ':' !in b
  {
    hide BytesOf, Digits;
    var k := SplitDigits(text, 2 * m);
    BytesOfPrefix(Digits(text), m);
    a, b := text[..k], text[k..];
    assert text == a + b;
  }

  // ---- Past the boot section ----

  /** Nothing is buffered, and addresses are counted from zero. */
  predicate Calm(l: Loader, f: Flash) {
    l.Valid() && l.flash == f && !l.pageDirty && l.currBase == 0
  }

  /** The loader waits for a line, or for data that it will not take. */
  predicate Shut(l: Loader, f: Flash) {
    Calm(l, f) && (l.phase == WaitLine || (l.phase == ReadData && l.currAddress >= f.boot))
  }

  lemma {:induction false} ShutStep(l: Loader, f: Flash, c: char)
    requires Shut(l, f) && c != ':'
    ensures Shut(Step(l, c), f) && Step(l, c).running == l.running
  {
    hide ProgramWord, FlushPageIfRequired, HexToDecimal, Flash.Valid;
  }

  /** The rest of a line changes nothing. */
  lemma {:induction false} ShutRun(l: Loader, f: Flash, text: string)
    requires Shut(l, f) && ':' !in text
    ensures Shut(Run(l, text), f) && Run(l, text).running == l.running
  {
    hide Step, Shut;
    assert l.Valid() by { ShutValid(l, f); }
    if text != [] {
      ShutRun(l, f, text[..|text| - 1]);
      ShutStep(Run(l, text[..|text| - 1]), f, text[|text| - 1]);
    }
  }

  lemma {:induction false} ShutValid(l: Loader, f: Flash)
    requires Shut(l, f)
    ensures l.Valid() && Calm(l, f)
  {
  }

  /** A line whose first bytes lead to data that is not taken. */
  lemma {:induction false} LineShut(l: Loader, f: Flash, text: string, bs: seq<Octet>, m: nat)
    requires l.Valid() && Spells(text, bs) && m <= |bs| && StaysInRecord(StartLine(l, ':'), bs[..m])
    requires Shut(RunBytes(StartLine(l, ':'), bs[..m]), f) && RunBytes(StartLine(l, ':'), bs[..m]).running == l.running
    ensures Shut(Run(l, ":" + text), f) && Run(l, ":" + text).running == l.running
  {
    hide Spells, StaysInRecord, Shut, RunBytes, StartLine;
    var a, b := SplitText(text, bs, m);
    LineRuns(l, a, bs[..m]);
    RunConcat(l, ":" + a, b);
    assert ":" + text == ":" + a + b;
    ShutRun(Run(l, ":" + a), f, b);
  }

  /** A data record at or past the boot section leaves flash alone, and so does an empty one anywhere. */
  lemma {:induction false} RecordShut(l: Loader, f: Flash, text: string, n: nat, data: seq<Octet>)
    requires Calm(l, f) && f.boot <= n < 65536 && |data| < 256 && Spells(text, Record(n, TYPE_DATA, data))
    ensures Calm(Run(l, ":" + text), f) && Run(l, ":" + text).running == l.running
  {
    hide Spells, RunBytes, StaysInRecord, Sum, Step, ByteStep, FlushPageIfRequired;
    StartLineState(l);
    var k, bs := StartLine(l, ':'), Record(n, TYPE_DATA, data);
    var header := [|data|, n / 256, n % 256, TYPE_DATA];
    HeaderRuns(k, n, TYPE_DATA, |data|);
    if data == [] {
      var h, b := RunBytes(k, header), (256 - Sum(header) % 256) % 256;
      assert header + data == header;
      ChecksumStep(h, b);
      Unflushed(h.(data := b, readMsb := false));
      StaysOne(h, b);
      StaysConcat(k, header, [b]);
      LineRuns(l, text, bs);
    } else {
      assert bs[..4] == header;
      LineShut(l, f, text, bs, 4);
      ShutValid(Run(l, ":" + text), f);
    }
  }

  lemma {:induction false} Unflushed(l: Loader)
    requires l.Valid() && !l.pageDirty
    ensures FlushPageIfRequired(l) == l
  {
  }

  /** The end-of-file line stops a loader that has nothing buffered. */
  lemma {:induction false} EndShut(l: Loader, f: Flash, text: string)
    requires Calm(l, f) && Spells(text, Record(0, TYPE_END_OF_FILE, []))
    ensures Run(l, ":" + text).flash == f && !Run(l, ":" + text).running
  {
    hide Spells, RunBytes, StaysInRecord, Sum, Step, ByteStep, FlushPageIfRequired;
    StartLineState(l);
    var k := StartLine(l, ':');
    var header := [0, 0, 0, TYPE_END_OF_FILE];
    HeaderRuns(k, 0, TYPE_END_OF_FILE, 0);
    assert header + [] == header;
    var h, b := RunBytes(k, header), (256 - Sum(header) % 256) % 256;
    ChecksumStep(h, b);
    Unflushed(h.(data := b, readMsb := false));
    StaysOne(h, b);
    StaysConcat(k, header, [b]);
    LineRuns(l, text, Record(0, TYPE_END_OF_FILE, []));
  }

  /** The lines of an image past the boot section. */
  lemma {:induction false} RestShut(l: Loader, f: Flash, image: seq<Octet>, n: nat, h: HexFile)
    requires Calm(l, f) && n >= f.boot && Describes(h, image, n)
    ensures Run(l, Text(h)).flash == f && !Run(l, Text(h)).running
    decreases h
  {
    hide Run, Spells, Record, Calm;
    assert l.Valid() by { CalmValid(l, f); }
    match h
    case EndLine(text) => EndShut(l, f, text);
    case DataLine(text, count, rest) =>
      RecordShut(l, f, text, n, image[n..n + count]);
      RunConcat(l, ":" + text, Text(rest));
      RestShut(Run(l, ":" + text), f, image, n + count, rest);
  }

  lemma {:induction false} CalmValid(l: Loader, f: Flash)
    requires Calm(l, f)
    ensures l.Valid() && l.flash == f
  {
  }

  // ---- Up to the boot section and past it ----

  /** An image taken in up to the boot section leaves nothing buffered, and the next page is the boot section's first. */
  lemma {:induction false} BoundaryClean(l: Loader, f0: Flash, image: seq<Octet>)
    requires LoadedTo(l, f0, image, |image|) && |image| == f0.boot
    ensures Calm(l, l.flash) && l.pageStart == f0.boot && l.flash.boot == f0.boot && Programmed(l.flash, f0, 0, image)
  {
    hide Underway, Programmed;
    UnderwayAligned(l.flash, f0, 0, image, l.pageStart, |image| - l.pageStart, l.pageDirty);
    UnderwayShape(l.flash, f0, 0, image, l.pageStart, |image| - l.pageStart, l.pageDirty);
    LoadedBounds(l, f0, image, |image|);
    Aligned(l.pageStart, |image| - l.pageStart, f0.page);
    UnderwayEnds(l.flash, f0, 0, image);
  }

  function DataHeader(n: nat, count: nat): (h: seq<Octet>)
    requires n < 65536 && count < 256
    ensures |h| == 4
  {
    [count, n / 256, n % 256, TYPE_DATA]
  }

  /** The header and the first bytes of a record that crosses into the boot section. */
  lemma {:induction false} CrossingRuns(l: Loader, f0: Flash, cut: seq<Octet>, n: nat, count: nat)
    requires LoadedTo(l, f0, cut, n) && |cut| == f0.boot && l.phase == ByteCount && l.checksum == 0 && l.currAddress == 0
    requires n < 65536 && count < 256 && count % 2 == 0 && n <= f0.boot < n + count
    ensures var bs := DataHeader(n, count) + cut[n..];
      var k := RunBytes(l, bs);
      && StaysInRecord(l, bs) && k.phase == ReadData && k.currAddress == f0.boot && k.running == l.running
      && LoadedTo(k, f0, cut, f0.boot)
  {
    hide LoadedTo, RunBytes, StaysInRecord, Sum, Flash.Valid;
    LoadedBounds(l, f0, cut, n);
    var take, header := f0.boot - n, DataHeader(n, count);
    HeaderRuns(l, n, TYPE_DATA, count);
    var h := RunBytes(l, header);
    LoadedFrame(l, h, f0, cut, n);
    assert cut[n..n + take] == cut[n..];
    if take > 0 {
      LoadedEven(l, f0, cut, n);
      DataRuns(h, f0, cut, n, take);
      StaysConcat(l, header, cut[n..]);
    } else {
      assert header + cut[n..] == header;
    }
  }

  lemma {:induction false} RecordFront(n: nat, data: seq<Octet>, take: nat)
    requires n < 65536 && take <= |data| < 256
    ensures |Record(n, TYPE_DATA, data)| == 5 + |data|
    ensures Record(n, TYPE_DATA, data)[..4 + take] == DataHeader(n, |data|) + data[..take]
  {
    hide Sum;
    var header := DataHeader(n, |data|);
    var b := (256 - Sum(header + data) % 256) % 256;
    assert (header + data + [b])[..4 + take] == header + data[..take];
  }

  lemma {:induction false} LoadedEven(l: Loader, f0: Flash, image: seq<Octet>, n: nat)
    requires LoadedTo(l, f0, image, n)
    ensures n % 2 == 0 && |image| % 2 == 0
  {
  }

  /** A record that crosses into the boot section leaves the application full and the loader shut. */
  lemma {:induction false} CrossingShut(l: Loader, f0: Flash, cut: seq<Octet>, n: nat, text: string, data: seq<Octet>)
    requires LoadedTo(l, f0, cut, n) && |cut| == f0.boot
    requires n < 65536 && |data| < 256 && |data| % 2 == 0 && n <= f0.boot < n + |data| && data[..f0.boot - n] == cut[n..]
    requires Spells(text, Record(n, TYPE_DATA, data))
    ensures l.Valid()
    ensures var k := Run(l, ":" + text);
      Calm(k, k.flash) && k.flash.boot == f0.boot && Programmed(k.flash, f0, 0, cut) && k.running == l.running
  {
    hide LoadedTo, RunBytes, StaysInRecord, Spells, Run, Programmed;
    LoadedBounds(l, f0, cut, n);
    StartLineState(l);
    var k, m := StartLine(l, ':'), 4 + (f0.boot - n);
    LoadedFrame(l, k, f0, cut, n);
    CrossingRuns(k, f0, cut, n, |data|);
    RecordFront(n, data, f0.boot - n);
    hide Record, DataHeader;
    var bs := Record(n, TYPE_DATA, data);
    var r := RunBytes(k, bs[..m]);
    BoundaryClean(r, f0, cut);
    LineShut(l, r.flash, text, bs, m);
    ShutValid(Run(l, ":" + text), r.flash);
  }

  /** The lines of an image that is longer than the application section. */
  lemma {:induction false} LongRuns(l: Loader, f0: Flash, image: seq<Octet>, n: nat, h: HexFile)
    requires f0.boot < |image| && n <= f0.boot && LoadedTo(l, f0, image[..f0.boot], n) && Describes(h, image, n)
    ensures l.Valid()
    ensures var k := Run(l, Text(h)); !k.running && Programmed(k.flash, f0, 0, image[..f0.boot])
    decreases h
  {
    hide LoadedTo, Run, Spells, Programmed, Record;
    var cut := image[..f0.boot];
    LoadedBounds(l, f0, cut, n);
    match h
    case EndLine(text) =>
    case DataLine(text, count, rest) =>
      RunConcat(l, ":" + text, Text(rest));
      if n + count <= f0.boot {
        assert cut[n..n + count] == image[n..n + count];
        WithinRuns(l, f0, cut, n, text, count);
        LongRuns(Run(l, ":" + text), f0, image, n + count, rest);
      } else {
        var data := image[n..n + count];
        assert data[..f0.boot - n] == cut[n..];
        CrossingShut(l, f0, cut, n, text, data);
        var k := Run(l, ":" + text);
        RestShut(k, k.flash, image, n + count, rest);
      }
  }

  lemma {:induction false} WithinRuns(l: Loader, f0: Flash, image: seq<Octet>, n: nat, text: string, count: nat)
    requires LoadedTo(l, f0, image, n) && n < 65536 && count < 256 && count % 2 == 0 && n + count <= |image|
    requires Spells(text, Record(n, TYPE_DATA, image[n..n + count]))
    ensures l.Valid() && LoadedTo(Run(l, ":" + text), f0, image, n + count)
  {
    hide LoadedTo, Run, RunBytes, Spells, StaysInRecord, StartLine, Record;
    LoadedBounds(l, f0, image, n);
    StartLineState(l);
    var k := StartLine(l, ':');
    LoadedFrame(l, k, f0, image, n);
    RecordRuns(k, f0, image, n, count);
    LineRuns(l, text, Record(n, TYPE_DATA, image[n..n + count]));
  }

  /**
   * A file of an image that runs past the application section: the application section is the
   * front of the image, the boot section is as it was, and the loader stops.
   */
  lemma {:induction false} LongImageStopsAtBoot(f0: Flash, image: seq<Octet>, lead: string, h: HexFile)
    requires f0.Valid() && f0.buffer == Blank(f0.page)
    requires f0.boot < |image| && ':' !in lead && Describes(h, image, 0)
    ensures var l := Run(Reset(f0), lead + Text(h));
      && !l.running && |l.flash.mem| == |f0.mem|
      && l.flash.mem[..f0.boot] == image[..f0.boot] && l.flash.mem[f0.boot..] == f0.mem[f0.boot..]
  {
    hide Underway, Run, Text, Describes;
    var cut := image[..f0.boot];
    var l := Run(Reset(f0), lead);
    IdleRuns(Reset(f0), lead);
    SmallMod(0, f0.page);
    EvenMultiple(f0.boot, f0.page);
    UnderwayStarts(f0, 0, cut);
    RunConcat(Reset(f0), lead, Text(h));
    LongRuns(l, f0, image, 0, h);
    ProgrammedWhole(Run(l, Text(h)).flash, f0, cut);
  }

  lemma {:induction false} ProgrammedWhole(f: Flash, f0: Flash, cut: seq<Octet>)
    requires Programmed(f, f0, 0, cut) && |cut| == f0.boot
    ensures |f.mem| == |f0.mem| && f0.boot <= |f0.mem| && f.mem[..f0.boot] == cut && f.mem[f0.boot..] == f0.mem[f0.boot..]
  {
  }

  // ---- A page begun below the boot section ----

  /** Inside a record past the boot section, before its first data byte. */
  predicate AtData(l: Loader, f: Flash) {
    l.Valid() && l.flash == f && l.currBase == 0 && l.phase == ReadData && l.currAddress >= f.boot
  }

  lemma {:induction false} DropStep(l: Loader, f: Flash, c: char)
    requires AtData(l, f) && c != ':'
    ensures var r := Step(l, c);
      && (HexToDecimal(c) < 0 ==> r == l) && (HexToDecimal(c) >= 0 && !l.readMsb ==> AtData(r, f) && r.readMsb && r.running == l.running)
      && (HexToDecimal(c) >= 0 && l.readMsb ==> Shut(r, f) && r.phase == WaitLine && r.running == l.running)
  {
    hide ProgramWord, FlushPageIfRequired, HexToDecimal, Flash.Valid;
  }

  lemma {:induction false} WaitingStep(l: Loader, f: Flash, c: char)
    requires Calm(l, f) && l.phase == WaitLine && c != ':'
    ensures Calm(Step(l, c), f) && Step(l, c).phase == WaitLine && Step(l, c).running == l.running
  {
  }

  /** Two digits later the loader waits for the next line with nothing buffered. */
  lemma {:induction false} DropRun(l: Loader, f: Flash, text: string)
    requires AtData(l, f) && !l.readMsb && ':' !in text
    ensures var r, n := Run(l, text), |Digits(text)|;
      r.running == l.running && if n >= 2 then Calm(r, f) && r.phase == WaitLine else AtData(r, f) && r.readMsb == (n == 1)
  {
    hide Step, HexToDecimal;
    if text != [] {
      var t, c := text[..|text| - 1], text[|text| - 1];
      DropRun(l, f, t);
      if |Digits(t)| >= 2 {
        WaitingStep(Run(l, t), f, c);
      } else {
        DropStep(Run(l, t), f, c);
      }
    }
  }

  lemma {:induction false} DigitsConcat(a: string, b: string)
    ensures Digits(a + b) == Digits(a) + Digits(b)
  {
    if b == [] {
      assert a + b == a;
    } else {
      DigitsConcat(a, b[..|b| - 1]);
      assert (a + b)[..|a + b| - 1] == a + b[..|b| - 1];
    }
  }

  /** A data record at or past the boot section abandons the page that was being filled. */
  lemma {:induction false} RecordAbandons(l: Loader, text: string, n: nat, data: seq<Octet>)
    requires l.Valid() && l.currBase == 0 && l.flash.boot <= n < 65536 && 0 < |data| < 256 && Spells(text, Record(n, TYPE_DATA, data))
    ensures Calm(Run(l, ":" + text), l.flash) && Run(l, ":" + text).running == l.running
  {
    hide RunBytes, StaysInRecord, Sum, Step, ByteStep, BytesOf, Digits, Run;
    StartLineState(l);
    var k, bs := StartLine(l, ':'), Record(n, TYPE_DATA, data);
    HeaderRuns(k, n, TYPE_DATA, |data|);
    assert bs[..4] == [|data|, n / 256, n % 256, TYPE_DATA];
    var a, b := SplitText(text, bs, 4);
    DigitsConcat(a, b);
    LineRuns(l, a, bs[..4]);
    RunConcat(l, ":" + a, b);
    assert ":" + text == ":" + a + b;
    DropRun(Run(l, ":" + a), l.flash, b);
  }

  /** So the words of that page are lost: the end-of-file line that follows writes nothing. */
  lemma {:induction false} BegunPageLost(l: Loader, text: string, n: nat, data: seq<Octet>, end: string)
    requires l.Valid() && l.currBase == 0 && l.flash.boot <= n < 65536 && 0 < |data| < 256 && Spells(text, Record(n, TYPE_DATA, data))
    requires Spells(end, Record(0, TYPE_END_OF_FILE, []))
    ensures var r := Run(l, ":" + text + (":" + end)); r.flash == l.flash && !r.running
  {
    hide Run, Spells, Record, Calm;
    RecordAbandons(l, text, n, data);
    RunConcat(l, ":" + text, ":" + end);
    EndShut(Run(l, ":" + text), l.flash, end);
  }
}
