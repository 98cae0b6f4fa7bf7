/** Traces added to a new trace set are in its file, and are what a reader of the file gets. */
module TraceRoundTrip {
  import opened Arith
  import opened Memory
  import opened Options
  import opened TraceFormat

  // ---- The count in the header ----

  /** The item heads of a written header, up to the count. */
  lemma {:induction false} HeadsToCount(g: Geometry, n: nat, block: seq<Octet>)
    ensures var c := Header(g, n) + block;
      && HeadAt(c, 0) == Some(Head(TITLE_SPACE, 1, 0)) && HeadAt(c, 3) == Some(Head(SAMPLE_CODING, 1, 0))
      && HeadAt(c, 6) == Some(Head(DATA_SPACE, 2, 0)) && HeadAt(c, 10) == Some(Head(SAMPLES_PER_TRACE, 4, 0))
      && HeadAt(c, 16) == Some(Head(NUMBER_OF_TRACES, 4, 0))
  {
    hide Byte, Back;
    var f := Front(g);
    assert f[0] == TITLE_SPACE && f[1] == 1 && f[3] == SAMPLE_CODING && f[4] == 1;
    assert f[6] == DATA_SPACE && f[7] == 2 && f[10] == SAMPLES_PER_TRACE && f[11] == 4;
    var c := Header(g, n) + block;
    assert forall i | 0 <= i < COUNT_OFFSET :: c[i] == f[i];
    assert c[16] == CountItem(n)[0] && c[17] == CountItem(n)[1];
  }

  lemma {:induction false} HeadsAfterCount(g: Geometry, n: nat, block: seq<Octet>)
    ensures var c := Header(g, n) + block;
      && HeadAt(c, 22) == Some(Head(X_LABEL, 1, 0)) && HeadAt(c, 25) == Some(Head(Y_LABEL, 1, 0))
      && HeadAt(c, 28) == Some(Head(X_SCALE, 4, 0)) && HeadAt(c, 34) == Some(Head(Y_SCALE, 4, 0))
      && HeadAt(c, 40) == Some(Head(TRACE_BLOCK, 0, 0))
  {
    hide Byte, Front, CountItem;
    var f := Back(g);
    assert f[0] == X_LABEL && f[1] == 1 && f[3] == Y_LABEL && f[4] == 1 && f[6] == X_SCALE && f[7] == 4;
    assert f[12] == Y_SCALE && f[13] == 4 && f[18] == TRACE_BLOCK && f[19] == 0;
    var c := Header(g, n) + block;
    assert forall i | 22 <= i < HEADER_SIZE :: c[i] == f[i - 22];
  }

  /** The search finds the count in any file that starts with a header. */
  lemma {:induction false} CountFound(g: Geometry, n: nat, block: seq<Octet>)
    ensures FindTag(Header(g, n) + block, NUMBER_OF_TRACES, 0, 0) == Found(COUNT_OFFSET)
  {
    var c := Header(g, n) + block;
    HeadsToCount(g, n, block);
    hide HeadAt, Header;
    assert FindTag(c, NUMBER_OF_TRACES, 16, 0) == Found(16);
    assert FindTag(c, NUMBER_OF_TRACES, 10, 0) == FindTag(c, NUMBER_OF_TRACES, 16, 0);
    assert FindTag(c, NUMBER_OF_TRACES, 6, 0) == FindTag(c, NUMBER_OF_TRACES, 10, 0);
    assert FindTag(c, NUMBER_OF_TRACES, 3, 0) == FindTag(c, NUMBER_OF_TRACES, 6, 0);
    assert FindTag(c, NUMBER_OF_TRACES, 0, 0) == FindTag(c, NUMBER_OF_TRACES, 3, 0);
  }

  /** Rewriting the count turns the header into the header of the new count, and changes no other byte. */
  lemma {:induction false} CountUpdated(g: Geometry, n: nat, m: nat, block: seq<Octet>)
    ensures AfterUpdate(Header(g, n) + block, m) == Some(Header(g, m) + block)
    ensures forall i | 0 <= i < HEADER_SIZE && !(18 <= i < 22) :: Header(g, m)[i] == Header(g, n)[i]
  {
    CountFound(g, n, block);
    hide FindTag, Front, Back, Byte;
    var c := Header(g, n) + block;
    assert c[..16] == Front(g);
    assert c[22..] == Back(g) + block;
    assert Overwrite(c, 16, CountItem(m)) == Header(g, m) + block;
  }

  // ---- Adding traces ----

  /** A well-sized trace is appended as a record, and the count goes up by one. */
  lemma {:induction false} AddedTrace(g: Geometry, n: nat, block: seq<Octet>, t: Trace)
    requires KnownCoding(g.coding) && g.WellSized(t)
    ensures AddTrace(Writer(Header(g, n) + block, g, n), t) == (Writer(Header(g, n + 1) + (block + Record(t)), g, n + 1), Added)
  {
    hide Header, AfterUpdate;
    CountUpdated(g, n, n + 1, block + Record(t));
    assert Header(g, n) + block + t.title + t.data + t.samples == Header(g, n) + (block + Record(t));
  }

  /** After any run of well-sized additions to a new file, it holds the header with their number and their records in order. */
  lemma {:induction false} FileOfRun(g: Geometry, ts: seq<Trace>)
    requires KnownCoding(g.coding) && forall t | t in ts :: g.WellSized(t)
    ensures AddTraces(NewFile(g), ts) == Writer(File(g, ts), g, |ts|)
    decreases |ts|
  {
    hide Header, Geometry.WellSized, AddTrace;
    if ts == [] {
      assert Header(g, 0) + [] == Header(g, 0);
    } else {
      var last := |ts| - 1;
      assert ts[last] in ts;
      FileOfRun(g, ts[..last]);
      AddedTrace(g, last, Records(ts[..last]), ts[last]);
    }
  }

  /** The block of a file is as long as its number of records says. */
  lemma {:induction false} RecordsSize(g: Geometry, ts: seq<Trace>)
    requires forall t | t in ts :: g.WellSized(t)
    ensures |Records(ts)| == |ts| * g.TraceSpace()
    decreases |ts|
  {
    hide Geometry.TraceSpace, Geometry.WellSized, Record;
    if ts != [] {
      var last := |ts| - 1;
      assert ts[last] in ts;
      RecordsSize(g, ts[..last]);
      RecordSize(g, ts[last]);
      assert |ts| * g.TraceSpace() == last * g.TraceSpace() + g.TraceSpace();
    }
  }

  /** Record i stands at its multiple of the record size. */
  lemma {:induction false} RecordAt(g: Geometry, ts: seq<Trace>, i: nat)
    requires i < |ts| && forall t | t in ts :: g.WellSized(t)
    ensures var at := i * g.TraceSpace();
      at + g.TraceSpace() <= |Records(ts)| && Records(ts)[at..at + g.TraceSpace()] == Record(ts[i])
    decreases |ts|
  {
    hide Geometry.TraceSpace, Geometry.WellSized, Record;
    var last := |ts| - 1;
    var before := Records(ts[..last]);
    assert ts[last] in ts;
    RecordsSize(g, ts[..last]);
    RecordSize(g, ts[last]);
    if i < last {
      RecordAt(g, ts[..last], i);
      var at := i * g.TraceSpace();
      assert Records(ts)[at..at + g.TraceSpace()] == before[at..at + g.TraceSpace()];
    } else {
      assert Records(ts)[|before|..] == Record(ts[last]);
    }
  }

  lemma {:induction false} RecordSize(g: Geometry, t: Trace)
    requires g.WellSized(t)
    ensures |Record(t)| == g.TraceSpace()
  {
  }

  /** The file is a header and as many record-sized pieces as its count says. */
  predicate Formed(content: seq<Octet>, g: Geometry, n: nat) {
    |content| == HEADER_SIZE + n * g.TraceSpace() && content[..HEADER_SIZE] == Header(g, n)
  }

  /**
   * Adding any trace to a well-formed file keeps it well-formed exactly when the title has the wrong
   * size, or all three parts have the right size, or the data have the wrong size and titles are empty.
   */
  lemma {:induction false} FormKeptExactly(g: Geometry, n: nat, block: seq<Octet>, t: Trace)
    requires KnownCoding(g.coding) && |block| == n * g.TraceSpace()
    ensures var w := AddTrace(Writer(Header(g, n) + block, g, n), t).0;
      Formed(w.content, g, w.count) <==> (|t.title| != g.titleSpace || g.WellSized(t) || (|t.data| != g.dataSpace && g.titleSpace == 0))
  {
    hide Header, AfterUpdate;
    var c := Header(g, n) + block;
    assert c[..HEADER_SIZE] == Header(g, n);
    if |t.title| == g.titleSpace && |t.data| == g.dataSpace {
      var more := block + Record(t);
      assert c + t.title + t.data + t.samples == Header(g, n) + more;
      CountUpdated(g, n, n + 1, more);
      assert (Header(g, n + 1) + more)[..HEADER_SIZE] == Header(g, n + 1);
      assert (n + 1) * g.TraceSpace() == n * g.TraceSpace() + g.TraceSpace();
    } else if |t.title| == g.titleSpace {
      assert (c + t.title)[..HEADER_SIZE] == Header(g, n);
    }
  }

  // ---- Reading ----

  /** The geometry that the widths of the header leave. */
  function Wrapped(g: Geometry): Geometry {
    g.(titleSpace := g.titleSpace % 256, coding := g.coding % 256, dataSpace := g.dataSpace % 65536,
       samples := g.samples % 0x1_0000_0000)
  }

  /** A reader that has read a header of this geometry and count. */
  function ReaderOf(g: Geometry, n: nat): Reader {
    Reader(g.titleSpace, g.dataSpace, Some(n), Some(g.samples), Some(g.coding), n * g.TraceSpace(), Some(HEADER_SIZE))
  }

  /** One step of the scan over an item of the length that its tag expects. */
  lemma {:induction false} ScanItem(c: seq<Octet>, at: nat, r: Reader, h: Head, s: Reader)
    requires at < |c| - r.blockSpace && HeadAt(c, at) == Some(h) && h.extra == 0
    requires Understood(h.tag) || (h.tag != 0 && h.length != 0)
    requires ReadItem(c, at + 2, h, r) == Ready(s, at + 2 + h.length)
    ensures Scan(c, at, at, r) == Scan(c, at + 2 + h.length, at + 2 + h.length, s)
  {
    hide HeadAt, ReadItem;
  }

  /** The values of the items before and at the count. */
  lemma {:induction false} HeaderValues(g: Geometry, n: nat, block: seq<Octet>)
    ensures var c := Header(g, n) + block;
      && c[2] as int == g.titleSpace % 256 && c[5] as int == g.coding % 256 && Uint16(c[8..10]) == g.dataSpace % 65536
      && Uint32(c[12..16]) == g.samples % 0x1_0000_0000 && Uint32(c[18..22]) == n % 0x1_0000_0000
  {
    var c := Header(g, n) + block;
    assert c[..16] == Front(g) && c[16..22] == CountItem(n);
    assert c[8..10] == Front(g)[8..10] == [Byte(g.dataSpace, 0), Byte(g.dataSpace, 1)];
    assert c[12..16] == Front(g)[12..16] == [Byte(g.samples, 0), Byte(g.samples, 1), Byte(g.samples, 2), Byte(g.samples, 3)];
    assert c[18..22] == CountItem(n)[2..6] == [Byte(n, 0), Byte(n, 1), Byte(n, 2), Byte(n, 3)];
    hide Byte, Uint32, Uint16;
    Uint16Bytes(g.dataSpace);
    Uint32Bytes(g.samples);
    Uint32Bytes(n);
  }

  lemma {:induction false} ScanToCount(g: Geometry, n: nat, block: seq<Octet>)
    ensures var w := Wrapped(g);
      Scan(Header(g, n) + block, 0, 0, FRESH) == Scan(Header(g, n) + block, 22, 22,
        Reader(w.titleSpace, w.dataSpace, Some(n % 0x1_0000_0000), Some(w.samples), Some(w.coding), 0, None))
  {
    var c, w := Header(g, n) + block, Wrapped(g);
    HeadsToCount(g, n, block);
    HeaderValues(g, n, block);
    hide Scan, HeadAt, Header, Uint16, Uint32;
    var r1 := FRESH.(titleSpace := w.titleSpace);
    ScanItem(c, 0, FRESH, Head(TITLE_SPACE, 1, 0), r1);
    var r2 := r1.(coding := Some(w.coding));
    ScanItem(c, 3, r1, Head(SAMPLE_CODING, 1, 0), r2);
    var r3 := r2.(dataSpace := w.dataSpace);
    ScanItem(c, 6, r2, Head(DATA_SPACE, 2, 0), r3);
    var r4 := r3.(samples := Some(w.samples));
    ScanItem(c, 10, r3, Head(SAMPLES_PER_TRACE, 4, 0), r4);
    ScanItem(c, 16, r4, Head(NUMBER_OF_TRACES, 4, 0), r4.(traces := Some(n % 0x1_0000_0000)));
  }

  /** The labels and scales are skipped. */
  lemma {:induction false} ScanToBlock(g: Geometry, n: nat, block: seq<Octet>, r: Reader)
    requires r.blockSpace == 0
    ensures Scan(Header(g, n) + block, 22, 22, r) == Scan(Header(g, n) + block, 40, 40, r)
  {
    var c := Header(g, n) + block;
    HeadsAfterCount(g, n, block);
    hide Scan, HeadAt, Header;
    ScanItem(c, 22, r, Head(X_LABEL, 1, 0), r);
    ScanItem(c, 25, r, Head(Y_LABEL, 1, 0), r);
    ScanItem(c, 28, r, Head(X_SCALE, 4, 0), r);
    ScanItem(c, 34, r, Head(Y_SCALE, 4, 0), r);
  }

  /**
   * Opening a file with as many records as its header says recovers what the header encodes, and
   * ends with the file position behind the last record.
   */
  lemma {:induction false} OpenRecovers(g: Geometry, n: nat, block: seq<Octet>)
    requires |block| == n % 0x1_0000_0000 * Wrapped(g).TraceSpace()
    ensures Scan(Header(g, n) + block, 0, 0, FRESH) == Ready(ReaderOf(Wrapped(g), n % 0x1_0000_0000), HEADER_SIZE + |block|)
  {
    hide Header, HeadAt;
    var c, w, m := Header(g, n) + block, Wrapped(g), n % 0x1_0000_0000;
    var r := Reader(w.titleSpace, w.dataSpace, Some(m), Some(w.samples), Some(w.coding), 0, None);
    ScanToCount(g, n, block);
    ScanToBlock(g, n, block, r);
    HeadsAfterCount(g, n, block);
    assert ReadItem(c, 42, Head(TRACE_BLOCK, 0, 0), r) == Ready(ReaderOf(w, m), 42 + |block|);
  }

  /** A new file is read back with the geometry it was made with exactly when that fits the header. */
  lemma {:induction false} NewFileReadsBack(g: Geometry)
    requires KnownCoding(g.coding)
    ensures Scan(NewFile(g).content, 0, 0, FRESH) == Ready(ReaderOf(g, 0), HEADER_SIZE) <==> g.Encodable()
  {
    hide Scan, Header;
    assert Header(g, 0) + [] == Header(g, 0);
    OpenRecovers(g, 0, []);
  }

  /**
   * A trace set written by any run of well-sized additions is opened with its geometry and its
   * count, and its i-th trace is the i-th trace added.
   */
  lemma {:induction false} WrittenTracesRead(g: Geometry, ts: seq<Trace>, i: nat)
    requires g.Encodable() && |ts| < 0x1_0000_0000 && i < |ts| && forall t | t in ts :: g.WellSized(t)
    ensures var c := AddTraces(NewFile(g), ts).content;
      && Scan(c, 0, 0, FRESH) == Ready(ReaderOf(g, |ts|), |c|)
      && GetTrace(c, ReaderOf(g, |ts|), i) == Some(ts[i])
  {
    hide Scan, Header, AddTraces, Geometry.WellSized, Geometry.TraceSpace, GetTrace;
    FileOfRun(g, ts);
    RecordsSize(g, ts);
    assert Wrapped(g) == g;
    SmallMod(|ts|, 0x1_0000_0000);
    OpenRecovers(g, |ts|, Records(ts));
    TraceOfFile(g, ts, i);
  }

  lemma {:induction false} TraceOfFile(g: Geometry, ts: seq<Trace>, i: nat)
    requires KnownCoding(g.coding) && i < |ts| && forall t | t in ts :: g.WellSized(t)
    ensures GetTrace(File(g, ts), ReaderOf(g, |ts|), i) == Some(ts[i])
  {
    hide Header, Slice, Records, Record;
    var c, b := File(g, ts), i * g.TraceSpace();
    assert ts[i] in ts;
    RecordSize(g, ts[i]);
    RecordAt(g, ts, i);
    RecordInFile(g, ts, b, g.TraceSpace());
    PartsOfRecord(c, HEADER_SIZE + b, ts[i]);
  }

  lemma {:induction false} RecordInFile(g: Geometry, ts: seq<Trace>, b: nat, n: nat)
    requires b + n <= |Records(ts)|
    ensures var c := File(g, ts); HEADER_SIZE + b + n <= |c| && c[HEADER_SIZE + b..HEADER_SIZE + b + n] == Records(ts)[b..b + n]
  {
    hide Header, Records;
    var c := File(g, ts);
    assert c[HEADER_SIZE..|c|] == Records(ts);
    PartOfPart(c, HEADER_SIZE, |c|, b, b + n);
  }

  lemma {:induction false} RecordSplits(t: Trace)
    ensures var r, n, m := Record(t), |t.title|, |t.title| + |t.data|;
      && |r| == m + |t.samples| && r[0..n] == t.title && r[n..m] == t.data && r[m..|r|] == t.samples
  {
  }

  lemma {:induction false} PartsOfRecord(c: seq<Octet>, at: nat, t: Trace)
    requires at + |Record(t)| <= |c| && c[at..at + |Record(t)|] == Record(t)
    ensures var d := at + |t.title|; var s := d + |t.data|;
      Slice(c, at, |t.title|) == t.title && Slice(c, d, |t.data|) == t.data && Slice(c, s, |t.samples|) == t.samples
  {
    hide Record, Slice;
    RecordSplits(t);
    var r := Record(t);
    var n, m := |t.title|, |t.title| + |t.data|;
    SliceOfPart(c, at, r, 0, n);
    SliceOfPart(c, at, r, n, m);
    SliceOfPart(c, at, r, m, |r|);
  }

  lemma {:induction false} SliceOfPart(c: seq<Octet>, at: nat, part: seq<Octet>, i: nat, j: nat)
    requires at + |part| <= |c| && c[at..at + |part|] == part && i <= j <= |part|
    ensures Slice(c, at + i, j - i) == part[i..j]
  {
    PartOfPart(c, at, at + |part|, i, j);
  }

  lemma {:induction false} PartOfPart(c: seq<Octet>, a: nat, b: nat, i: nat, j: nat)
    requires a <= b <= |c| && i <= j <= b - a
    ensures c[a..b][i..j] == c[a + i..a + j]
  {
    var p, q := c[a..b][i..j], c[a + i..a + j];
    forall k | 0 <= k < j - i
      ensures p[k] == q[k]
    {
      assert p[k] == c[a..b][i + k] == c[a + (i + k)];
    }
  }

  // ---- Labels and scales ----

  /** Where the items after the count begin, and what their values are. */
  lemma {:induction false} BackValues(g: Geometry, n: nat, block: seq<Octet>)
    ensures var c := Header(g, n) + block;
      && c[24] == 's' as int && c[27] == 'V' as int
      && c[30..34] == [g.xscale.b0, g.xscale.b1, g.xscale.b2, g.xscale.b3]
      && c[36..40] == [g.yscale.b0, g.yscale.b1, g.yscale.b2, g.yscale.b3]
  {
    hide Byte, Front, CountItem;
    var f, c := Back(g), Header(g, n) + block;
    assert forall i | 22 <= i < HEADER_SIZE :: c[i] == f[i - 22];
    assert f[8..12] == [g.xscale.b0, g.xscale.b1, g.xscale.b2, g.xscale.b3];
    assert f[14..18] == [g.yscale.b0, g.yscale.b1, g.yscale.b2, g.yscale.b3];
    assert c[30..34] == f[8..12] && c[36..40] == f[14..18];
  }

  /** The search passes every item before the one it looks for. */
  lemma {:induction false} BackFound(g: Geometry, n: nat, block: seq<Octet>)
    ensures var c := Header(g, n) + block;
      && FindTag(c, X_LABEL, 0, 0) == Found(22) && FindTag(c, Y_LABEL, 0, 0) == Found(25)
      && FindTag(c, X_SCALE, 0, 0) == Found(28) && FindTag(c, Y_SCALE, 0, 0) == Found(34)
  {
    var c := Header(g, n) + block;
    HeadsToCount(g, n, block);
    HeadsAfterCount(g, n, block);
    hide HeadAt, Header, FindTag;
    forall tag: Octet | tag in [X_LABEL, Y_LABEL, X_SCALE, Y_SCALE]
      ensures FindTag(c, tag, 0, 0) == FindTag(c, tag, 22, 0)
    {
      TagPassed(c, tag, 0);
      TagPassed(c, tag, 3);
      TagPassed(c, tag, 6);
      TagPassed(c, tag, 10);
      TagPassed(c, tag, 16);
    }
    assert X_LABEL in [X_LABEL, Y_LABEL, X_SCALE, Y_SCALE] && Y_LABEL in [X_LABEL, Y_LABEL, X_SCALE, Y_SCALE];
    assert X_SCALE in [X_LABEL, Y_LABEL, X_SCALE, Y_SCALE] && Y_SCALE in [X_LABEL, Y_LABEL, X_SCALE, Y_SCALE];
    TagPassed(c, Y_LABEL, 22);
    TagPassed(c, X_SCALE, 22);
    TagPassed(c, X_SCALE, 25);
    TagPassed(c, Y_SCALE, 22);
    TagPassed(c, Y_SCALE, 25);
    TagPassed(c, Y_SCALE, 28);
    TagHit(c, X_LABEL, 22);
    TagHit(c, Y_LABEL, 25);
    TagHit(c, X_SCALE, 28);
    TagHit(c, Y_SCALE, 34);
  }

  lemma {:induction false} TagPassed(c: seq<Octet>, tag: Octet, at: nat)
    requires at < |c| && HeadAt(c, at).Some? && HeadAt(c, at).value.tag != tag
    ensures var h := HeadAt(c, at).value; FindTag(c, tag, at, 0) == FindTag(c, tag, at + 2 + h.extra + h.length, 0)
  {
    hide HeadAt;
  }

  lemma {:induction false} TagHit(c: seq<Octet>, tag: Octet, at: nat)
    requires at < |c| && HeadAt(c, at).Some? && HeadAt(c, at).value.tag == tag
    ensures FindTag(c, tag, at, 0) == Found(at)
  {
    hide HeadAt;
  }

  /**
   * In the file of any run of well-sized additions, a search for the scale or the label of either
   * axis ends at an item that holds the scale the set was made with, or the unit of that axis.
   */
  lemma {:induction false} ScalesFound(g: Geometry, ts: seq<Trace>)
    requires KnownCoding(g.coding) && forall t | t in ts :: g.WellSized(t)
    ensures var c := AddTraces(NewFile(g), ts).content;
      var x, y := FindTag(c, X_SCALE, 0, 0), FindTag(c, Y_SCALE, 0, 0);
      var u, v := FindTag(c, X_LABEL, 0, 0), FindTag(c, Y_LABEL, 0, 0);
      && x.Found? && x.at + 6 <= |c| && c[x.at + 2..x.at + 6] == [g.xscale.b0, g.xscale.b1, g.xscale.b2, g.xscale.b3]
      && y.Found? && y.at + 6 <= |c| && c[y.at + 2..y.at + 6] == [g.yscale.b0, g.yscale.b1, g.yscale.b2, g.yscale.b3]
      && u.Found? && u.at + 3 <= |c| && c[u.at + 2] == 's' as int && v.Found? && v.at + 3 <= |c| && c[v.at + 2] == 'V' as int
  {
    hide Header, AddTraces, Geometry.WellSized, Records, FindTag;
    FileOfRun(g, ts);
    BackFound(g, |ts|, Records(ts));
    BackValues(g, |ts|, Records(ts));
  }

  // ---- Items of other writers ----

  /** A number in n little-endian bytes. */
  function LittleBytes(v: nat, n: nat): (s: seq<Octet>)
    ensures |s| == n
  {
    if n == 0 then [] else [v % 256] + LittleBytes(v / 256, n - 1)
  }

  function Power256(n: nat): nat {
    if n == 0 then 1 else 256 * Power256(n - 1)
  }

  lemma {:induction false} LittleRead(v: nat, n: nat)
    requires v < Power256(n)
    ensures Little(LittleBytes(v, n)) == v
  {
    if n > 0 {
      LittleRead(v / 256, n - 1);
      assert LittleBytes(v, n)[1..] == LittleBytes(v / 256, n - 1);
    }
  }

  /** An item with its length in one byte, or in n bytes behind a byte of 128 + n. */
  function Item(tag: Octet, value: seq<Octet>, n: nat): seq<Octet>
    requires n < 128 && (n == 0 ==> |value| < 128)
  {
    [tag, if n == 0 then |value| else 128 + n] + LittleBytes(|value|, n) + value
  }

  lemma {:induction false} LongHead(front: seq<Octet>, size: seq<Octet>, rest: seq<Octet>)
    requires |front| == 2 && front[1] as int == 128 + |size|
    ensures HeadAt(front + size + rest, 0) == Some(Head(front[0], Little(size), |size|))
  {
    hide Little;
    assert (front + size + rest)[2..2 + |size|] == size;
  }

  lemma {:induction false} ShortHead(front: seq<Octet>, size: seq<Octet>, rest: seq<Octet>)
    requires |front| == 2 && front[1] < 128 && size == []
    ensures HeadAt(front + size + rest, 0) == Some(Head(front[0], front[1], 0))
  {
  }

  /** Lengths of one byte and of several are read as they are written. */
  lemma {:induction false} ItemHead(tag: Octet, value: seq<Octet>, n: nat, rest: seq<Octet>)
    requires n < 128 && (if n == 0 then |value| < 128 else |value| < Power256(n))
    ensures HeadAt(Item(tag, value, n) + rest, 0) == Some(Head(tag, |value|, n))
    ensures |Item(tag, value, n)| == 2 + n + |value|
  {
    hide Little, LittleBytes, HeadAt;
    var front, size := [tag, if n == 0 then |value| else 128 + n], LittleBytes(|value|, n);
    Regrouped(front, size, value, rest);
    if n == 0 {
      ShortHead(front, size, value + rest);
    } else {
      LittleRead(|value|, n);
      LongHead(front, size, value + rest);
    }
  }

  lemma {:induction false} Regrouped(a: seq<Octet>, b: seq<Octet>, c: seq<Octet>, d: seq<Octet>)
    ensures a + b + c + d == a + b + (c + d)
  {
  }

  /** What a scan of the same items finds further back in a file. */
  function MovedReader(r: Reader, k: nat): Reader {
    r.(blockOffset := if r.blockOffset.Some? then Some(r.blockOffset.value + k) else None)
  }

  function Moved(o: Opened, k: nat): Opened {
    match o
    case Broken => Broken
    case Ready(r, pos) => Ready(MovedReader(r, k), pos + k)
  }

  lemma {:induction false} HeadMoved(a: seq<Octet>, c: seq<Octet>, at: nat)
    ensures HeadAt(a + c, |a| + at) == HeadAt(c, at)
  {
    if at + 2 <= |c| && c[at + 1] >= 128 {
      var n := c[at + 1] as int - 128;
      if at + 2 + n <= |c| {
        assert (a + c)[|a| + at + 2..|a| + at + 2 + n] == c[at + 2..at + 2 + n];
      }
    }
  }

  lemma {:induction false} ItemMoved(a: seq<Octet>, c: seq<Octet>, pos: nat, h: Head, r: Reader)
    requires pos <= |c|
    ensures ReadItem(a + c, |a| + pos, h, MovedReader(r, |a|)) == Moved(ReadItem(c, pos, h, r), |a|)
  {
    hide Uint16, Uint32;
    if pos + 4 <= |c| {
      assert (a + c)[|a| + pos..|a| + pos + 4] == c[pos..pos + 4];
    }
    if pos + 2 <= |c| {
      assert (a + c)[|a| + pos..|a| + pos + 2] == c[pos..pos + 2];
    }
  }

  /** A scan does not depend on what stands before the place where it starts. */
  lemma {:induction false} ScanMoved(a: seq<Octet>, c: seq<Octet>, pos: nat, offset: nat, r: Reader)
    ensures Scan(a + c, |a| + pos, |a| + offset, MovedReader(r, |a|)) == Moved(Scan(c, pos, offset, r), |a|)
    decreases |c| - offset
  {
    hide HeadAt, ReadItem, Understood;
    if offset < |c| - r.blockSpace {
      HeadMoved(a, c, pos);
      var h := HeadAt(c, pos);
      if h.Some? && (Understood(h.value.tag) || (h.value.tag != 0 && h.value.length != 0)) {
        ItemMoved(a, c, pos + 2 + h.value.extra, h.value, r);
        var o := ReadItem(c, pos + 2 + h.value.extra, h.value, r);
        if o.Ready? {
          ScanMoved(a, c, o.pos, offset + 2 + h.value.extra + h.value.length, o.reader);
        }
      }
    }
  }

  /** An unknown item before the others, of any length that is not zero, is skipped. */
  lemma {:induction false} UnknownSkipped(tag: Octet, value: seq<Octet>, n: nat, c: seq<Octet>)
    requires !Understood(tag) && tag != 0 && value != [] && c != []
    requires n < 128 && (if n == 0 then |value| < 128 else |value| < Power256(n))
    ensures Scan(Item(tag, value, n) + c, 0, 0, FRESH) == Moved(Scan(c, 0, 0, FRESH), |Item(tag, value, n)|)
  {
    ItemHead(tag, value, n, c);
    hide HeadAt, Item;
    var a := Item(tag, value, n);
    ScanMoved(a, c, 0, 0, FRESH);
    assert |a| + 0 == |a| && MovedReader(FRESH, |a|) == FRESH;
  }

  /** A trace set behind any unknown item is opened as it would be alone, with its trace block further back. */
  lemma {:induction false} OpenBehindItem(tag: Octet, value: seq<Octet>, n: nat, g: Geometry, ts: seq<Trace>)
    requires !Understood(tag) && tag != 0 && value != [] && n < 128 && (if n == 0 then |value| < 128 else |value| < Power256(n))
    requires g.Encodable() && |ts| < 0x1_0000_0000 && forall t | t in ts :: g.WellSized(t)
    ensures var a := Item(tag, value, n);
      Scan(a + File(g, ts), 0, 0, FRESH) == Ready(MovedReader(ReaderOf(g, |ts|), |a|), |a| + |File(g, ts)|)
  {
    hide Scan, Header, Item, Geometry.WellSized, Geometry.TraceSpace;
    RecordsSize(g, ts);
    assert Wrapped(g) == g;
    SmallMod(|ts|, 0x1_0000_0000);
    OpenRecovers(g, |ts|, Records(ts));
    UnknownSkipped(tag, value, n, File(g, ts));
  }

  /** An unknown item of tag zero, or without a value, ends the scan where it stands. */
  lemma {:induction false} EmptyItemEnds(tag: Octet, value: seq<Octet>, n: nat, c: seq<Octet>)
    requires !Understood(tag) && (tag == 0 || value == [])
    requires n < 128 && (if n == 0 then |value| < 128 else |value| < Power256(n))
    ensures Scan(Item(tag, value, n) + c, 0, 0, FRESH) == Ready(FRESH, 2 + n)
  {
    ItemHead(tag, value, n, c);
    hide HeadAt, Item;
  }

  // ---- Any run of additions ----

  /** Only a trace whose title and data have the right size is counted. */
  predicate Counted(g: Geometry, t: Trace) {
    |t.title| == g.titleSpace && |t.data| == g.dataSpace
  }

  /** What the file keeps of a trace: nothing, its title, or all but samples of an unknown coding. */
  function Kept(g: Geometry, t: Trace): seq<Octet> {
    if |t.title| != g.titleSpace then []
    else if |t.data| != g.dataSpace then t.title
    else if KnownCoding(g.coding) then Record(t)
    else t.title + t.data
  }

  function KeptAll(g: Geometry, ts: seq<Trace>): seq<Octet> {
    if ts == [] then [] else KeptAll(g, ts[..|ts| - 1]) + Kept(g, ts[|ts| - 1])
  }

  function Count(g: Geometry, ts: seq<Trace>): nat {
    if ts == [] then 0 else Count(g, ts[..|ts| - 1]) + if Counted(g, ts[|ts| - 1]) then 1 else 0
  }

  lemma {:induction false} AnyAdded(g: Geometry, n: nat, block: seq<Octet>, t: Trace)
    ensures var r := AddTrace(Writer(Header(g, n) + block, g, n), t);
      var m := if Counted(g, t) then n + 1 else n;
      && r.0 == Writer(Header(g, m) + (block + Kept(g, t)), g, m) && r.1 != Crashed
      && (r.1 == Added <==> Counted(g, t))
  {
    hide Header, AfterUpdate;
    var c := Header(g, n) + block;
    if Counted(g, t) {
      CountUpdated(g, n, n + 1, block + Kept(g, t));
      assert c + t.title + t.data + (if KnownCoding(g.coding) then t.samples else []) == Header(g, n) + (block + Kept(g, t));
    } else if |t.title| == g.titleSpace {
      assert c + t.title == Header(g, n) + (block + t.title);
    } else {
      assert block + [] == block;
    }
  }

  /**
   * After any additions to a new file, of any traces and any coding, the file is the header with the
   * number of traces counted and what was kept of each of them; and the next addition does not fail
   * to find the count.
   */
  lemma {:induction false} FileOfAnyRun(g: Geometry, ts: seq<Trace>, next: Trace)
    ensures var w := AddTraces(NewFile(g), ts);
      && w == Writer(Header(g, Count(g, ts)) + KeptAll(g, ts), g, Count(g, ts))
      && AddTrace(w, next).1 != Crashed && (AddTrace(w, next).1 == Added <==> Counted(g, next))
    decreases |ts|
  {
    hide Header, AddTrace, Counted, Kept;
    if ts == [] {
      assert Header(g, 0) + [] == Header(g, 0);
    } else {
      var last := |ts| - 1;
      FileOfAnyRun(g, ts[..last], next);
      AnyAdded(g, Count(g, ts[..last]), KeptAll(g, ts[..last]), ts[last]);
    }
    AnyAdded(g, Count(g, ts), KeptAll(g, ts), next);
  }

  // ---- A file cut short ----

  function Cut(s: seq<Octet>, n: int): seq<Octet> {
    if n <= 0 then [] else if n <= |s| then s[..n] else s
  }

  lemma {:induction false} SlicesJoin(c: seq<Octet>, a: nat, m: nat, n: nat)
    ensures Slice(c, a, m) + Slice(c, a + m, n) == Slice(c, a, m + n)
  {
  }

  lemma {:induction false} SliceCut(c: seq<Octet>, k: nat, a: nat, part: seq<Octet>)
    requires k <= |c| && a + |part| <= |c| && c[a..a + |part|] == part
    ensures Slice(c[..k], a, |part|) == Cut(part, k - a)
  {
  }

  /** Of a file that ends early, a trace is read up to the end of the file and no further. */
  lemma {:induction false} CutFileRead(g: Geometry, ts: seq<Trace>, i: nat, k: nat)
    requires KnownCoding(g.coding) && i < |ts| && (forall t | t in ts :: g.WellSized(t)) && k <= |File(g, ts)|
    ensures var r := GetTrace(File(g, ts)[..k], ReaderOf(g, |ts|), i);
      r.Some? && Record(r.value) == Cut(Record(ts[i]), k - (HEADER_SIZE + i * g.TraceSpace()))
  {
    hide Header, Slice, Records, Cut, Geometry.WellSized;
    var c, b := File(g, ts), i * g.TraceSpace();
    assert ts[i] in ts;
    RecordSize(g, ts[i]);
    RecordAt(g, ts, i);
    RecordInFile(g, ts, b, g.TraceSpace());
    SliceCut(c, k, HEADER_SIZE + b, Record(ts[i]));
    SlicesJoin(c[..k], HEADER_SIZE + b, g.titleSpace, g.dataSpace);
    SlicesJoin(c[..k], HEADER_SIZE + b, g.titleSpace + g.dataSpace, g.SampleSpace());
  }
}
