/**
 * The trace-set file: a header of tag-length-value items and a block of fixed-size records. The
 * writer appends records and rewrites the record count in the header; the reader scans the header.
 */
module TraceFormat {
  import opened Arith
  import opened Memory
  import opened Options

  const NUMBER_OF_TRACES: Octet := 0x41
  const SAMPLES_PER_TRACE: Octet := 0x42
  const SAMPLE_CODING: Octet := 0x43
  const DATA_SPACE: Octet := 0x44
  const TITLE_SPACE: Octet := 0x45
  const X_LABEL: Octet := 0x49
  const Y_LABEL: Octet := 0x4A
  const X_SCALE: Octet := 0x4B
  const Y_SCALE: Octet := 0x4C
  const TRACE_BLOCK: Octet := 0x5F

  const CODING_FLOAT: nat := 0x14
  const HEADER_SIZE: nat := 42
  const COUNT_OFFSET: nat := 16

  datatype Trace = Trace(title: seq<Octet>, data: seq<Octet>, samples: seq<Octet>)

  /** A float as its four bytes. */
  datatype Float = Float(b0: Octet, b1: Octet, b2: Octet, b3: Octet)

  datatype Geometry = Geometry(titleSpace: nat, coding: nat, dataSpace: nat, samples: nat, xscale: Float, yscale: Float) {
    function SampleSpace(): nat {
      samples * ByteSize(coding)
    }

    function TraceSpace(): nat {
      SampleSpace() + dataSpace + titleSpace
    }

    /** Every field fits the width that the header gives it, and the samples have a coding. */
    predicate Encodable() {
      titleSpace < 256 && KnownCoding(coding) && dataSpace < 65536 && samples < 0x1_0000_0000
    }

    predicate WellSized(t: Trace) {
      |t.title| == titleSpace && |t.data| == dataSpace && |t.samples| == SampleSpace()
    }
  }

  function ByteSize(coding: nat): nat {
    if coding == CODING_FLOAT then 4 else coding
  }

  predicate KnownCoding(coding: nat) {
    coding == 1 || coding == 2 || coding == 4 || coding == CODING_FLOAT
  }

  // ---- Little-endian numbers ----

  function Byte(v: nat, k: nat): Octet
    requires k < 4
  {
    (if k == 0 then v else if k == 1 then v / 256 else if k == 2 then v / 65536 else v / 16777216) % 256
  }

  function Uint16(s: seq<Octet>): nat
    requires |s| == 2
  {
    var b0: int, b1: int := s[0], s[1];
    b0 + 256 * b1
  }

  function Uint32(s: seq<Octet>): nat
    requires |s| == 4
  {
    var b0: int, b1: int, b2: int, b3: int := s[0], s[1], s[2], s[3];
    b0 + 256 * b1 + 65536 * b2 + 16777216 * b3
  }

  lemma {:induction false} Uint16Bytes(v: nat)
    ensures Uint16([Byte(v, 0), Byte(v, 1)]) == v % 65536
  {
  }

  lemma {:induction false} Uint32Bytes(v: nat)
    ensures Uint32([Byte(v, 0), Byte(v, 1), Byte(v, 2), Byte(v, 3)]) == v % 0x1_0000_0000
  {
    var q1 := v / 256;
    var q2 := q1 / 256;
    var q3 := q2 / 256;
    var q4 := q3 / 256;
    assert v / 65536 == q2 && v / 16777216 == q3;
    var low := v % 256 + 256 * (q1 % 256) + 65536 * (q2 % 256) + 16777216 * (q3 % 256);
    assert v == 0x1_0000_0000 * q4 + low;
    DivModUnique(v, 0x1_0000_0000, q4, low);
  }

  // ---- What the writer leaves ----

  /** The items before the count. */
  function Front(g: Geometry): (h: seq<Octet>)
    ensures |h| == COUNT_OFFSET
  {
    [ TITLE_SPACE, 1, Byte(g.titleSpace, 0),
      SAMPLE_CODING, 1, Byte(g.coding, 0),
      DATA_SPACE, 2, Byte(g.dataSpace, 0), Byte(g.dataSpace, 1),
      SAMPLES_PER_TRACE, 4, Byte(g.samples, 0), Byte(g.samples, 1), Byte(g.samples, 2), Byte(g.samples, 3) ]
  }

  function CountItem(n: nat): (h: seq<Octet>)
    ensures |h| == 6
  {
    [NUMBER_OF_TRACES, 4, Byte(n, 0), Byte(n, 1), Byte(n, 2), Byte(n, 3)]
  }

  /** The items after the count: labels, scales and the start of the trace block. */
  function Back(g: Geometry): (h: seq<Octet>)
    ensures |h| == 20
  {
    [ X_LABEL, 1, 115,
      Y_LABEL, 1, 86,
      X_SCALE, 4, g.xscale.b0, g.xscale.b1, g.xscale.b2, g.xscale.b3,
      Y_SCALE, 4, g.yscale.b0, g.yscale.b1, g.yscale.b2, g.yscale.b3,
      TRACE_BLOCK, 0 ]
  }

  function Header(g: Geometry, n: nat): (h: seq<Octet>)
    ensures |h| == HEADER_SIZE
  {
    Front(g) + CountItem(n) + Back(g)
  }

  function Record(t: Trace): seq<Octet> {
    t.title + t.data + t.samples
  }

  function Records(ts: seq<Trace>): seq<Octet> {
    if ts == [] then [] else Records(ts[..|ts| - 1]) + Record(ts[|ts| - 1])
  }

  /** The file of a list of traces. */
  function File(g: Geometry, ts: seq<Trace>): seq<Octet> {
    Header(g, |ts|) + Records(ts)
  }

  // ---- Scanning for a tag ----

  /** The head of an item: its tag, the length of its value, and the number of extra length bytes. */
  datatype Head = Head(tag: Octet, length: nat, extra: nat)

  /** The value of n little-endian bytes. */
  function Little(s: seq<Octet>): nat {
    if s == [] then 0
    else
      var low: int := s[0];
      low + 256 * Little(s[1..])
  }

  /** The head at a position; none when the file ends within it. */
  function HeadAt(content: seq<Octet>, at: nat): (h: Option<Head>)
    ensures h.Some? ==> at + 2 + h.value.extra <= |content|
  {
    if at + 2 > |content| then None
    else if content[at + 1] < 128 then Some(Head(content[at], content[at + 1], 0))
    else
      var extra := content[at + 1] as int - 128;
      if at + 2 + extra > |content| then None
      else Some(Head(content[at], Little(content[at + 2..at + 2 + extra]), extra))
  }

  datatype Search = Found(at: nat) | NotFound | Failed

  /** The search for a tag from an offset on; the last reserved bytes of the file are not searched. */
  function FindTag(content: seq<Octet>, tag: Octet, offset: nat, reserved: nat): (r: Search)
    ensures r.Found? ==> r.at + 2 <= |content|
    decreases |content| - offset
  {
    if offset >= |content| - reserved then NotFound
    else
      var h := HeadAt(content, offset);
      if h.None? then Failed
      else if h.value.tag == tag then Found(offset)
      else FindTag(content, tag, offset + 2 + h.value.extra + h.value.length, reserved)
  }

  /** Bytes written at a position of the file, which may grow. */
  function Overwrite(content: seq<Octet>, at: nat, bytes: seq<Octet>): (r: seq<Octet>)
    requires at <= |content|
    ensures |r| == if at + |bytes| <= |content| then |content| else at + |bytes|
  {
    content[..at] + bytes + if at + |bytes| <= |content| then content[at + |bytes|..] else []
  }

  // ---- The writer ----

  /** The open file and what the writer remembers of it. */
  datatype Writer = Writer(content: seq<Octet>, geometry: Geometry, count: nat)

  datatype Outcome = Added | WrongTitle | WrongData | Crashed | NoFile

  /** The file after a search for the count and a rewrite of it where the search ends. */
  function AfterUpdate(content: seq<Octet>, n: nat): Option<seq<Octet>> {
    match FindTag(content, NUMBER_OF_TRACES, 0, 0)
    case Found(at) => Some(Overwrite(content, at, CountItem(n)))
    case NotFound => Some(content + CountItem(n))
    case Failed => None
  }

  /**
   * Adding a trace. The title is checked before anything is written, the data after the title has
   * been written, and the samples not at all; samples of an unknown coding are not written.
   */
  function AddTrace(w: Writer, t: Trace): (Writer, Outcome) {
    var g := w.geometry;
    if |t.title| != g.titleSpace then (w, WrongTitle)
    else if |t.data| != g.dataSpace then (w.(content := w.content + t.title), WrongData)
    else
      var grown := w.content + t.title + t.data + if KnownCoding(g.coding) then t.samples else [];
      match AfterUpdate(grown, w.count + 1)
      case Some(c) => (Writer(c, g, w.count + 1), Added)
      case None => (w.(content := grown, count := w.count + 1), Crashed)
  }

  function NewFile(g: Geometry): Writer {
    Writer(Header(g, 0), g, 0)
  }

  function AddTraces(w: Writer, ts: seq<Trace>): Writer {
    if ts == [] then w else AddTrace(AddTraces(w, ts[..|ts| - 1]), ts[|ts| - 1]).0
  }

  // ---- The reader ----

  datatype Reader = Reader(titleSpace: nat, dataSpace: nat, traces: Option<nat>, samples: Option<nat>, coding: Option<nat>,
                           blockSpace: nat, blockOffset: Option<nat>)

  const FRESH: Reader := Reader(0, 0, None, None, None, 0, None)

  datatype Opened = Ready(reader: Reader, pos: nat) | Broken

  /** One item of the header at the reading position: its effect on the reader, and the position after it. */
  function ReadItem(content: seq<Octet>, pos: nat, h: Head, r: Reader): (o: Opened)
  {
    if h.tag == TRACE_BLOCK then
      if r.traces.None? || r.samples.None? || r.coding.None? then Broken
      else
        var space := r.traces.value * (r.samples.value * ByteSize(r.coding.value) + r.dataSpace + r.titleSpace);
        Ready(r.(blockSpace := space, blockOffset := Some(pos)), pos + space)
    else if h.tag == TITLE_SPACE then
      if pos + 1 > |content| then Broken else Ready(r.(titleSpace := content[pos]), pos + 1)
    else if h.tag == NUMBER_OF_TRACES then
      if pos + 4 > |content| then Broken else Ready(r.(traces := Some(Uint32(content[pos..pos + 4]))), pos + 4)
    else if h.tag == DATA_SPACE then
      if pos + 2 > |content| then Broken else Ready(r.(dataSpace := Uint16(content[pos..pos + 2])), pos + 2)
    else if h.tag == SAMPLES_PER_TRACE then
      if pos + 4 > |content| then Broken else Ready(r.(samples := Some(Uint32(content[pos..pos + 4]))), pos + 4)
    else if h.tag == SAMPLE_CODING then
      if pos + 1 > |content| then Broken else Ready(r.(coding := Some(content[pos])), pos + 1)
    else Ready(r, if pos + h.length <= |content| then pos + h.length else |content|)
  }

  predicate Understood(tag: Octet) {
    tag == TRACE_BLOCK || tag == TITLE_SPACE || tag == NUMBER_OF_TRACES || tag == DATA_SPACE || tag == SAMPLES_PER_TRACE || tag == SAMPLE_CODING
  }

  /**
   * The scan of the header. The reading position and the offset are counted apart: an item whose
   * length is not the one its tag expects makes them differ. An unknown item of tag or length zero
   * ends the scan.
   */
  function Scan(content: seq<Octet>, pos: nat, offset: nat, r: Reader): (o: Opened)
    decreases |content| - offset
  {
    if offset >= |content| - r.blockSpace then Ready(r, pos)
    else
      var h := HeadAt(content, pos);
      if h.None? then Broken
      else
        var value := pos + 2 + h.value.extra;
        if !Understood(h.value.tag) && (h.value.tag == 0 || h.value.length == 0) then Ready(r, value)
        else
          match ReadItem(content, value, h.value, r)
          case Broken => Broken
          case Ready(s, p) => Scan(content, p, offset + 2 + h.value.extra + h.value.length, s)
  }

  /** At most n bytes from a position: a read at the end of the file is short. */
  function Slice(content: seq<Octet>, at: nat, n: nat): seq<Octet> {
    if at >= |content| then [] else if at + n <= |content| then content[at..at + n] else content[at..]
  }

  /** The trace of an index, once the header has been read. */
  function GetTrace(content: seq<Octet>, r: Reader, i: nat): Option<Trace> {
    if r.traces.None? || r.samples.None? || r.coding.None? || r.blockOffset.None? || !KnownCoding(r.coding.value) then None
    else
      var sampleSpace := r.samples.value * ByteSize(r.coding.value);
      var at := r.blockOffset.value + i * (sampleSpace + r.dataSpace + r.titleSpace);
      Some(Trace(Slice(content, at, r.titleSpace), Slice(content, at + r.titleSpace, r.dataSpace),
                 Slice(content, at + r.titleSpace + r.dataSpace, sampleSpace)))
  }
}
