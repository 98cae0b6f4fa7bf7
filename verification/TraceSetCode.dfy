/** The trace set as an object: a file with a moving position, and the fields of the header it wrote or read. */
module TraceSetCode {
  import opened Arith
  import opened Memory
  import opened Options
  import opened TraceFormat

  function Power256(n: nat): (p: nat)
    ensures p > 0
  {
    if n == 0 then 1 else 256 * Power256(n - 1)
  }

  /** One more byte of a little-endian number adds at its weight. */
  lemma {:induction false} LittleGrows(s: seq<Octet>, b: Octet)
    ensures Little(s + [b]) == Little(s) + b * Power256(|s|)
  {
    if s == [] {
      assert Little([b]) == b;
    } else {
      var low: int, p := s[0], Power256(|s| - 1);
      assert (s + [b])[1..] == s[1..] + [b];
      LittleGrows(s[1..], b);
      assert b * Power256(|s|) == 256 * (b * p);
    }
  }

  class TraceSet {
    var isOpen: bool
    var content: seq<Octet>
    var pos: nat
    var titleSpace: nat
    var dataSpace: nat
    var traces: Option<nat>
    var samples: Option<nat>
    var coding: Option<nat>
    var blockSpace: nat
    var blockOffset: Option<nat>

    ghost function State(): Reader
      reads this
    {
      Reader(titleSpace, dataSpace, traces, samples, coding, blockSpace, blockOffset)
    }

    /** The object writes this file: it has written a header, and it never counts the trace block as reserved. */
    ghost predicate Writes(w: Writer)
      reads this
    {
      && isOpen && content == w.content && pos == |content| && blockSpace == 0
      && titleSpace == w.geometry.titleSpace && dataSpace == w.geometry.dataSpace
      && samples == Some(w.geometry.samples) && coding == Some(w.geometry.coding) && traces == Some(w.count)
    }

    constructor ()
      ensures !isOpen && content == [] && pos == 0 && State() == FRESH
    {
      isOpen, content, pos, titleSpace, dataSpace := false, [], 0, 0, 0;
      traces, samples, coding, blockSpace, blockOffset := None, None, None, 0, None;
    }

    // ---- The file ----

    method Read(n: nat) returns (bytes: seq<Octet>)
      modifies `pos
      ensures bytes == Slice(content, old(pos), n) && pos == old(pos) + |bytes|
    {
      if pos >= |content| {
        bytes := [];
      } else if pos + n <= |content| {
        bytes := content[pos..pos + n];
      } else {
        bytes := content[pos..];
      }
      pos := pos + |bytes|;
    }

    method Write(bytes: seq<Octet>)
      requires pos <= |content|
      modifies `content, `pos
      ensures content == Overwrite(old(content), old(pos), bytes) && pos == old(pos) + |bytes|
    {
      var end := if pos + |bytes| <= |content| then content[pos + |bytes|..] else [];
      content := content[..pos] + bytes + end;
      pos := pos + |bytes|;
    }

    /** Writing at the end of the file appends. */
    method Append(bytes: seq<Octet>)
      requires pos == |content|
      modifies `content, `pos
      ensures content == old(content) + bytes && pos == |content|
    {
      Write(bytes);
    }

    // ---- Writing ----

    method New(g: Geometry)
      modifies this
      ensures Writes(NewFile(g)) && blockOffset == Some(HEADER_SIZE)
    {
      hide Front, Back, CountItem;
      isOpen, content, pos := true, [], 0;
      WriteFront(g);
      WriteNumberOfTraces(0);
      blockSpace := traces.value * g.TraceSpace();
      WriteBack(g);
      assert content == Header(g, 0);
      blockOffset := Some(pos);
    }

    method WriteFront(g: Geometry)
      requires pos == |content|
      modifies `content, `pos, `titleSpace, `dataSpace, `coding, `samples
      ensures content == old(content) + Front(g) && pos == |content|
      ensures titleSpace == g.titleSpace && coding == Some(g.coding) && dataSpace == g.dataSpace && samples == Some(g.samples)
    {
      hide Byte;
      var a := [TITLE_SPACE, 1, Byte(g.titleSpace, 0)];
      Append(a);
      titleSpace := g.titleSpace;
      var b := [SAMPLE_CODING, 1, Byte(g.coding, 0)];
      Append(b);
      coding := Some(g.coding);
      var d := [DATA_SPACE, 2, Byte(g.dataSpace, 0), Byte(g.dataSpace, 1)];
      Append(d);
      dataSpace := g.dataSpace;
      var e := [SAMPLES_PER_TRACE, 4, Byte(g.samples, 0), Byte(g.samples, 1), Byte(g.samples, 2), Byte(g.samples, 3)];
      Append(e);
      samples := Some(g.samples);
      assert Front(g) == a + b + d + e;
    }

    method WriteNumberOfTraces(n: nat)
      requires pos == |content|
      modifies `content, `pos, `traces
      ensures content == old(content) + CountItem(n) && pos == |content| && traces == Some(n)
    {
      Append([NUMBER_OF_TRACES, 4, Byte(n, 0), Byte(n, 1), Byte(n, 2), Byte(n, 3)]);
      traces := Some(n);
    }

    method WriteBack(g: Geometry)
      requires pos == |content|
      modifies `content, `pos
      ensures content == old(content) + Back(g) && pos == |content|
    {
      var labels := [X_LABEL, 1, 115, Y_LABEL, 1, 86];
      Append(labels);
      var x := [X_SCALE, 4, g.xscale.b0, g.xscale.b1, g.xscale.b2, g.xscale.b3];
      Append(x);
      var y := [Y_SCALE, 4, g.yscale.b0, g.yscale.b1, g.yscale.b2, g.yscale.b3];
      Append(y);
      Append([TRACE_BLOCK, 0]);
      assert Back(g) == labels + x + y + [TRACE_BLOCK, 0];
    }

    /** The head of an item at the file position; nothing when the file ends within it. */
    method ReadHead() returns (h: Option<Head>)
      requires pos <= |content|
      modifies `pos
      ensures h == HeadAt(content, old(pos))
      ensures h.Some? ==> pos == old(pos) + 2 + h.value.extra
    {
      hide Little;
      ghost var at := pos;
      var tag := Read(1);
      var len := Read(1);
      if tag == [] || len == [] {
        return None;
      }
      var length: nat, extra: nat := len[0], 0;
      if length >= 128 {
        extra := length - 128;
        length := 0;
        var i: nat := 0;
        LittleEmpty();
        assert content[at + 2..at + 2] == [];
        while i < extra
          invariant i <= extra && pos == at + 2 + i <= |content| && length == Little(content[at + 2..at + 2 + i])
        {
          var b := Read(1);
          if b == [] {
            return None;
          }
          LittleGrows(content[at + 2..at + 2 + i], b[0]);
          SliceGrows(content, at + 2, at + 2 + i);
          length := length + b[0] * Power256(i);
          i := i + 1;
        }
      }
      h := Some(Head(tag[0], length, extra));
    }

    static lemma {:induction false} SliceGrows(s: seq<Octet>, a: nat, b: nat)
      requires a <= b < |s|
      ensures s[a..b] + [s[b]] == s[a..b + 1]
    {
    }

    static lemma {:induction false} LittleEmpty()
      ensures Little([]) == 0
    {
    }

    method Find(tag: Octet) returns (r: Search)
      modifies `pos
      ensures r == if isOpen then FindTag(content, tag, 0, blockSpace) else NotFound
      ensures r.Found? ==> pos == r.at
      ensures isOpen && r.NotFound? && blockSpace == 0 ==> pos == |content|
    {
      hide HeadAt;
      if !isOpen {
        return NotFound;
      }
      pos := 0;
      var offset: nat := 0;
      while offset < |content| - blockSpace
        invariant pos == if offset <= |content| then offset else |content|
        invariant FindTag(content, tag, offset, blockSpace) == FindTag(content, tag, 0, blockSpace)
        decreases |content| - offset
      {
        var h := ReadHead();
        if h.None? {
          return Failed;
        }
        if h.value.tag == tag {
          pos := offset;
          return Found(offset);
        }
        var skipped := Read(h.value.length);
        offset := offset + 2 + h.value.extra + h.value.length;
      }
      r := NotFound;
    }

    method UpdateNumberOfTraces(n: nat) returns (ok: bool)
      requires isOpen && blockSpace == 0
      modifies `content, `pos, `traces
      ensures ok == AfterUpdate(old(content), n).Some?
      ensures ok ==> content == AfterUpdate(old(content), n).value && traces == Some(n)
      ensures !ok ==> content == old(content) && traces == old(traces)
    {
      hide FindTag;
      var r := Find(NUMBER_OF_TRACES);
      if r.Failed? {
        return false;
      }
      Write(CountItem(n));
      traces := Some(n);
      ok := true;
    }

    method AddTrace(t: Trace, ghost w: Writer) returns (o: Outcome)
      requires isOpen ==> Writes(w)
      modifies `content, `pos, `traces
      ensures !isOpen ==> o == NoFile && content == old(content) && pos == old(pos) && traces == old(traces)
      ensures isOpen ==> o == TraceFormat.AddTrace(w, t).1
      ensures isOpen && o != Crashed ==> Writes(TraceFormat.AddTrace(w, t).0)
      ensures isOpen && o == Crashed ==> content == TraceFormat.AddTrace(w, t).0.content
    {
      hide AfterUpdate;
      if !isOpen {
        return NoFile;
      }
      pos := |content|;
      if |t.title| != titleSpace {
        return WrongTitle;
      }
      Append(t.title);
      if |t.data| != dataSpace {
        return WrongData;
      }
      Append(t.data);
      if KnownCoding(coding.value) {
        Append(t.samples);
      } else {
        assert content == content + [];
      }
      traces := Some(traces.value + 1);
      var ok := UpdateNumberOfTraces(traces.value);
      if !ok {
        return Crashed;
      }
      pos := |content|;
      o := Added;
    }

    // ---- Reading ----

    /** The start of the trace block: the space of the records follows from the items before it. */
    method TakeBlock(h: Head) returns (ok: bool)
      requires h.tag == TRACE_BLOCK
      modifies `pos, `blockSpace, `blockOffset
      ensures var o := ReadItem(content, old(pos), h, old(State())); ok == o.Ready? && (ok ==> State() == o.reader && pos == o.pos)
    {
      if traces.None? || samples.None? || coding.None? {
        return false;
      }
      var sampleSpace := samples.value * ByteSize(coding.value);
      blockSpace := traces.value * (sampleSpace + dataSpace + titleSpace);
      blockOffset := Some(pos);
      pos := pos + blockSpace;
      ok := true;
    }

    /** The value of an item, by its tag. */
    method TakeItem(h: Head) returns (ok: bool)
      requires pos <= |content|
      modifies `pos, `titleSpace, `dataSpace, `traces, `samples, `coding, `blockSpace, `blockOffset
      ensures var o := ReadItem(content, old(pos), h, old(State())); ok == o.Ready? && (ok ==> State() == o.reader && pos == o.pos)
    {
      hide Uint16, Uint32, ByteSize;
      if h.tag == TRACE_BLOCK {
        ok := TakeBlock(h);
        return;
      } else if h.tag == TITLE_SPACE {
        var b := Read(1);
        if |b| < 1 {
          return false;
        }
        titleSpace := b[0];
      } else if h.tag == NUMBER_OF_TRACES {
        var b := Read(4);
        if |b| < 4 {
          return false;
        }
        traces := Some(Uint32(b));
      } else if h.tag == DATA_SPACE {
        var b := Read(2);
        if |b| < 2 {
          return false;
        }
        dataSpace := Uint16(b);
      } else if h.tag == SAMPLES_PER_TRACE {
        var b := Read(4);
        if |b| < 4 {
          return false;
        }
        samples := Some(Uint32(b));
      } else if h.tag == SAMPLE_CODING {
        var b := Read(1);
        if |b| < 1 {
          return false;
        }
        coding := Some(b[0]);
      } else {
        var skipped := Read(h.length);
      }
      ok := true;
    }

    /** Opening a file for reading: the scan of its header. */
    method Open(file: seq<Octet>) returns (o: Opened)
      requires State() == FRESH
      modifies this
      ensures o == Scan(file, 0, 0, FRESH) && content == file
      ensures o.Ready? ==> State() == o.reader && pos == o.pos
    {
      hide HeadAt, ReadItem;
      isOpen, content, pos := true, file, 0;
      var offset: nat := 0;
      while offset < |content| - blockSpace
        invariant content == file && Scan(file, pos, offset, State()) == Scan(file, 0, 0, FRESH)
        decreases |content| - offset
      {
        if pos > |content| {
          HeadBeyond(content, pos);
          return Broken;
        }
        var h := ReadHead();
        if h.None? {
          return Broken;
        }
        if !Understood(h.value.tag) && (h.value.tag == 0 || h.value.length == 0) {
          break;
        }
        var ok := TakeItem(h.value);
        if !ok {
          return Broken;
        }
        offset := offset + 2 + h.value.extra + h.value.length;
      }
      o := Ready(Reader(titleSpace, dataSpace, traces, samples, coding, blockSpace, blockOffset), pos);
    }

    static lemma {:induction false} HeadBeyond(content: seq<Octet>, pos: nat)
      requires pos > |content|
      ensures HeadAt(content, pos) == None
    {
    }

    method GetTrace(i: nat) returns (t: Option<Trace>)
      modifies `pos
      ensures t == if isOpen then TraceFormat.GetTrace(content, State(), i) else None
    {
      if !isOpen {
        return None;
      }
      if traces.None? || samples.None? || coding.None? || blockOffset.None? || !KnownCoding(coding.value) {
        return None;
      }
      var sampleSpace := samples.value * ByteSize(coding.value);
      pos := blockOffset.value + i * (sampleSpace + dataSpace + titleSpace);
      var title := Read(titleSpace);
      var data := Read(dataSpace);
      var sampled := Read(sampleSpace);
      t := Some(Trace(title, data, sampled));
    }
  }
}
