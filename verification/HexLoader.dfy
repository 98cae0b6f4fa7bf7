/**
 * The printer-class bootloader: Intel HEX text arrives one character at a time, and its data
 * records are programmed into flash through the page buffer.
 */
module HexLoader {
  import opened Arith
  import opened Memory
  import opened PageProgramming

  datatype Phase = WaitLine | ByteCount | AddressHigh | AddressLow | RecordType | ReadData | Checksum

  const TYPE_DATA: Octet := 0
  const TYPE_END_OF_FILE: Octet := 1
  const TYPE_EXTENDED_SEGMENT: Octet := 2
  const TYPE_EXTENDED_LINEAR: Octet := 4

  /** The parser, the two flags of the bootloader, and the flash it programs. */
  datatype Loader = Loader(
    phase: Phase, prevData: Octet, data: Octet, readMsb: bool, recordType: Octet, dataRem: Octet, checksum: Octet,
    pageStart: nat, currBase: nat, currAddress: nat, pageDirty: bool, running: bool, flash: Flash)
  {
    predicate Valid() {
      flash.Valid()
    }
  }

  /** Upper-case hexadecimal digits only; -1 for every other character. */
  function HexToDecimal(c: char): (d: int)
    ensures -1 <= d < 16
    ensures d >= 0 ==> HexDigit(d) == c
  {
    if 'A' <= c <= 'F' then 10 + (c as int - 'A' as int)
    else if '0' <= c <= '9' then c as int - '0' as int
    else -1
  }

  function HexDigit(d: int): char
    requires 0 <= d < 16
  {
    if d < 10 then ('0' as int + d) as char else ('A' as int + (d - 10)) as char
  }

  lemma {:induction false} HexDigitRead(d: int)
    requires 0 <= d < 16
    ensures HexToDecimal(HexDigit(d)) == d && HexDigit(d) != ':'
  {
  }

  // ---- One character ----

  /** Writes the buffered page out if the current address has left it. */
  function FlushPageIfRequired(l: Loader): (r: Loader)
    requires l.Valid()
    ensures r.Valid()
    ensures r == l.(flash := r.flash, pageStart := r.pageStart, pageDirty := r.pageDirty)
  {
    if !l.pageDirty then l
    else
      var newPage := PageStart(l.currAddress, l.flash.page);
      if l.pageStart == newPage then l
      else l.(flash := l.flash.Write(l.pageStart), pageStart := newPage, pageDirty := false)
  }

  /** A word of a data record: erase on the first word of a page, fill, step, flush. */
  function ProgramWord(l: Loader): (r: Loader)
    requires l.Valid()
    ensures r.Valid()
    ensures r == l.(flash := r.flash, pageStart := r.pageStart, pageDirty := r.pageDirty, currAddress := r.currAddress)
  {
    var ready := if l.pageDirty then l else l.(flash := l.flash.Erase(l.pageStart), pageDirty := true);
    FlushPageIfRequired(ready.(
      flash := ready.flash.Fill(l.currAddress, l.prevData, l.data), currAddress := l.currAddress + 2))
  }

  /** A data byte of a record of any type. */
  function TakeData(l: Loader): (r: Loader)
    requires l.Valid()
    ensures r.Valid()
    ensures r.readMsb == l.readMsb && r.running == l.running && r.checksum == l.checksum && r.recordType == l.recordType
  {
    var rem := (l.dataRem - 1) % 256;
    var k := l.(dataRem := rem);
    if l.currAddress >= l.flash.boot then k.(phase := WaitLine, pageDirty := false)
    else if rem % 2 == 1 then k.(prevData := l.data)
    else
      var word := l.data * 256 + l.prevData;
      var done :=
        if l.recordType == TYPE_DATA then ProgramWord(k)
        else if l.recordType == TYPE_EXTENDED_SEGMENT then k.(currBase := word * 16)
        else if l.recordType == TYPE_EXTENDED_LINEAR then k.(currBase := word * 65536)
        else k;
      if rem == 0 then done.(phase := Checksum) else done
  }

  /** A decoded byte, in every phase but WaitLine. */
  function TakeByte(l0: Loader): (r: Loader)
    requires l0.Valid()
    ensures r.Valid()
  {
    var l := if l0.phase == Checksum then l0 else l0.(checksum := (l0.checksum + l0.data) % 256);
    match l.phase
    case ByteCount => l.(dataRem := l.data, phase := AddressHigh)
    case AddressHigh => l.(currAddress := l.currAddress + l.data * 256, phase := AddressLow)
    case AddressLow => l.(currAddress := l.currAddress + l.data, phase := RecordType)
    case RecordType => l.(recordType := l.data, phase := if l.dataRem != 0 then ReadData else Checksum)
    case ReadData => TakeData(l)
    case Checksum =>
      if l.data != (256 - l.checksum) % 256 then l
      else
        var f := FlushPageIfRequired(l);
        if l.recordType == TYPE_END_OF_FILE then f.(running := false) else f
    case WaitLine => l
  }

  /** A character that is not part of a record, or the colon that starts one. */
  function StartLine(l: Loader, c: char): (r: Loader)
    requires l.Valid()
    ensures r.Valid()
  {
    l.(checksum := 0, currAddress := l.currBase, readMsb := false, phase := if c == ':' then ByteCount else l.phase)
  }

  function Step(l: Loader, c: char): (r: Loader)
    requires l.Valid()
    ensures r.Valid()
  {
    if l.phase == WaitLine || c == ':' then StartLine(l, c)
    else
      var d := HexToDecimal(c);
      if d < 0 then l
      else
        var k := l.(data := l.data * 16 % 256 + d, readMsb := !l.readMsb);
        if k.readMsb then k else TakeByte(k)
  }

  /** The state after a text. */
  function Run(l: Loader, text: string): (r: Loader)
    requires l.Valid()
    ensures r.Valid()
  {
    if text == [] then l else Step(Run(l, text[..|text| - 1]), text[|text| - 1])
  }

  lemma {:induction false} RunConcat(l: Loader, a: string, b: string)
    requires l.Valid()
    ensures Run(l, a + b) == Run(Run(l, a), b)
  {
    if b == [] {
      assert a + b == a;
    } else {
      var n := |b| - 1;
      RunConcat(l, a, b[..n]);
      assert (a + b)[..|a + b| - 1] == a + b[..n];
    }
  }

  // ---- From characters to bytes ----

  /** The values of the hexadecimal digits of a text, other characters dropped. */
  function Digits(text: string): (ds: seq<int>)
    ensures forall i | 0 <= i < |ds| :: 0 <= ds[i] < 16
  {
    if text == [] then []
    else
      var c := text[|text| - 1];
      var ds := Digits(text[..|text| - 1]);
      if HexToDecimal(c) >= 0 then ds + [HexToDecimal(c)] else ds
  }

  /** The bytes formed by pairs of digits. */
  function BytesOf(ds: seq<int>): (bs: seq<Octet>)
    requires forall i | 0 <= i < |ds| :: 0 <= ds[i] < 16
    ensures |bs| == |ds| / 2
  {
    seq(|ds| / 2, i requires 0 <= i < |ds| / 2 => 16 * ds[2 * i] + ds[2 * i + 1])
  }

  /** The effect of one decoded byte between its two digits' characters. */
  function ByteStep(l: Loader, b: Octet): (r: Loader)
    requires l.Valid()
    ensures r.Valid()
  {
    TakeByte(l.(data := b, readMsb := false))
  }

  function RunBytes(l: Loader, bs: seq<Octet>): (r: Loader)
    requires l.Valid()
    ensures r.Valid()
  {
    if bs == [] then l else ByteStep(RunBytes(l, bs[..|bs| - 1]), bs[|bs| - 1])
  }

  lemma {:induction false} RunBytesConcat(l: Loader, a: seq<Octet>, b: seq<Octet>)
    requires l.Valid()
    ensures RunBytes(l, a + b) == RunBytes(RunBytes(l, a), b)
  {
    if b == [] {
      assert a + b == a;
    } else {
      var n := |b| - 1;
      RunBytesConcat(l, a, b[..n]);
      assert (a + b)[..|a + b| - 1] == a + b[..n];
    }
  }

  /** No byte of the sequence sends the parser back to waiting for a line. */
  ghost predicate StaysInRecord(l: Loader, bs: seq<Octet>)
    requires l.Valid()
  {
    forall n | 0 <= n <= |bs| :: RunBytes(l, bs[..n]).phase != WaitLine
  }

  /** The state in the middle of a byte. */
  function HalfByte(l: Loader, d: int): Loader
    requires l.Valid() && 0 <= d < 16
  {
    l.(data := l.data * 16 % 256 + d, readMsb := true)
  }

  /** A character inside a record: dropped, the first half of a byte, or the second. */
  lemma {:induction false} CharacterStep(l: Loader, h: int, c: char)
    requires l.Valid() && l.phase != WaitLine && !l.readMsb && 0 <= h < 16 && c != ':'
    ensures HexToDecimal(c) < 0 ==> Step(l, c) == l && Step(HalfByte(l, h), c) == HalfByte(l, h)
    ensures HexToDecimal(c) >= 0 ==>
      Step(l, c) == HalfByte(l, HexToDecimal(c)) && Step(HalfByte(l, h), c) == ByteStep(l, 16 * h + HexToDecimal(c))
  {
    hide TakeByte;
    if HexToDecimal(c) >= 0 {
      NibblesJoin(l.data, h, HexToDecimal(c));
    }
  }

  lemma {:induction false} NibblesJoin(data: Octet, h: int, d: int)
    requires 0 <= h < 16 && 0 <= d < 16
    ensures (data * 16 % 256 + h) * 16 % 256 + d == 16 * h + d
  {
  }

  lemma {:induction false} ByteStepEven(l: Loader, b: Octet)
    requires l.Valid()
    ensures !ByteStep(l, b).readMsb
  {
    hide TakeData, FlushPageIfRequired;
  }

  lemma {:induction false} BytesOfStep(ds: seq<int>, d: int)
    requires 0 <= d < 16 && forall i | 0 <= i < |ds| :: 0 <= ds[i] < 16
    ensures BytesOf(ds + [d]) == if |ds| % 2 == 0 then BytesOf(ds) else BytesOf(ds) + [16 * ds[|ds| - 1] + d]
  {
  }

  lemma {:induction false} StaysInPrefix(l: Loader, bs: seq<Octet>, cs: seq<Octet>)
    requires l.Valid() && StaysInRecord(l, cs) && bs <= cs
    ensures StaysInRecord(l, bs) && RunBytes(l, bs).phase != WaitLine
  {
    hide RunBytes;
    forall m | 0 <= m <= |bs|
      ensures RunBytes(l, bs[..m]).phase != WaitLine
    {
      assert bs[..m] == cs[..m];
    }
    assert bs[..|bs|] == bs;
  }

  /** Inside a record, only the digits of the text matter. */
  lemma {:induction false} RunDecodes(l: Loader, text: string)
    requires l.Valid() && !l.readMsb && ':' !in text
    requires StaysInRecord(l, BytesOf(Digits(text)))
    ensures var ds := Digits(text);
      var k := RunBytes(l, BytesOf(ds));
      !k.readMsb && Run(l, text) == if |ds| % 2 == 0 then k else HalfByte(k, ds[|ds| - 1])
  {
    hide Step, ByteStep, HalfByte, BytesOf, StaysInRecord, HexToDecimal;
    if text == [] {
      assert BytesOf([]) == [];
    } else {
      var t, c := text[..|text| - 1], text[|text| - 1];
      var ds := Digits(t);
      var d := HexToDecimal(c);
      if d >= 0 {
        BytesOfStep(ds, d);
      }
      StaysInPrefix(l, BytesOf(ds), BytesOf(Digits(text)));
      RunDecodes(l, t);
      var k := RunBytes(l, BytesOf(ds));
      var h := if |ds| % 2 == 1 then ds[|ds| - 1] else 0;
      CharacterStep(k, h, c);
      if d >= 0 {
        ByteStepEven(k, 16 * h + d);
      }
    }
  }

  // ---- The bootloader object ----

  class HexBootloader {
    var phase: Phase
    var prevData: Octet
    var data: Octet
    var readMsb: bool
    var recordType: Octet
    var dataRem: Octet
    var checksum: Octet
    var pageStart: nat
    var currBase: nat
    var currAddress: nat
    var pageDirty: bool
    var running: bool
    var flash: Flash

    function Snapshot(): Loader
      reads this
    {
      Loader(phase, prevData, data, readMsb, recordType, dataRem, checksum, pageStart, currBase, currAddress,
        pageDirty, running, flash)
    }

    constructor (f: Flash)
      requires f.Valid()
      ensures Snapshot() == Loader(WaitLine, 0, 0, false, 0, 0, 0, 0, 0, 0, false, true, f)
    {
      phase, prevData, data, readMsb := WaitLine, 0, 0, false;
      recordType, dataRem, checksum := 0, 0, 0;
      pageStart, currBase, currAddress := 0, 0, 0;
      pageDirty, running, flash := false, true, f;
    }

    method FlushPage()
      requires flash.Valid()
      modifies this
      ensures Snapshot() == FlushPageIfRequired(old(Snapshot()))
    {
      if !pageDirty {
        return;
      }
      var newPageStart := PageStart(currAddress, flash.page);
      if pageStart != newPageStart {
        flash := flash.Write(pageStart);
        pageStart := newPageStart;
        pageDirty := false;
      }
    }

    /** A word of a data record. */
    method ProgramDataWord()
      requires flash.Valid()
      modifies this
      ensures Snapshot() == ProgramWord(old(Snapshot()))
    {
      hide FlushPageIfRequired;
      if !pageDirty {
        flash := flash.Erase(pageStart);
        pageDirty := true;
      }
      flash := flash.Fill(currAddress, prevData, data);
      currAddress := currAddress + 2;
      FlushPage();
    }

    /** The READ_DATA case of the switch. */
    method ReadDataByte()
      requires flash.Valid()
      modifies this
      ensures Snapshot() == TakeData(old(Snapshot()))
    {
      hide ProgramWord;
      dataRem := (dataRem - 1) % 256;
      if currAddress >= flash.boot {
        phase := WaitLine;
        pageDirty := false;
      } else if dataRem % 2 == 1 {
        prevData := data;
      } else {
        var newDataWord := data * 256 + prevData;
        if recordType == TYPE_DATA {
          ProgramDataWord();
        } else if recordType == TYPE_EXTENDED_SEGMENT {
          currBase := newDataWord * 16;
        } else if recordType == TYPE_EXTENDED_LINEAR {
          currBase := newDataWord * 65536;
        }
        if dataRem == 0 {
          phase := Checksum;
        }
      }
    }

    /** The switch on the parser state, once a whole byte has been read. */
    method DispatchByte()
      requires flash.Valid()
      modifies this
      ensures Snapshot() == TakeByte(old(Snapshot()))
    {
      hide FlushPageIfRequired, TakeData;
      if phase != Checksum {
        checksum := (checksum + data) % 256;
      }
      match phase
      case ByteCount =>
        dataRem := data;
        phase := AddressHigh;
      case AddressHigh =>
        currAddress := currAddress + data * 256;
        phase := AddressLow;
      case AddressLow =>
        currAddress := currAddress + data;
        phase := RecordType;
      case RecordType =>
        recordType := data;
        phase := if dataRem != 0 then ReadData else Checksum;
      case ReadData =>
        ReadDataByte();
      case Checksum =>
        if data == (256 - checksum) % 256 {
          FlushPage();
          if recordType == TYPE_END_OF_FILE {
            running := false;
          }
        }
      case WaitLine =>
    }

    /** Parses one character. */
    method ParseIntelHexByte(c: char)
      requires flash.Valid()
      modifies this
      ensures Snapshot() == Step(old(Snapshot()), c)
    {
      hide TakeByte, HexToDecimal;
      if phase == WaitLine || c == ':' {
        checksum := 0;
        currAddress := currBase;
        readMsb := false;
        if c == ':' {
          phase := ByteCount;
        }
        return;
      }
      var d := HexToDecimal(c);
      if d < 0 {
        return;
      }
      data := data * 16 % 256 + d;
      readMsb := !readMsb;
      if !readMsb {
        DispatchByte();
      }
    }

    /** The loop that feeds the characters of a received packet to the parser. */
    method Receive(text: string)
      requires flash.Valid()
      modifies this
      ensures Snapshot() == Run(old(Snapshot()), text)
    {
      hide Step;
      for i := 0 to |text|
        invariant Snapshot().Valid() && Snapshot() == Run(old(Snapshot()), text[..i])
      {
        assert text[..i + 1][..i] == text[..i];
        ParseIntelHexByte(text[i]);
      }
      assert text[..|text|] == text;
    }
  }
}
