/**
 * What stops the HEX loader, over every stream of characters: only a complete end-of-file record
 * whose bytes add up to zero.
 */
module HexExit {
  import opened Memory
  import opened HexLoader
  import opened HexImage

  /** The digits since the last colon. */
  function LineDigits(text: string): (ds: seq<int>)
    ensures forall i | 0 <= i < |ds| :: 0 <= ds[i] < 16
  {
    if text == [] then []
    else
      var c := text[|text| - 1];
      if c == ':' then []
      else
        var ds := LineDigits(text[..|text| - 1]);
        if HexToDecimal(c) >= 0 then ds + [HexToDecimal(c)] else ds
  }

  /** The bytes decoded since the last colon. */
  function LineBytes(text: string): seq<Octet> {
    BytesOf(LineDigits(text))
  }

  /** The length of the record body that these bytes announce: header and data. */
  function BodyLength(bs: seq<Octet>): nat
    requires |bs| >= 1
  {
    bs[0] as int + 4
  }

  /** The phase and the fields of the record are those of the bytes decoded since the colon. */
  ghost predicate Tracks(l: Loader, bs: seq<Octet>) {
    match l.phase
    case WaitLine => true
    case ByteCount => bs == [] && l.checksum == 0
    case AddressHigh => |bs| == 1 && l.dataRem == bs[0] && l.checksum == Sum(bs) % 256
    case AddressLow => |bs| == 2 && l.dataRem == bs[0] && l.checksum == Sum(bs) % 256
    case RecordType => |bs| == 3 && l.dataRem == bs[0] && l.checksum == Sum(bs) % 256
    case ReadData =>
      && 4 <= |bs| < BodyLength(bs) && l.recordType == bs[3]
      && l.dataRem == BodyLength(bs) - |bs| && l.checksum == Sum(bs) % 256
    case Checksum =>
      && 4 <= |bs| && BodyLength(bs) <= |bs| && l.recordType == bs[3]
      && l.checksum == Sum(bs[..BodyLength(bs)]) % 256
  }

  /** Between characters, the parser is at a byte boundary or holds the first digit of a byte. */
  ghost predicate TracksText(l: Loader, text: string) {
    var ds := LineDigits(text);
    && l.Valid()
    && (':' !in text ==> l.phase == WaitLine)
    && Tracks(l, LineBytes(text))
    && (l.phase != WaitLine ==> (l.readMsb <==> |ds| % 2 == 1) && (|ds| % 2 == 1 ==> l.data % 16 == ds[|ds| - 1]))
  }

  /** A decoded byte that is a right checksum of the body so far, of an end-of-file record. */
  ghost predicate EndsFile(bs: seq<Octet>) {
    && |bs| >= 5 && BodyLength(bs) < |bs| && bs[3] == TYPE_END_OF_FILE
    && (Sum(bs[..BodyLength(bs)]) + bs[|bs| - 1]) % 256 == 0
  }

  lemma {:induction false} SumMore(bs: seq<Octet>, b: Octet)
    ensures Sum(bs + [b]) == Sum(bs) + b && (Sum(bs) % 256 + b) % 256 == Sum(bs + [b]) % 256
  {
    assert (bs + [b])[..|bs|] == bs;
    SumModulo(Sum(bs), b);
  }

  lemma {:induction false} HeaderTracks(l: Loader, bs: seq<Octet>)
    requires l.Valid() && Tracks(l, bs) && l.phase in {ByteCount, AddressHigh, AddressLow, RecordType}
    ensures Tracks(TakeByte(l), bs + [l.data])
    ensures TakeByte(l).running == l.running && !EndsFile(bs + [l.data])
  {
    assert Sum([]) == 0;
    hide Sum, FlushPageIfRequired, TakeData;
    SumMore(bs, l.data);
    var cs := bs + [l.data];
    if |cs| == 4 {
      assert cs[..4] == cs;
    }
  }

  lemma {:induction false} TakeDataFields(l: Loader)
    requires l.Valid() && l.phase == ReadData && l.dataRem >= 1
    ensures var r := TakeData(l);
      r.phase == WaitLine || (r.dataRem == l.dataRem - 1 && r.phase == if r.dataRem == 0 then Checksum else ReadData)
  {
    hide ProgramWord;
  }

  lemma {:induction false} DataTracks(l: Loader, bs: seq<Octet>)
    requires l.Valid() && Tracks(l, bs) && l.phase == ReadData
    ensures Tracks(TakeByte(l), bs + [l.data])
    ensures TakeByte(l).running == l.running && !EndsFile(bs + [l.data])
  {
    hide Sum, FlushPageIfRequired, TakeData, Flash.Valid;
    SumMore(bs, l.data);
    TakeDataFields(l.(checksum := (l.checksum + l.data) % 256));
    var cs := bs + [l.data];
    if |cs| == BodyLength(cs) {
      assert cs[..BodyLength(cs)] == cs;
    }
  }

  lemma {:induction false} ChecksumTracks(l: Loader, bs: seq<Octet>)
    requires l.Valid() && Tracks(l, bs) && l.phase == Checksum
    ensures Tracks(TakeByte(l), bs + [l.data])
    ensures l.running ==> (!TakeByte(l).running <==> EndsFile(bs + [l.data]))
  {
    hide Sum, FlushPageIfRequired;
    var cs := bs + [l.data];
    assert cs[..BodyLength(cs)] == bs[..BodyLength(bs)];
    Complement(Sum(bs[..BodyLength(bs)]), l.data);
  }

  /** The checksum byte is the one that makes the sum zero. */
  lemma {:induction false} Complement(sum: nat, b: Octet)
    ensures (sum + b) % 256 == 0 <==> b == (256 - sum % 256) % 256
  {
  }

  lemma {:induction false} ByteTracks(l: Loader, b: Octet, bs: seq<Octet>)
    requires l.Valid() && l.phase != WaitLine && Tracks(l, bs)
    ensures Tracks(ByteStep(l, b), bs + [b])
    ensures l.running ==> (!ByteStep(l, b).running <==> EndsFile(bs + [b]))
  {
    hide TakeByte, EndsFile;
    var k := l.(data := b, readMsb := false);
    if l.phase == Checksum {
      ChecksumTracks(k, bs);
    } else if l.phase == ReadData {
      DataTracks(k, bs);
    } else {
      HeaderTracks(k, bs);
    }
  }

  lemma {:induction false} DigitStep(l: Loader, c: char)
    requires l.Valid() && l.phase != WaitLine && c != ':'
    ensures var d := HexToDecimal(c);
      Step(l, c) == if d < 0 then l else if l.readMsb then ByteStep(l, l.data * 16 % 256 + d) else HalfByte(l, d)
  {
    hide TakeByte;
  }

  /** The character completes a byte of the current record. */
  ghost predicate CompletesByte(l: Loader, text: string, c: char) {
    l.phase != WaitLine && HexToDecimal(c) >= 0 && |LineDigits(text)| % 2 == 1
  }

  /** One character keeps the parser in step with the text, and stops it only at an end of file. */
  lemma {:induction false} StepTracks(l: Loader, text: string, c: char)
    requires TracksText(l, text)
    ensures TracksText(Step(l, c), text + [c])
    ensures l.running ==> (!Step(l, c).running <==> CompletesByte(l, text, c) && EndsFile(LineBytes(text + [c])))
  {
    hide Step, ByteStep, Tracks, EndsFile, HexToDecimal, BytesOf;
    assert (text + [c])[..|text|] == text;
    var ds := LineDigits(text);
    if l.phase == WaitLine || c == ':' {
      StartTracks(l, text, c);
    } else {
      DigitStep(l, c);
      var d := HexToDecimal(c);
      if d >= 0 {
        BytesOfStep(ds, d);
        if |ds| % 2 == 1 {
          var b := 16 * ds[|ds| - 1] + d;
          SecondDigit(l.data, ds[|ds| - 1], d);
          ByteTracks(l, b, BytesOf(ds));
          ByteStepEven(l, b);
        } else {
          TracksFrame(l, HalfByte(l, d), BytesOf(ds));
          HalfDigit(l.data, d);
        }
      }
    }
  }

  lemma {:induction false} HalfDigit(data: Octet, d: int)
    requires 0 <= d < 16
    ensures (data * 16 % 256 + d) % 16 == d
  {
  }

  lemma {:induction false} StartTracks(l: Loader, text: string, c: char)
    requires TracksText(l, text) && (l.phase == WaitLine || c == ':')
    ensures TracksText(Step(l, c), text + [c])
    ensures Step(l, c).running == l.running
  {
    assert (text + [c])[..|text|] == text;
    if c == ':' {
      assert LineDigits(text + [c]) == [];
      assert BytesOf([]) == [];
    }
  }

  lemma {:induction false} SecondDigit(data: Octet, h: int, d: int)
    requires data % 16 == h && 0 <= d < 16
    ensures data * 16 % 256 + d == 16 * h + d
  {
  }

  lemma {:induction false} TracksFrame(l: Loader, k: Loader, bs: seq<Octet>)
    requires Tracks(l, bs) && k == l.(data := k.data, readMsb := k.readMsb)
    ensures Tracks(k, bs)
  {
  }

  /** From reset, every text keeps the parser in step with its bytes. */
  lemma {:induction false} RunTracks(f: Flash, text: string)
    requires f.Valid()
    ensures TracksText(Run(Reset(f), text), text)
  {
    if text == [] {
      assert BytesOf([]) == [];
    } else {
      RunTracks(f, text[..|text| - 1]);
      StepTracks(Run(Reset(f), text[..|text| - 1]), text[..|text| - 1], text[|text| - 1]);
      assert text[..|text| - 1] + [text[|text| - 1]] == text;
    }
  }

  /** While data bytes are expected at least one remains, so the count never underflows. */
  lemma {:induction false} DataRemPositive(f: Flash, text: string)
    requires f.Valid() && Run(Reset(f), text).phase == ReadData
    ensures Run(Reset(f), text).dataRem >= 1
  {
    RunTracks(f, text);
  }

  /**
   * The loader stops at a character exactly when it is inside a record and the character completes
   * an end-of-file record with a right checksum.
   */
  lemma {:induction false} StopsExactlyAtEndOfFile(f: Flash, text: string, c: char)
    requires f.Valid() && Run(Reset(f), text).running
    ensures !Run(Reset(f), text + [c]).running <==>
      CompletesByte(Run(Reset(f), text), text, c) && EndsFile(LineBytes(text + [c]))
  {
    RunTracks(f, text);
    StepTracks(Run(Reset(f), text), text, c);
    assert (text + [c])[..|text|] == text;
  }
}
