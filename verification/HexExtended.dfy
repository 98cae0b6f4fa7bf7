/**
 * Extended address records of the HEX loader. Intel HEX gives the upper part of the address high
 * byte first; the loader takes it as it takes data words, low byte first.
 */
module HexExtended {
  import opened Arith
  import opened Memory
  import opened PageProgramming
  import opened HexLoader
  import opened HexImage
  import opened HexGuard

  /** What an extended address record of Intel HEX says: a segment counts sixteen bytes, a linear page 64 KB. */
  function Announced(kind: Octet, high: Octet, low: Octet): nat {
    (256 * high as int + low) * if kind == TYPE_EXTENDED_SEGMENT then 16 else 65536
  }

  lemma {:induction false} AddressBytes(l: Loader, a: Octet, b: Octet)
    requires l.Valid() && l.phase == ReadData && l.dataRem == 2 && l.currAddress < l.flash.boot
    requires l.recordType == TYPE_EXTENDED_SEGMENT || l.recordType == TYPE_EXTENDED_LINEAR
    ensures var k := ByteStep(l, a);
      var r := ByteStep(k, b);
      && k.phase == ReadData && r.phase == Checksum && r.currBase == Announced(l.recordType, b, a)
      && r.flash == l.flash && r.pageDirty == l.pageDirty && r.pageStart == l.pageStart && r.running == l.running
      && r.currAddress == l.currAddress && r.recordType == l.recordType
  {
    hide ProgramWord, FlushPageIfRequired;
  }

  lemma {:induction false} ChecksumPlain(l: Loader, b: Octet)
    requires l.Valid() && l.phase == Checksum && !l.pageDirty && l.recordType != TYPE_END_OF_FILE
    ensures var r := ByteStep(l, b); r.flash == l.flash && r.currBase == l.currBase && r.phase == Checksum && !r.pageDirty && r.running == l.running
  {
  }

  /** An extended address record sets the base to its two bytes read low byte first, and touches nothing else. */
  lemma {:induction false} ExtendedTaken(l: Loader, kind: Octet, high: Octet, low: Octet)
    requires Calm(l, l.flash) && l.flash.boot > 0 && (kind == TYPE_EXTENDED_SEGMENT || kind == TYPE_EXTENDED_LINEAR)
    ensures var r := Run(l, ":" + HexText(Record(0, kind, [high, low])));
      r.currBase == Announced(kind, low, high) && r.flash == l.flash && !r.pageDirty && r.running == l.running
  {
    hide RunBytes, StaysInRecord, Sum, ByteStep, Run, HexText, Flash.Valid, Announced;
    StartLineState(l);
    var k, header := StartLine(l, ':'), [2, 0, 0, kind];
    HeaderRuns(k, 0, kind, 2);
    var h := RunBytes(k, header);
    AddressBytes(h, high, low);
    var h1 := ByteStep(h, high);
    var h2 := ByteStep(h1, low);
    StaysOne(h, high);
    StaysOne(h1, low);
    StaysConcat(k, header, [high]);
    StaysConcat(k, header + [high], [low]);
    assert header + [high] + [low] == header + [high, low];
    var body := header + [high, low];
    var c := (256 - Sum(body) % 256) % 256;
    ChecksumPlain(h2, c);
    StaysOne(h2, c);
    StaysConcat(k, body, [c]);
    var bs := Record(0, kind, [high, low]);
    assert bs == body + [c];
    HexTextSpells(bs);
    LineRuns(l, HexText(bs), bs);
  }

  /** The base is the address that the record announces exactly when its two bytes are equal. */
  lemma {:induction false} ExtendedExactly(l: Loader, kind: Octet, high: Octet, low: Octet)
    requires Calm(l, l.flash) && l.flash.boot > 0 && (kind == TYPE_EXTENDED_SEGMENT || kind == TYPE_EXTENDED_LINEAR)
    ensures Run(l, ":" + HexText(Record(0, kind, [high, low]))).currBase == Announced(kind, high, low) <==> high == low
  {
    ExtendedTaken(l, kind, high, low);
    hide Run, HexText, Record;
  }
}
