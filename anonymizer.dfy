/**
 * `TwixAnonymizer` on its files: the type test and the two rewrites, reading the input
 * and writing the output step by step as the source does, each proved to do what the
 * value-level definitions of the container say.
 */
module Anonymizer {
  import opened Errors
  import opened Bytes
  import opened Streams
  import opened Header
  import opened Container

  /** The header text of a block anonymized by the header method, as bytes. */
  method RedactHeaderText(text: seq<byte>) returns (r: Result<HeaderOut>)
    ensures r == RedactText(text)
  {
    var s := Latin1Decode(text);
    var a := AnonymizeHeader(s);
    if a.Err? {
      return Err(a.error);
    }
    HeaderOnlyPlaceholders(s);
    EncodePlaceholders(text, a.value.text);
    r := Ok(HeaderOut(Latin1Encode(a.value.text), a.value.matches));
  }

  /** The type test: two fields read from the start, then the input rewound. */
  method Classify(fin: InStream) returns (r: Result<Variant>)
    requires fin.pos == 0
    modifies fin
    ensures r == FileVariant(fin.data)
    ensures r.Ok? ==> fin.pos == 0
  {
    var probe := fin.Read(ProbeSize);
    if |probe| < ProbeSize {
      return Err(TruncatedInput);
    }
    fin.Seek(0);
    if U32At(probe, 0) == 0 && U32At(probe, U32Size) <= MaxVdMeasurements {
      r := Ok(Vd);
    } else {
      r := Ok(Vb);
    }
  }

  /**
   * The start of a header block at the input position: the 32-bit `header_size`, then
   * `header_size - 4` bytes of header. A short size field fails to unpack, and a
   * `header_size` below 3 makes the header read ask for fewer than -1 bytes.
   */
  method ReadHeaderBlock(fin: InStream) returns (r: Result<(seq<byte>, seq<byte>)>)
    modifies fin
    ensures var sizeField := ReadAt(fin.data, old(fin.pos), U32Size);
      (r.Err? <==> |sizeField| < U32Size || LittleEndian(sizeField) < U32Size - 1) &&
      (r.Err? ==> r.error == if |sizeField| < U32Size then TruncatedInput else BadReadLength) &&
      (r.Ok? ==>
         r.value.0 == sizeField &&
         r.value.1 == ReadAt(fin.data, old(fin.pos) + U32Size, LittleEndian(sizeField) - U32Size) &&
         fin.pos == old(fin.pos) + U32Size + |r.value.1|)
  {
    var sizeField := fin.Read(U32Size);
    if |sizeField| < U32Size {
      return Err(TruncatedInput);
    }
    if LittleEndian(sizeField) - U32Size < -1 {
      return Err(BadReadLength);
    }
    Pow256Widths();
    var header := fin.Read(LittleEndian(sizeField) - U32Size);
    r := Ok((sizeField, header));
  }

  /**
   * The block written back at the output position: `header_size` re-packed, the
   * anonymized text, the trailer of the header as read, then `n` bytes of payload copied
   * from the input position (all the rest when `n` is -1). A payload count the file
   * refuses fails the read; what was written before it stays.
   */
  method WriteBackBlock(fin: InStream, fout: OutStream, sizeField: seq<byte>, header: seq<byte>, text: seq<byte>, n: int)
    returns (ok: bool)
    requires |sizeField| == U32Size
    modifies fin, fout
    ensures ok == ReadLengthOk(n)
    ensures var payload := PayloadBytes(fin.data, old(fin.pos), n);
      fout.contents == old(fout.contents) + Place(old(fout.pos), WriteBlock(RawBlock(sizeField, header, payload), text))
  {
    ghost var base := fout.contents;
    ghost var at := fout.pos;
    var size := ToLittleEndian(LittleEndian(sizeField), U32Size);
    var trailer := TrailerPart(header);
    fout.Write(size);
    assert fout.contents == base + Place(at, size);
    ghost var img := size;
    ghost var c0, p0 := fout.contents, fout.pos;
    fout.Write(text);
    WriteExtends(base, at, img, c0, p0, text, fout.contents, fout.pos);
    img := img + text;
    c0, p0 := fout.contents, fout.pos;
    fout.Write(trailer);
    WriteExtends(base, at, img, c0, p0, trailer, fout.contents, fout.pos);
    img := img + trailer;
    if !ReadLengthOk(n) {
      assert img + [] == img;
      return false;
    }
    ok := true;
    c0, p0 := fout.contents, fout.pos;
    var payload := fin.Read(n);
    assert fout.contents == c0 && fout.pos == p0;
    fout.Write(payload);
    WriteExtends(base, at, img, c0, p0, payload, fout.contents, fout.pos);
  }

  /** `anonymize_twix_vb`: the one header block, read from the start and written back. */
  method AnonymizeVb(fin: InStream, fout: OutStream, metaOnly: bool, redact: Redactor)
    returns (r: Result<map<string, string>>)
    requires fin.pos == 0 && fout.pos == 0
    modifies fin, fout
    ensures r == VbRun(redact, fin.data, metaOnly).outcome
    ensures fout.contents == old(fout.contents) + VbRun(redact, fin.data, metaOnly).writes
  {
    ghost var data := fin.data;
    var hb := ReadHeaderBlock(fin);
    if hb.Err? {
      ghost var sizeField := ReadAt(data, 0, U32Size);
      VbRunByParts(redact, data, metaOnly, sizeField, []);
      return Err(hb.error);
    }
    var (sizeField, header) := hb.value;
    VbRunByParts(redact, data, metaOnly, sizeField, header);
    var h := redact(TextPart(header));
    if h.Err? {
      return Err(h.error);
    }
    if !metaOnly {
      var _ := WriteBackBlock(fin, fout, sizeField, header, h.value.bytes, -1);
    }
    r := Ok(h.value.matches);
  }

  /**
   * One round of the measurement loop of `anonymize_twix_vd`: the entry is read and
   * unpacked, then its block is processed.
   */
  method ProcessMeasurement(fin: InStream, fout: OutStream, i: nat, metaOnly: bool, redact: Redactor)
    returns (r: Result<map<string, string>>)
    requires i < Pow256(U32Size)
    modifies fin, fout
    ensures var mr := Measurement(redact, fin.data, i);
      r == RoundOutcome(mr, metaOnly) && fout.contents == AfterRound(old(fout.contents), mr, metaOnly)
  {
    Pow256Widths();
    fin.Seek(EntryAt(i));
    var raw := fin.Read(EntrySize);
    if |raw| < EntrySize {
      return Err(TruncatedInput);
    }
    r := ProcessEntry(fin, fout, EntryAt(i), DecodeEntry(raw), metaOnly, redact);
  }

  /**
   * The rest of a round: the block at the entry's offset is read and, unless
   * `meta_only`, the anonymized entry and the block are written back in place. A round
   * that fails before its writes, the seek to an offset of 2^63 or more included, has
   * written nothing; one whose payload read fails
   * keeps the entry and the block up to the trailer.
   */
  method ProcessEntry(fin: InStream, fout: OutStream, at: nat, e: Entry, metaOnly: bool, redact: Redactor)
    returns (r: Result<map<string, string>>)
    requires EntryFits(e)
    modifies fin, fout
    ensures var mr := MeasureEntry(redact, fin.data, at, e);
      r == RoundOutcome(mr, metaOnly) && fout.contents == AfterRound(old(fout.contents), mr, metaOnly)
  {
    ghost var data := fin.data;
    if e.offset >= SizeLimit {
      return Err(BadSeekTarget);
    }
    fin.Seek(e.offset);
    var hb := ReadHeaderBlock(fin);
    if hb.Err? {
      MeasureEntryFails(redact, data, at, e, ReadAt(data, e.offset, U32Size), []);
      return Err(hb.error);
    }
    var (sizeField, header) := hb.value;
    r := ProcessHeader(fin, fout, at, e, sizeField, header, metaOnly, redact);
  }

  /**
   * A round once its block's size field and header are read: the text part goes through
   * the anonymizer, then the round is finished.
   */
  method ProcessHeader(fin: InStream, fout: OutStream, at: nat, e: Entry, sizeField: seq<byte>, header: seq<byte>,
                       metaOnly: bool, redact: Redactor)
    returns (r: Result<map<string, string>>)
    requires EntryFits(e) && e.offset < SizeLimit && |sizeField| == U32Size && LittleEndian(sizeField) >= U32Size - 1
    requires sizeField == ReadAt(fin.data, e.offset, U32Size)
    requires header == ReadAt(fin.data, e.offset + U32Size, LittleEndian(sizeField) - U32Size)
    requires fin.pos == e.offset + U32Size + |header|
    modifies fin, fout
    ensures var mr := MeasureEntry(redact, fin.data, at, e);
      r == RoundOutcome(mr, metaOnly) && fout.contents == AfterRound(old(fout.contents), mr, metaOnly)
  {
    ghost var data := fin.data;
    var h := redact(TextPart(header));
    if h.Err? {
      MeasureEntryFails(redact, data, at, e, sizeField, header);
      return Err(h.error);
    }
    MeasureEntryByParts(redact, data, at, e, sizeField, header);
    r := FinishRound(fin, fout, at, e, sizeField, header, h.value, metaOnly);
  }

  /**
   * A round past its header: unless `meta_only`, the anonymized entry and the block are
   * written back, and the payload read decides whether the round succeeds.
   */
  method FinishRound(fin: InStream, fout: OutStream, at: nat, e: Entry, sizeField: seq<byte>, header: seq<byte>,
                     h: HeaderOut, metaOnly: bool)
    returns (r: Result<map<string, string>>)
    requires EntryFits(e) && |sizeField| == U32Size
    requires fin.pos == e.offset + U32Size + |header|
    modifies fin, fout
    ensures var m := RoundBlock(fin.data, at, e, sizeField, header, h);
      r == RoundOutcome(Ok(m), metaOnly) && fout.contents == AfterRound(old(fout.contents), Ok(m), metaOnly)
  {
    ghost var m := RoundBlock(fin.data, at, e, sizeField, header, h);
    if !metaOnly {
      var ok := WriteRound(fin, fout, at, e, sizeField, header, h.bytes);
      assert fout.contents == AfterRound(old(fout.contents), Ok(m), metaOnly);
      if !ok {
        assert RoundOutcome(Ok(m), metaOnly) == Err(BadReadLength);
        return Err(BadReadLength);
      }
    }
    assert RoundOutcome(Ok(m), metaOnly) == Ok(h.matches);
    r := Ok(h.matches);
  }

  /**
   * The writes of a round: the anonymized entry in its slot, then the block at its
   * offset, whose payload read fails when the file refuses `length - header_size` as a count.
   */
  method WriteRound(fin: InStream, fout: OutStream, at: nat, e: Entry, sizeField: seq<byte>, header: seq<byte>, text: seq<byte>)
    returns (ok: bool)
    requires EntryFits(e) && |sizeField| == U32Size
    modifies fin, fout
    ensures var n := e.length - LittleEndian(sizeField);
      ok == ReadLengthOk(n) &&
      fout.contents == old(fout.contents) + Place(at, EncodeEntry(Anonymized(e))) +
        Place(e.offset, WriteBlock(RawBlock(sizeField, header, PayloadBytes(fin.data, old(fin.pos), n)), text))
  {
    fout.Seek(at);
    fout.Write(EncodeEntry(Anonymized(e)));
    fout.Seek(e.offset);
    ok := WriteBackBlock(fin, fout, sizeField, header, text, e.length - LittleEndian(sizeField));
  }

  /**
   * `anonymize_twix_vd`: the two leading fields, then every measurement the file
   * announces, rewritten in place; the matches of the last measurement are returned.
   */
  method AnonymizeVd(fin: InStream, fout: OutStream, metaOnly: bool, redact: Redactor)
    returns (r: Result<map<string, string>>)
    requires fin.pos == 0 && fout.pos == 0
    modifies fin, fout
    ensures r == VdRun(redact, fin.data, metaOnly).outcome
    ensures fout.contents == old(fout.contents) + VdRun(redact, fin.data, metaOnly).writes
  {
    var probe := fin.Read(ProbeSize);
    if |probe| < ProbeSize {
      return Err(TruncatedInput);
    }
    var id := U32At(probe, 0);
    var count := U32At(probe, U32Size);
    ghost var base := fout.contents;
    ghost var w: map<nat, byte> := map[];
    if !metaOnly {
      var fields := ToLittleEndian(id, U32Size) + ToLittleEndian(count, U32Size);
      fout.Write(fields);
      w := Place(0, fields);
    }
    ghost var ms := Measurements(redact, fin.data);
    var i: nat := 0;
    var last: Option<map<string, string>> := None;
    while i < count
      invariant fout.contents == base + w
      invariant VdFrom(ms, count, i, metaOnly, w, last) == VdRun(redact, fin.data, metaOnly)
      decreases count - i
    {
      ghost var mr := ms(i);
      assert mr == Measurement(redact, fin.data, i);
      VdFromStep(ms, count, i, metaOnly, w, last);
      var m := ProcessMeasurement(fin, fout, i, metaOnly, redact);
      AfterRoundOver(base, w, mr, metaOnly);
      w := AfterRound(w, mr, metaOnly);
      if m.Err? {
        return Err(m.error);
      }
      last := Some(m.value);
      i := i + 1;
    }
    if last.None? {
      return Err(NoMeasurements);
    }
    r := Ok(last.value);
  }

  /**
   * One input file processed with a given header anonymization: the type test, a fresh
   * output, then the VD or VB rewrite.
   */
  method ProcessFile(fin: InStream, metaOnly: bool, redact: Redactor) returns (o: Outcome)
    requires fin.pos == 0
    modifies fin
    ensures o == FileRun(redact, fin.data, metaOnly)
  {
    var v := Classify(fin);
    if v.Err? {
      return Outcome(Err(v.error), None);
    }
    var fout := new OutStream();
    var r;
    if v.value == Vd {
      r := AnonymizeVd(fin, fout, metaOnly, redact);
      assert fout.contents == VdRun(redact, fin.data, metaOnly).writes;
    } else {
      r := AnonymizeVb(fin, fout, metaOnly, redact);
      assert fout.contents == VbRun(redact, fin.data, metaOnly).writes;
    }
    o := Outcome(r, if metaOnly && r.Ok? then None else Some(fout.contents));
  }

  /**
   * The anonymizer of one input file: whether only the recorded values are kept, the
   * values recorded by a successful run, and the output file the run leaves behind.
   */
  class TwixAnonymizer {
    const metaOnly: bool
    var matches: Option<map<string, string>>
    var output: Option<map<nat, byte>>

    constructor (metaOnly: bool)
      ensures this.metaOnly == metaOnly && matches == None && output == None
    {
      this.metaOnly := metaOnly;
      matches := None;
      output := None;
    }

    /**
     * `read_and_anonymize`: the type test on the first two fields, a fresh output, the
     * VD or VB rewrite with the header anonymization of this model, and with `meta_only`
     * the output removed again after a successful run. The recorded values change only
     * when the run succeeds.
     */
    method ReadAndAnonymize(fin: InStream) returns (r: Result<map<string, string>>)
      requires fin.pos == 0
      modifies this, fin
      ensures r == AnonymizeFile(fin.data, metaOnly).matches
      ensures output == AnonymizeFile(fin.data, metaOnly).file
      ensures matches == if r.Ok? then Some(r.value) else old(matches)
    {
      var o := ProcessFile(fin, metaOnly, RedactText);
      r := o.matches;
      if r.Ok? {
        matches := Some(r.value);
      }
      output := o.file;
    }
  }
}
