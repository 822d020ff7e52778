/**
 * The TWIX container around the text header: telling a VD file from a VB file, and
 * rewriting each so that only the header text changes, as `read_and_anonymize`,
 * `anonymize_twix_vd` and `anonymize_twix_vb` do.
 */
module Container {
  import opened Errors
  import opened Bytes
  import opened Streams
  import opened Header

  // ---------------------------------------------------------------------------
  // The type test
  // ---------------------------------------------------------------------------

  datatype Variant = Vd | Vb

  /** The type test reads two 32-bit fields from the start of the file. */
  const ProbeSize: nat := 8
  /** A VD file announces at most this many measurements in its second field. */
  const MaxVdMeasurements: nat := 64

  /** VD when the first field is zero and the second at most 64, VB otherwise. */
  function FileVariant(data: seq<byte>): Result<Variant> {
    var probe := ReadAt(data, 0, ProbeSize);
    if |probe| < ProbeSize then Err(TruncatedInput)
    else if U32At(probe, 0) == 0 && U32At(probe, U32Size) <= MaxVdMeasurements then Ok(Vd)
    else Ok(Vb)
  }

  /**
   * The test fails only on files shorter than its two fields; a file is VD exactly when
   * its first four bytes are zero and its second field is at most 64.
   */
  lemma VariantByPrefix(data: seq<byte>)
    ensures FileVariant(data).Err? <==> |data| < ProbeSize
    ensures FileVariant(data) == Ok(Vd) <==>
      |data| >= ProbeSize && data[0] == 0 && data[1] == 0 && data[2] == 0 && data[3] == 0 &&
      U32At(data, U32Size) <= MaxVdMeasurements
  {
    if |data| >= ProbeSize {
      var probe := ReadAt(data, 0, ProbeSize);
      assert probe[0..U32Size] == data[0..U32Size];
      assert probe[U32Size..U32Size + U32Size] == data[U32Size..U32Size + U32Size];
      LittleEndianZero(data[0..U32Size]);
      assert forall i :: 0 <= i < U32Size ==> data[0..U32Size][i] == data[i];
    }
  }

  /** Only the first eight bytes decide the variant. */
  lemma VariantIgnoresRest(a: seq<byte>, b: seq<byte>)
    requires |a| >= ProbeSize && |b| >= ProbeSize && a[..ProbeSize] == b[..ProbeSize]
    ensures FileVariant(a) == FileVariant(b)
  {
    assert ReadAt(a, 0, ProbeSize) == a[..ProbeSize];
    assert ReadAt(b, 0, ProbeSize) == b[..ProbeSize];
  }

  // ---------------------------------------------------------------------------
  // The header text inside its byte block
  // ---------------------------------------------------------------------------

  /** The last 24 bytes of a header block are binary and are never decoded. */
  const TrailerSize: nat := 24

  /** `header[:-24]`: empty when the block is shorter than the trailer. */
  function TextPart(h: seq<byte>): seq<byte> {
    if |h| >= TrailerSize then h[..|h| - TrailerSize] else []
  }

  /** `header[-24:]`: the whole block when it is shorter than the trailer. */
  function TrailerPart(h: seq<byte>): (t: seq<byte>)
    ensures TextPart(h) + t == h
    ensures |t| == if |h| >= TrailerSize then TrailerSize else |h|
  {
    if |h| >= TrailerSize then h[|h| - TrailerSize..] else h
  }

  /** A redacted byte: the original or one of the placeholders `'0'` and `'x'`. */
  predicate Placeholder(orig: byte, b: byte) {
    b == orig || b == '0' as int || b == 'x' as int
  }

  /**
   * `img` is `orig` with only the bytes in `[lo, hi)` possibly replaced by placeholders.
   */
  predicate RedactedCopy(orig: seq<byte>, img: seq<byte>, lo: nat, hi: nat) {
    |img| == |orig| &&
    forall k :: 0 <= k < |orig| ==> if lo <= k < hi then Placeholder(orig[k], img[k]) else img[k] == orig[k]
  }

  /** Encoding a placeholder-redacted latin-1 text gives a redacted copy of its bytes. */
  lemma EncodePlaceholders(text: seq<byte>, t: string)
    requires OnlyPlaceholders(Latin1Decode(text), t)
    ensures IsLatin1(t)
    ensures RedactedCopy(text, Latin1Encode(t), 0, |text|)
  {
    var s := Latin1Decode(text);
    forall q | 0 <= q < |t|
      ensures t[q] as int < 256
      ensures Placeholder(text[q], t[q] as int)
    {
      assert s[q] as int == text[q];
      assert t[q] == s[q] || t[q] == '0' || t[q] == 'x';
    }
    var bs := Latin1Encode(t);
    forall q | 0 <= q < |text|
      ensures Placeholder(text[q], bs[q])
    {
      assert bs[q] == t[q] as int;
    }
  }

  datatype HeaderOut = HeaderOut(bytes: seq<byte>, matches: map<string, string>)

  /**
   * The text part decoded as latin-1, anonymized and encoded back: the same number of
   * bytes, each the original or a placeholder, with the header's recorded values.
   */
  function RedactText(text: seq<byte>): (r: Result<HeaderOut>)
    ensures r.Ok? ==> RedactedCopy(text, r.value.bytes, 0, |text|)
  {
    var s := Latin1Decode(text);
    var a := AnonymizeHeaderSpec(s);
    if a.Err? then Err(a.error)
    else
      HeaderOnlyPlaceholders(s);
      EncodePlaceholders(text, a.value.text);
      Ok(HeaderOut(Latin1Encode(a.value.text), a.value.matches))
  }

  /** A header anonymizer on the bytes of a text part. */
  type Redactor = seq<byte> -> Result<HeaderOut>

  /** The anonymizer only ever puts placeholders in place of bytes. */
  ghost predicate Sound(redact: Redactor) {
    forall t :: redact(t).Ok? ==> RedactedCopy(t, redact(t).value.bytes, 0, |t|)
  }

  /** The header anonymization of this model is such an anonymizer. */
  lemma RedactTextSound()
    ensures Sound(RedactText)
  {
  }

  /** Redacting a middle part of a sequence redacts the whole in that range. */
  lemma RedactedMiddle(a: seq<byte>, x: seq<byte>, y: seq<byte>, b: seq<byte>)
    requires RedactedCopy(x, y, 0, |x|)
    ensures RedactedCopy(a + x + b, a + y + b, |a|, |a| + |x|)
  {
    var orig := a + x + b;
    var img := a + y + b;
    forall k | 0 <= k < |orig|
      ensures if |a| <= k < |a| + |x| then Placeholder(orig[k], img[k]) else img[k] == orig[k]
    {
      if k < |a| {
        assert orig[k] == a[k] == img[k];
      } else if k < |a| + |x| {
        assert orig[k] == x[k - |a|] && img[k] == y[k - |a|];
      } else {
        assert orig[k] == b[k - |a| - |x|] == img[k];
      }
    }
  }

  /**
   * A header block rewritten as the source writes it back: the size field, the redacted
   * text, the trailer and what follows are the original with only the text redacted.
   */
  lemma BlockLayout(sizeField: seq<byte>, header: seq<byte>, text: seq<byte>, payload: seq<byte>)
    requires |sizeField| == U32Size
    requires RedactedCopy(TextPart(header), text, 0, |TextPart(header)|)
    ensures RedactedCopy(sizeField + header + payload, sizeField + text + TrailerPart(header) + payload,
                         U32Size, U32Size + |TextPart(header)|)
  {
    var rest := TrailerPart(header) + payload;
    RedactedMiddle(sizeField, TextPart(header), text, rest);
    assert sizeField + header + payload == sizeField + TextPart(header) + rest;
    assert sizeField + text + TrailerPart(header) + payload == sizeField + text + rest;
  }

  /** A header block as read: its size field, the header it announces, and what follows. */
  datatype RawBlock = RawBlock(sizeField: seq<byte>, header: seq<byte>, payload: seq<byte>)

  /**
   * Reading a block at `offset`: the 32-bit `header_size`, then `header_size - 4` header
   * bytes, then either `length - header_size` payload bytes or, without a length,
   * everything to the end. A short size field fails to unpack, and a `header_size`
   * below 3 asks the header read for fewer than -1 bytes, which the file refuses; the
   * other reads may come back short. A payload count the file refuses (below -1, or of
   * 2^63 or more) reads nothing here: the round that asks for it fails once it gets that
   * far (`PayloadRaises`).
   */
  function ReadBlock(data: seq<byte>, offset: nat, length: Option<nat>): (r: Result<RawBlock>)
    ensures r.Ok? ==> |r.value.sizeField| == U32Size && LittleEndian(r.value.sizeField) >= U32Size - 1
    ensures r.Err? <==> offset + U32Size > |data| || U32At(data, offset) < U32Size - 1
    ensures r.Ok? ==> r.value.sizeField == data[offset..offset + U32Size]
    ensures r.Err? ==> r.error == if offset + U32Size > |data| then TruncatedInput else BadReadLength
  {
    var sizeField := ReadAt(data, offset, U32Size);
    if |sizeField| < U32Size then Err(TruncatedInput)
    else
      var hs := LittleEndian(sizeField);
      if hs - U32Size < -1 then Err(BadReadLength)
      else
        var header := ReadAt(data, offset + U32Size, hs - U32Size);
        var n := PayloadLength(length, hs);
        Ok(RawBlock(sizeField, header, PayloadBytes(data, offset + U32Size + |header|, n)))
  }

  /** The payload bytes a read of `n` at `pos` gives; a count the file refuses gives none. */
  function PayloadBytes(data: seq<byte>, pos: nat, n: int): seq<byte> {
    if ReadLengthOk(n) then ReadAt(data, pos, n) else []
  }

  /** What the payload read asks for: `length - header_size`, or -1 for the rest of the file. */
  function PayloadLength(length: Option<nat>, hs: nat): int {
    if length.Some? then length.value - hs else -1
  }

  /** The payload read of a block with this length asks for a count the file refuses, and raises. */
  predicate PayloadRaises(b: RawBlock, length: nat) {
    !ReadLengthOk(PayloadLength(Some(length), LittleEndian(b.sizeField)))
  }

  /** The three parts of a block read are consecutive bytes of the file. */
  lemma ReadBlockInPlace(data: seq<byte>, offset: nat, length: Option<nat>)
    requires ReadBlock(data, offset, length).Ok?
    ensures var b := ReadBlock(data, offset, length).value;
      var end := offset + |b.sizeField| + |b.header| + |b.payload|;
      end <= |data| && data[offset..end] == b.sizeField + b.header + b.payload &&
      (length.None? ==> end == |data|) &&
      (length.Some? && U32Size <= LittleEndian(b.sizeField) <= length.value && offset + length.value <= |data| &&
       length.value < SizeLimit ==>
         end == offset + length.value && |b.header| == LittleEndian(b.sizeField) - U32Size)
  {
    var b := ReadBlock(data, offset, length).value;
    assert b.sizeField == data[offset..offset + U32Size];
    var p := offset + U32Size + |b.header|;
    assert b.header == data[offset + U32Size..p];
    var end := p + |b.payload|;
    assert b.payload == data[p..end];
    assert data[offset..end] == data[offset..offset + U32Size] + data[offset + U32Size..p] + data[p..end];
  }

  /** The block written back: the size re-packed, the redacted text, the trailer, the payload. */
  function WriteBlock(b: RawBlock, text: seq<byte>): seq<byte>
    requires |b.sizeField| == U32Size
  {
    ToLittleEndian(LittleEndian(b.sizeField), U32Size) + text + TrailerPart(b.header) + b.payload
  }

  /** A block written back with a redacted copy of its text is a redacted copy of the block. */
  lemma WriteBlockLayout(b: RawBlock, text: seq<byte>)
    requires |b.sizeField| == U32Size
    requires RedactedCopy(TextPart(b.header), text, 0, |TextPart(b.header)|)
    ensures RedactedCopy(b.sizeField + b.header + b.payload, WriteBlock(b, text), U32Size, U32Size + |TextPart(b.header)|)
  {
    EncodeDecode(b.sizeField);
    BlockLayout(b.sizeField, b.header, text, b.payload);
  }

  /** What the rewrite of one file lays down, and what it returns or why it fails. */
  datatype Run = Run(writes: map<nat, byte>, outcome: Result<map<string, string>>)

  // ---------------------------------------------------------------------------
  // VB: one header at the start of the file
  // ---------------------------------------------------------------------------

  /**
   * `anonymize_twix_vb` as a value: the block at position 0, read to the end of the file,
   * and written back from position 0 with its text redacted.
   */
  function VbRun(redact: Redactor, data: seq<byte>, metaOnly: bool): Run {
    match ReadBlock(data, 0, None)
    case Err(e) => Run(map[], Err(e))
    case Ok(b) =>
      match redact(TextPart(b.header))
      case Err(e) => Run(map[], Err(e))
      case Ok(h) =>
        if metaOnly then Run(map[], Ok(h.matches))
        else Run(Place(0, WriteBlock(b, h.bytes)), Ok(h.matches))
  }

  /** Where the header text of a VB file ends: four size bytes, then the text part. */
  function VbTextEnd(data: seq<byte>): nat
    requires |data| >= U32Size && U32At(data, 0) >= U32Size - 1
  {
    U32Size + |TextPart(ReadAt(data, U32Size, U32At(data, 0) - U32Size))|
  }

  /**
   * A successful VB rewrite writes a file of the input's length that equals the input
   * everywhere except in the header text, where only placeholders appear.
   */
  lemma VbKeepsLayout(redact: Redactor, data: seq<byte>)
    requires Sound(redact)
    ensures var run := VbRun(redact, data, false);
      run.outcome.Ok? ==>
        |data| >= U32Size && U32At(data, 0) >= U32Size - 1 &&
        exists img :: run.writes == Place(0, img) && RedactedCopy(data, img, U32Size, VbTextEnd(data))
  {
    var run := VbRun(redact, data, false);
    if run.outcome.Ok? {
      var b := ReadBlock(data, 0, None).value;
      var h := redact(TextPart(b.header)).value;
      VbImage(data, b, h.bytes);
      assert run.writes == Place(0, WriteBlock(b, h.bytes));
    }
  }

  /** The block of a VB file, written back with a redacted copy of its text, is a redacted copy of the file. */
  lemma VbImage(data: seq<byte>, b: RawBlock, text: seq<byte>)
    requires ReadBlock(data, 0, None) == Ok(b)
    requires RedactedCopy(TextPart(b.header), text, 0, |TextPart(b.header)|)
    ensures |data| >= U32Size && U32At(data, 0) >= U32Size - 1
    ensures RedactedCopy(data, WriteBlock(b, text), U32Size, VbTextEnd(data))
  {
    ReadBlockInPlace(data, 0, None);
    WriteBlockLayout(b, text);
  }

  /**
   * The VB rewrite in the order the source performs it: the size field and the header as
   * read from the start, the anonymizer's answer on the text part, and the rest of the file.
   */
  lemma VbRunByParts(redact: Redactor, data: seq<byte>, metaOnly: bool, sizeField: seq<byte>, header: seq<byte>)
    requires sizeField == ReadAt(data, 0, U32Size)
    requires |sizeField| == U32Size && LittleEndian(sizeField) >= U32Size - 1 ==>
      header == ReadAt(data, U32Size, LittleEndian(sizeField) - U32Size)
    ensures |sizeField| < U32Size ==> VbRun(redact, data, metaOnly) == Run(map[], Err(TruncatedInput))
    ensures |sizeField| == U32Size && LittleEndian(sizeField) < U32Size - 1 ==>
      VbRun(redact, data, metaOnly) == Run(map[], Err(BadReadLength))
    ensures |sizeField| == U32Size && LittleEndian(sizeField) >= U32Size - 1 ==>
      var h := redact(TextPart(header));
      var b := RawBlock(sizeField, header, ReadAt(data, U32Size + |header|, -1));
      VbRun(redact, data, metaOnly) ==
        if h.Err? then Run(map[], Err(h.error))
        else if metaOnly then Run(map[], Ok(h.value.matches))
        else Run(Place(0, WriteBlock(b, h.value.bytes)), Ok(h.value.matches))
  {
    ReadAtFacts(data, 0, U32Size);
    if |sizeField| == U32Size && LittleEndian(sizeField) >= U32Size - 1 {
      ReadBlockByParts(data, 0, None, sizeField, header);
      var h := redact(TextPart(header));
      if h.Ok? && !metaOnly {
        var b := RawBlock(sizeField, header, ReadAt(data, U32Size + |header|, -1));
        assert VbRun(redact, data, metaOnly) == Run(Place(0, WriteBlock(b, h.value.bytes)), Ok(h.value.matches));
      }
    }
  }

  /**
   * With `meta_only` nothing is written, and the recorded values or the failure are the
   * same: the payload read is the only step that `meta_only` skips, and in VB it reads
   * to the end, which never fails.
   */
  lemma VbMetaOnly(redact: Redactor, data: seq<byte>)
    ensures VbRun(redact, data, true).writes == map[]
    ensures VbRun(redact, data, true).outcome == VbRun(redact, data, false).outcome
  {
  }

  // ---------------------------------------------------------------------------
  // VD: a measurement table and one header per measurement
  // ---------------------------------------------------------------------------

  /** The table of 152-byte entries starts after the two leading fields. */
  const EntryTableStart: nat := 8
  const EntrySize: nat := 152
  /** The patient name field of an entry: bytes 24 to 88. */
  const NameStart: nat := 24
  const NameSize: nat := 64

  /** One entry of the measurement table (`IIQQ64s64s`). */
  datatype Entry = Entry(measId: nat, fileId: nat, offset: nat, length: nat,
                         patientName: seq<byte>, protocolName: seq<byte>)

  predicate EntryFits(e: Entry) {
    e.measId < Pow256(U32Size) && e.fileId < Pow256(U32Size) &&
    e.offset < Pow256(U64Size) && e.length < Pow256(U64Size) &&
    |e.patientName| == NameSize && |e.protocolName| == NameSize
  }

  function DecodeEntry(b: seq<byte>): (e: Entry)
    requires |b| == EntrySize
    ensures EntryFits(e)
  {
    Entry(U32At(b, 0), U32At(b, 4), U64At(b, 8), U64At(b, 16), b[NameStart..NameStart + NameSize], b[NameStart + NameSize..])
  }

  function EncodeEntry(e: Entry): (b: seq<byte>)
    requires EntryFits(e)
    ensures |b| == EntrySize
  {
    ToLittleEndian(e.measId, U32Size) + ToLittleEndian(e.fileId, U32Size) +
    ToLittleEndian(e.offset, U64Size) + ToLittleEndian(e.length, U64Size) +
    e.patientName + e.protocolName
  }

  /** Re-packing an unpacked entry reproduces its bytes. */
  lemma EntryRoundTrip(b: seq<byte>)
    requires |b| == EntrySize
    ensures EncodeEntry(DecodeEntry(b)) == b
  {
    EncodeDecode(b[0..4]);
    EncodeDecode(b[4..8]);
    EncodeDecode(b[8..16]);
    EncodeDecode(b[16..24]);
    assert b == b[0..4] + b[4..8] + b[8..16] + b[16..24] + b[24..88] + b[88..];
  }

  /** Unpacking a packed entry gives the entry back. */
  lemma EntryDecodeEncode(e: Entry)
    requires EntryFits(e)
    ensures DecodeEntry(EncodeEntry(e)) == e
  {
    var b := EncodeEntry(e);
    DecodeEncode(e.measId, U32Size);
    DecodeEncode(e.fileId, U32Size);
    DecodeEncode(e.offset, U64Size);
    DecodeEncode(e.length, U64Size);
    assert b[0..4] == ToLittleEndian(e.measId, U32Size);
    assert b[4..8] == ToLittleEndian(e.fileId, U32Size);
    assert b[8..16] == ToLittleEndian(e.offset, U64Size);
    assert b[16..24] == ToLittleEndian(e.length, U64Size);
    assert b[24..88] == e.patientName;
    assert b[88..] == e.protocolName;
  }

  /** The replacement patient name: 64 letters `x`. */
  /** `n` copies of `b`. */
  function Repeat(b: byte, n: nat): (s: seq<byte>)
    ensures |s| == n && forall i :: 0 <= i < n ==> s[i] == b
  {
    if n == 0 then [] else [b] + Repeat(b, n - 1)
  }

  /** The replacement patient name: 64 letters `x`. */
  const AnonName: seq<byte> := Repeat('x' as int, NameSize)

  function Anonymized(e: Entry): (a: Entry)
    requires EntryFits(e)
    ensures EntryFits(a)
  {
    Entry(e.measId, e.fileId, e.offset, e.length, AnonName, e.protocolName)
  }

  /** The rewritten entry is the original with its name bytes, and only those, replaced. */
  lemma AnonymizedEntryBytes(b: seq<byte>)
    requires |b| == EntrySize
    ensures EncodeEntry(Anonymized(DecodeEntry(b))) == b[..NameStart] + AnonName + b[NameStart + NameSize..]
  {
    EncodeDecode(b[0..4]);
    EncodeDecode(b[4..8]);
    EncodeDecode(b[8..16]);
    EncodeDecode(b[16..24]);
    assert b[..NameStart] == b[0..4] + b[4..8] + b[8..16] + b[16..24];
  }

  function EntryAt(i: nat): nat {
    EntryTableStart + EntrySize * i
  }

  /**
   * What measurement `i` contributes: its rewritten entry and its rewritten block, the
   * values its header records, and whether its payload read raises, in which case the
   * block ends after the trailer.
   */
  datatype Block = Block(entryAt: nat, entry: seq<byte>, blockAt: nat, block: seq<byte>,
                         matches: map<string, string>, payloadRaises: bool)

  /**
   * One round of the measurement loop: the entry, then the block at its offset with
   * `length - header_size` bytes of payload, with the header text redacted.
   */
  function Measurement(redact: Redactor, data: seq<byte>, i: nat): Result<Block> {
    var raw := ReadAt(data, EntryAt(i), EntrySize);
    if |raw| < EntrySize then Err(TruncatedInput)
    else MeasureEntry(redact, data, EntryAt(i), DecodeEntry(raw))
  }

  /** The rest of a round once its entry, read at `at`, is unpacked. */
  function MeasureEntry(redact: Redactor, data: seq<byte>, at: nat, e: Entry): Result<Block>
    requires EntryFits(e)
  {
    if e.offset >= SizeLimit then Err(BadSeekTarget)
    else
    var b :- ReadBlock(data, e.offset, Some(e.length));
    var h :- redact(TextPart(b.header));
    Ok(Block(at, EncodeEntry(Anonymized(e)), e.offset, WriteBlock(b, h.bytes), h.matches, PayloadRaises(b, e.length)))
  }

  /** A block read in the order the source reads it: the size field, then the header, then the payload. */
  lemma ReadBlockByParts(data: seq<byte>, offset: nat, length: Option<nat>, sizeField: seq<byte>, header: seq<byte>)
    requires sizeField == ReadAt(data, offset, U32Size) && |sizeField| == U32Size
    requires LittleEndian(sizeField) >= U32Size - 1
    requires header == ReadAt(data, offset + U32Size, LittleEndian(sizeField) - U32Size)
    ensures var n := PayloadLength(length, LittleEndian(sizeField));
      ReadBlock(data, offset, length) ==
        Ok(RawBlock(sizeField, header, PayloadBytes(data, offset + U32Size + |header|, n)))
  {
  }

  /**
   * The rest of a round in the order the source performs it: the seek to the entry's
   * offset, the size field and the header there, then the anonymizer's answer on the
   * text part.
   */
  lemma MeasureEntryFails(redact: Redactor, data: seq<byte>, at: nat, e: Entry, sizeField: seq<byte>, header: seq<byte>)
    requires EntryFits(e)
    requires sizeField == ReadAt(data, e.offset, U32Size)
    requires |sizeField| == U32Size && LittleEndian(sizeField) >= U32Size - 1 ==>
      header == ReadAt(data, e.offset + U32Size, LittleEndian(sizeField) - U32Size)
    ensures e.offset >= SizeLimit ==> MeasureEntry(redact, data, at, e) == Err(BadSeekTarget)
    ensures e.offset < SizeLimit && |sizeField| < U32Size ==> MeasureEntry(redact, data, at, e) == Err(TruncatedInput)
    ensures e.offset < SizeLimit && |sizeField| == U32Size && LittleEndian(sizeField) < U32Size - 1 ==>
      MeasureEntry(redact, data, at, e) == Err(BadReadLength)
    ensures e.offset < SizeLimit && |sizeField| == U32Size && LittleEndian(sizeField) >= U32Size - 1 &&
            redact(TextPart(header)).Err? ==>
      MeasureEntry(redact, data, at, e) == Err(redact(TextPart(header)).error)
  {
    ReadAtFacts(data, e.offset, U32Size);
    if |sizeField| == U32Size && LittleEndian(sizeField) >= U32Size - 1 {
      ReadBlockByParts(data, e.offset, Some(e.length), sizeField, header);
    }
  }

  /**
   * The block of a round whose header the anonymizer answered with `h`: the rewritten
   * entry for slot `at`, the block rebuilt from its size field, the anonymized text, the
   * trailer and the payload after the header, and whether the payload read raises.
   */
  function RoundBlock(data: seq<byte>, at: nat, e: Entry, sizeField: seq<byte>, header: seq<byte>, h: HeaderOut): Block
    requires EntryFits(e) && |sizeField| == U32Size
  {
    var n := e.length - LittleEndian(sizeField);
    var b := RawBlock(sizeField, header, PayloadBytes(data, e.offset + U32Size + |header|, n));
    Block(at, EncodeEntry(Anonymized(e)), e.offset, WriteBlock(b, h.bytes), h.matches, !ReadLengthOk(n))
  }

  /**
   * A round that gets past the anonymizer writes the entry and the block in their parts;
   * a payload count the file refuses leaves the block without payload and fails the round.
   */
  lemma MeasureEntryByParts(redact: Redactor, data: seq<byte>, at: nat, e: Entry, sizeField: seq<byte>, header: seq<byte>)
    requires EntryFits(e) && e.offset < SizeLimit && |sizeField| == U32Size && LittleEndian(sizeField) >= U32Size - 1
    requires sizeField == ReadAt(data, e.offset, U32Size)
    requires header == ReadAt(data, e.offset + U32Size, LittleEndian(sizeField) - U32Size)
    requires redact(TextPart(header)).Ok?
    ensures MeasureEntry(redact, data, at, e) == Ok(RoundBlock(data, at, e, sizeField, header, redact(TextPart(header)).value))
  {
    ReadBlockByParts(data, e.offset, Some(e.length), sizeField, header);
    var n := e.length - LittleEndian(sizeField);
    var b := RawBlock(sizeField, header, PayloadBytes(data, e.offset + U32Size + |header|, n));
    assert ReadBlock(data, e.offset, Some(e.length)) == Ok(b);
    assert PayloadRaises(b, e.length) == !ReadLengthOk(n);
  }

  /** The result of every round of the measurement loop, by measurement index. */
  type Rounds = nat -> Result<Block>

  function Measurements(redact: Redactor, data: seq<byte>): Rounds {
    (j: nat) => Measurement(redact, data, j)
  }

  /**
   * The output after one round: its entry and its block laid over what was written,
   * unless the round failed before writing or `meta_only` holds.
   */
  function AfterRound(writes: map<nat, byte>, r: Result<Block>, metaOnly: bool): map<nat, byte> {
    if r.Ok? && !metaOnly then writes + Place(r.value.entryAt, r.value.entry) + Place(r.value.blockAt, r.value.block)
    else writes
  }

  /** A round's writes land on top of whatever was written before the fold began. */
  lemma AfterRoundOver(base: map<nat, byte>, writes: map<nat, byte>, r: Result<Block>, metaOnly: bool)
    ensures AfterRound(base + writes, r, metaOnly) == base + AfterRound(writes, r, metaOnly)
  {
    if r.Ok? && !metaOnly {
      var pe := Place(r.value.entryAt, r.value.entry);
      var pb := Place(r.value.blockAt, r.value.block);
      UnionAssoc(base + writes, pe, pb);
      UnionAssoc(base, writes, pe + pb);
      UnionAssoc(writes, pe, pb);
    }
  }

  /**
   * What a round yields: its own failure, the failure of its payload read when it
   * writes, or the values its header records.
   */
  function RoundOutcome(r: Result<Block>, metaOnly: bool): Result<map<string, string>> {
    match r
    case Err(e) => Err(e)
    case Ok(m) => if !metaOnly && m.payloadRaises then Err(BadReadLength) else Ok(m.matches)
  }

  /** The rounds from `i` on, after `writes` and with the matches of the last round so far. */
  function VdFrom(ms: Rounds, count: nat, i: nat, metaOnly: bool,
                  writes: map<nat, byte>, last: Option<map<string, string>>): Run
    decreases count - i
  {
    if i >= count then
      Run(writes, if last.Some? then Ok(last.value) else Err(NoMeasurements))
    else
      var w := AfterRound(writes, ms(i), metaOnly);
      match RoundOutcome(ms(i), metaOnly)
      case Err(e) => Run(w, Err(e))
      case Ok(mt) => VdFrom(ms, count, i + 1, metaOnly, w, Some(mt))
  }

  /** One round of the fold: a failing round ends it, a successful one moves on. */
  lemma VdFromStep(ms: Rounds, count: nat, i: nat, metaOnly: bool,
                   writes: map<nat, byte>, last: Option<map<string, string>>)
    requires i < count
    ensures var w := AfterRound(writes, ms(i), metaOnly);
      var o := RoundOutcome(ms(i), metaOnly);
      VdFrom(ms, count, i, metaOnly, writes, last) ==
        if o.Err? then Run(w, Err(o.error)) else VdFrom(ms, count, i + 1, metaOnly, w, Some(o.value))
  {
  }

  /**
   * `anonymize_twix_vd` as a value: the two leading fields re-packed, then each
   * measurement in turn. With no measurement the source fails on a name it never bound.
   */
  function VdRun(redact: Redactor, data: seq<byte>, metaOnly: bool): Run {
    var probe := ReadAt(data, 0, ProbeSize);
    if |probe| < ProbeSize then Run(map[], Err(TruncatedInput))
    else
      var id := U32At(probe, 0);
      var count := U32At(probe, U32Size);
      var start := if metaOnly then map[] else Place(0, ToLittleEndian(id, U32Size) + ToLittleEndian(count, U32Size));
      VdFrom(Measurements(redact, data), count, 0, metaOnly, start, None)
  }

  /** The leading fields are written back unchanged. */
  lemma VdPrefixUnchanged(data: seq<byte>)
    requires |data| >= ProbeSize
    ensures ToLittleEndian(U32At(data, 0), U32Size) + ToLittleEndian(U32At(data, U32Size), U32Size) == data[..ProbeSize]
  {
    EncodeDecode(data[0..4]);
    EncodeDecode(data[4..8]);
    assert data[..ProbeSize] == data[0..4] + data[4..8];
  }

  /** Every round from `i` up to `count` succeeds. */
  predicate AllOk(ms: Rounds, metaOnly: bool, i: nat, count: nat)
    decreases count - i
  {
    i >= count || (RoundOutcome(ms(i), metaOnly).Ok? && AllOk(ms, metaOnly, i + 1, count))
  }

  lemma {:induction false} AllOkEach(ms: Rounds, metaOnly: bool, i: nat, count: nat)
    ensures AllOk(ms, metaOnly, i, count) <==> forall j :: i <= j < count ==> RoundOutcome(ms(j), metaOnly).Ok?
    decreases count - i
  {
    if i < count {
      AllOkEach(ms, metaOnly, i + 1, count);
      if AllOk(ms, metaOnly, i, count) {
        forall j | i <= j < count
          ensures RoundOutcome(ms(j), metaOnly).Ok?
        {
          if j > i {
            assert i + 1 <= j < count;
          }
        }
      }
    }
  }

  /** The matches of the last round from `i` on, or `last` when none is left. */
  function LastMatches(ms: Rounds, i: nat, count: nat, last: Option<map<string, string>>): Option<map<string, string>> {
    if i < count && ms(count - 1).Ok? then Some(ms(count - 1).value.matches)
    else if i < count then None
    else last
  }

  /** The loop succeeds exactly when some round was run and none of the remaining ones fails. */
  lemma {:induction false} VdFromSucceeds(ms: Rounds, count: nat, i: nat, metaOnly: bool,
                                          writes: map<nat, byte>, last: Option<map<string, string>>)
    ensures VdFrom(ms, count, i, metaOnly, writes, last).outcome.Ok? <==>
      (i < count || last.Some?) && AllOk(ms, metaOnly, i, count)
    decreases count - i
  {
    if i < count && RoundOutcome(ms(i), metaOnly).Ok? {
      VdFromSucceeds(ms, count, i + 1, metaOnly, AfterRound(writes, ms(i), metaOnly), Some(RoundOutcome(ms(i), metaOnly).value));
    }
  }

  /** A successful loop returns the matches of the last round. */
  lemma {:induction false} VdFromLast(ms: Rounds, count: nat, i: nat, metaOnly: bool,
                                      writes: map<nat, byte>, last: Option<map<string, string>>)
    ensures var o := VdFrom(ms, count, i, metaOnly, writes, last).outcome;
      o.Ok? ==> Some(o.value) == LastMatches(ms, i, count, last)
    decreases count - i
  {
    if i < count && RoundOutcome(ms(i), metaOnly).Ok? {
      VdFromLast(ms, count, i + 1, metaOnly, AfterRound(writes, ms(i), metaOnly), Some(RoundOutcome(ms(i), metaOnly).value));
    }
  }

  /**
   * `meta_only` leaves the writes as they were. It changes the outcome only by skipping
   * the payload reads: a run that writes succeeds with the same values, and otherwise
   * fails the same way or on a payload read.
   */
  lemma {:induction false} VdFromMetaOnly(ms: Rounds, count: nat, i: nat,
                                          w1: map<nat, byte>, w2: map<nat, byte>, last: Option<map<string, string>>)
    ensures VdFrom(ms, count, i, true, w1, last).writes == w1
    ensures var o1 := VdFrom(ms, count, i, true, w1, last).outcome;
      var o2 := VdFrom(ms, count, i, false, w2, last).outcome;
      (o2.Ok? ==> o1 == o2) && (o1 == o2 || o2 == Err(BadReadLength))
    decreases count - i
  {
    if i < count && ms(i).Ok? {
      VdFromMetaOnly(ms, count, i + 1, w1, AfterRound(w2, ms(i), false), Some(ms(i).value.matches));
    }
  }

  /** Past the two leading fields, the VD rewrite is the fold over the announced measurements. */
  lemma VdRunFold(redact: Redactor, data: seq<byte>, metaOnly: bool)
    requires |data| >= ProbeSize
    ensures VdRun(redact, data, metaOnly) ==
      VdFrom(Measurements(redact, data), U32At(data, U32Size), 0, metaOnly,
             if metaOnly then map[] else Place(0, data[..ProbeSize]), None)
  {
    var probe := ReadAt(data, 0, ProbeSize);
    assert probe[0..U32Size] == data[0..U32Size];
    assert probe[U32Size..U32Size + U32Size] == data[U32Size..U32Size + U32Size];
    VdPrefixUnchanged(data);
  }

  /**
   * A VD rewrite succeeds exactly when the file has its two leading fields, announces at
   * least one measurement and every measurement is processed, its payload read included;
   * it returns the matches of the last measurement only.
   */
  lemma VdOutcome(redact: Redactor, data: seq<byte>)
    ensures var o := VdRun(redact, data, false).outcome;
      (o.Ok? <==> |data| >= ProbeSize && U32At(data, U32Size) > 0 &&
                  forall j :: 0 <= j < U32At(data, U32Size) ==>
                    Measurement(redact, data, j).Ok? && !Measurement(redact, data, j).value.payloadRaises) &&
      (o.Ok? ==> o.value == Measurement(redact, data, U32At(data, U32Size) - 1).value.matches)
  {
    if |data| >= ProbeSize {
      VdRunFold(redact, data, false);
      var count := U32At(data, U32Size);
      var ms := Measurements(redact, data);
      var start := Place(0, data[..ProbeSize]);
      VdFromSucceeds(ms, count, 0, false, start, None);
      VdFromLast(ms, count, 0, false, start, None);
      AllOkEach(ms, false, 0, count);
      assert forall j :: ms(j) == Measurement(redact, data, j);
    }
  }

  /**
   * With `meta_only` a VD rewrite writes nothing. It succeeds exactly when the file has
   * its two leading fields, announces a measurement and every measurement is processed
   * up to its header; a run that writes and succeeds returns the same values, and one
   * that writes and fails differs from it only by failing on a payload read.
   */
  lemma VdMetaOnly(redact: Redactor, data: seq<byte>)
    ensures VdRun(redact, data, true).writes == map[]
    ensures var o := VdRun(redact, data, true).outcome;
      o.Ok? <==> |data| >= ProbeSize && U32At(data, U32Size) > 0 &&
                 forall j :: 0 <= j < U32At(data, U32Size) ==> Measurement(redact, data, j).Ok?
    ensures var o1 := VdRun(redact, data, true).outcome;
      var o2 := VdRun(redact, data, false).outcome;
      (o2.Ok? ==> o1 == o2) && (o1 == o2 || o2 == Err(BadReadLength))
  {
    if |data| >= ProbeSize {
      VdRunFold(redact, data, false);
      VdRunFold(redact, data, true);
      var count := U32At(data, U32Size);
      var ms := Measurements(redact, data);
      VdFromSucceeds(ms, count, 0, true, map[], None);
      AllOkEach(ms, true, 0, count);
      VdFromMetaOnly(ms, count, 0, map[], Place(0, data[..ProbeSize]), None);
      assert forall j :: ms(j) == Measurement(redact, data, j);
    }
  }

  /** A file that announces no measurement is refused even when it is otherwise complete. */
  lemma VdNoMeasurements(redact: Redactor, data: seq<byte>, metaOnly: bool)
    requires |data| >= ProbeSize && U32At(data, U32Size) == 0
    ensures VdRun(redact, data, metaOnly).outcome == Err(NoMeasurements)
  {
    VdRunFold(redact, data, metaOnly);
  }

  /**
   * Measurement `i` is laid out as the source expects: its entry lies in the file, its
   * block lies in the file and ends below 2^63, where a file object can seek and read,
   * and the size field covers at least the size field and the
   * trailer and at most the block.
   */
  predicate MeasurementWellFormed(data: seq<byte>, i: nat) {
    EntryAt(i) + EntrySize <= |data| &&
    var e := DecodeEntry(data[EntryAt(i)..EntryAt(i) + EntrySize]);
    e.offset + e.length <= |data| && e.offset + e.length < SizeLimit && U32Size <= e.length &&
    U32Size + TrailerSize <= U32At(data, e.offset) <= e.length
  }

  /** The rewritten entry differs from the original only in the patient name. */
  lemma MeasurementEntry(redact: Redactor, data: seq<byte>, i: nat)
    requires Measurement(redact, data, i).Ok?
    ensures var m := Measurement(redact, data, i).value;
      var at := EntryAt(i);
      at + EntrySize <= |data| && m.entryAt == at &&
      m.entry == data[at..at + NameStart] + AnonName + data[at + NameStart + NameSize..at + EntrySize]
  {
    var at := EntryAt(i);
    var raw := ReadAt(data, at, EntrySize);
    assert raw == data[at..at + EntrySize];
    assert Measurement(redact, data, i) == MeasureEntry(redact, data, at, DecodeEntry(raw));
    AnonymizedEntryBytes(raw);
    assert raw[..NameStart] == data[at..at + NameStart];
    assert raw[NameStart + NameSize..] == data[at + NameStart + NameSize..at + EntrySize];
  }

  /** The parts of a processed measurement, as `Measurement` puts them together. */
  lemma MeasurementParts(redact: Redactor, data: seq<byte>, i: nat)
    requires Measurement(redact, data, i).Ok?
    ensures EntryAt(i) + EntrySize <= |data|
    ensures var e := DecodeEntry(data[EntryAt(i)..EntryAt(i) + EntrySize]);
      var rb := ReadBlock(data, e.offset, Some(e.length));
      e.offset < SizeLimit && rb.Ok? && redact(TextPart(rb.value.header)).Ok? &&
      var h := redact(TextPart(rb.value.header)).value;
      Measurement(redact, data, i).value ==
        Block(EntryAt(i), EncodeEntry(Anonymized(e)), e.offset, WriteBlock(rb.value, h.bytes), h.matches,
              PayloadRaises(rb.value, e.length))
  {
    var at := EntryAt(i);
    assert ReadAt(data, at, EntrySize) == data[at..at + EntrySize];
  }

  /**
   * In a well-formed measurement the payload read succeeds, and the rewritten block has
   * the block's length and equals it everywhere except in the header text, where only
   * placeholders appear.
   */
  lemma MeasurementBlock(redact: Redactor, data: seq<byte>, i: nat)
    requires Sound(redact)
    requires MeasurementWellFormed(data, i) && Measurement(redact, data, i).Ok?
    ensures var m := Measurement(redact, data, i).value;
      var e := DecodeEntry(data[EntryAt(i)..EntryAt(i) + EntrySize]);
      m.blockAt == e.offset && !m.payloadRaises &&
      RedactedCopy(data[e.offset..e.offset + e.length], m.block, U32Size, U32At(data, e.offset) - TrailerSize)
  {
    MeasurementParts(redact, data, i);
    SoundBlock(redact, data, i);
  }

  /** A sound anonymizer rewrites the block of a well-formed entry as a redacted copy. */
  lemma SoundBlock(redact: Redactor, data: seq<byte>, i: nat)
    requires Sound(redact)
    requires MeasurementWellFormed(data, i)
    ensures var e := DecodeEntry(data[EntryAt(i)..EntryAt(i) + EntrySize]);
      var b := ReadBlock(data, e.offset, Some(e.length)).value;
      redact(TextPart(b.header)).Ok? ==>
        RedactedCopy(data[e.offset..e.offset + e.length], WriteBlock(b, redact(TextPart(b.header)).value.bytes),
                     U32Size, U32At(data, e.offset) - TrailerSize)
  {
    var e := DecodeEntry(data[EntryAt(i)..EntryAt(i) + EntrySize]);
    var b := ReadBlock(data, e.offset, Some(e.length)).value;
    if redact(TextPart(b.header)).Ok? {
      FittingBlock(data, e.offset, e.length, redact(TextPart(b.header)).value.bytes);
    }
  }

  /** A block that fits its length, a count the file accepts, is rewritten as a redacted copy of its bytes. */
  lemma FittingBlock(data: seq<byte>, offset: nat, length: nat, text: seq<byte>)
    requires offset + length <= |data| && length < SizeLimit && U32Size <= length
    requires U32Size + TrailerSize <= U32At(data, offset) <= length
    requires var b := ReadBlock(data, offset, Some(length)).value;
      RedactedCopy(TextPart(b.header), text, 0, |TextPart(b.header)|)
    ensures var b := ReadBlock(data, offset, Some(length)).value;
      RedactedCopy(data[offset..offset + length], WriteBlock(b, text), U32Size, U32At(data, offset) - TrailerSize)
  {
    var b := ReadBlock(data, offset, Some(length)).value;
    assert b.sizeField == data[offset..offset + U32Size];
    ReadBlockInPlace(data, offset, Some(length));
    WriteBlockLayout(b, text);
  }

  // ---------------------------------------------------------------------------
  // The last measurement's block survives in the output
  // ---------------------------------------------------------------------------

  /** Every position of `p` is in `ws` with the same byte: nothing written later hides it. */
  predicate Overlays(ws: map<nat, byte>, p: map<nat, byte>) {
    forall k :: k in p ==> k in ws && ws[k] == p[k]
  }

  /** A successful loop ends with the block of the last round, unhidden. */
  lemma {:induction false} VdFromLastBlock(ms: Rounds, count: nat, i: nat,
                                           writes: map<nat, byte>, last: Option<map<string, string>>)
    requires i < count && VdFrom(ms, count, i, false, writes, last).outcome.Ok?
    ensures ms(count - 1).Ok? &&
      Overlays(VdFrom(ms, count, i, false, writes, last).writes,
               Place(ms(count - 1).value.blockAt, ms(count - 1).value.block))
    decreases count - i
  {
    VdFromStep(ms, count, i, false, writes, last);
    var w := AfterRound(writes, ms(i), false);
    if i + 1 < count {
      VdFromLastBlock(ms, count, i + 1, w, Some(ms(i).value.matches));
    } else {
      assert VdFrom(ms, count, i, false, writes, last).writes == w;
    }
  }

  /**
   * After a successful VD rewrite the block of the last measurement stands in the output
   * as that measurement produced it; `MeasurementBlock` says what that block is.
   */
  lemma VdLastBlock(redact: Redactor, data: seq<byte>)
    requires VdRun(redact, data, false).outcome.Ok?
    ensures |data| >= ProbeSize && U32At(data, U32Size) > 0
    ensures var m := Measurement(redact, data, U32At(data, U32Size) - 1);
      m.Ok? && Overlays(VdRun(redact, data, false).writes, Place(m.value.blockAt, m.value.block))
  {
    VdOutcome(redact, data);
    VdRunFold(redact, data, false);
    var count := U32At(data, U32Size);
    var ms := Measurements(redact, data);
    if count > 0 {
      VdFromLastBlock(ms, count, 0, Place(0, data[..ProbeSize]), None);
      assert ms(count - 1) == Measurement(redact, data, count - 1);
    }
  }

  // ---------------------------------------------------------------------------
  // Every measurement survives in the output when the layout keeps them apart
  // ---------------------------------------------------------------------------

  /** The ranges `[a, a + m)` and `[b, b + n)` have no position in common. */
  predicate Disjoint(a: nat, m: nat, b: nat, n: nat) {
    a + m <= b || b + n <= a
  }

  /** The entry and the block of a round both stand in `ws` as the round wrote them. */
  predicate Keeps(ws: map<nat, byte>, m: Block) {
    Overlays(ws, Place(m.entryAt, m.entry)) && Overlays(ws, Place(m.blockAt, m.block))
  }

  /** A round whose entry and block do not overlap the entry and block of round `m`. */
  predicate Apart(r: Block, m: Block) {
    Disjoint(r.entryAt, |r.entry|, m.entryAt, |m.entry|) && Disjoint(r.entryAt, |r.entry|, m.blockAt, |m.block|) &&
    Disjoint(r.blockAt, |r.block|, m.entryAt, |m.entry|) && Disjoint(r.blockAt, |r.block|, m.blockAt, |m.block|)
  }

  /** Bytes laid down where `p` has no position leave `p` standing. */
  lemma OverlayKept(ws: map<nat, byte>, p: map<nat, byte>, at: nat, bs: seq<byte>)
    requires Overlays(ws, p)
    requires forall k :: k in p ==> k < at || at + |bs| <= k
    ensures Overlays(ws + Place(at, bs), p)
  {
    PlaceFacts(at, bs);
  }

  /** A round that writes over nothing of `r` leaves `r` standing. */
  lemma RoundKeeps(ws: map<nat, byte>, r: Block, m: Block)
    requires Keeps(ws, r) && Apart(r, m)
    ensures Keeps(ws + Place(m.entryAt, m.entry) + Place(m.blockAt, m.block), r)
  {
    PlaceFacts(r.entryAt, r.entry);
    PlaceFacts(r.blockAt, r.block);
    var w1 := ws + Place(m.entryAt, m.entry);
    OverlayKept(ws, Place(r.entryAt, r.entry), m.entryAt, m.entry);
    OverlayKept(ws, Place(r.blockAt, r.block), m.entryAt, m.entry);
    OverlayKept(w1, Place(r.entryAt, r.entry), m.blockAt, m.block);
    OverlayKept(w1, Place(r.blockAt, r.block), m.blockAt, m.block);
  }

  /** The rounds from `i` on leave a round `r` that they do not overlap standing. */
  lemma {:induction false} VdFromKeepsRound(ms: Rounds, count: nat, i: nat,
                                            writes: map<nat, byte>, last: Option<map<string, string>>, r: Block)
    requires Keeps(writes, r)
    requires forall j :: i <= j < count && ms(j).Ok? ==> Apart(r, ms(j).value)
    ensures Keeps(VdFrom(ms, count, i, false, writes, last).writes, r)
    decreases count - i
  {
    if i < count {
      VdFromStep(ms, count, i, false, writes, last);
      var w := AfterRound(writes, ms(i), false);
      if ms(i).Ok? {
        RoundKeeps(writes, r, ms(i).value);
      }
      if RoundOutcome(ms(i), false).Ok? {
        VdFromKeepsRound(ms, count, i + 1, w, Some(RoundOutcome(ms(i), false).value), r);
      }
    }
  }

  /**
   * A successful loop whose rounds each keep their entry apart from their block, and
   * do not overlap one another, ends with every round's entry and block standing.
   */
  lemma {:induction false} VdFromKeepsAll(ms: Rounds, count: nat, i: nat,
                                          writes: map<nat, byte>, last: Option<map<string, string>>)
    requires VdFrom(ms, count, i, false, writes, last).outcome.Ok?
    requires forall j :: i <= j < count && ms(j).Ok? ==>
      Disjoint(ms(j).value.entryAt, |ms(j).value.entry|, ms(j).value.blockAt, |ms(j).value.block|)
    requires forall j, l :: i <= j < l < count && ms(j).Ok? && ms(l).Ok? ==> Apart(ms(j).value, ms(l).value)
    ensures forall j :: i <= j < count ==> ms(j).Ok? && Keeps(VdFrom(ms, count, i, false, writes, last).writes, ms(j).value)
    decreases count - i
  {
    if i < count {
      VdFromStep(ms, count, i, false, writes, last);
      var m := ms(i).value;
      var w := AfterRound(writes, ms(i), false);
      var rest := Some(m.matches);
      PlaceFacts(m.entryAt, m.entry);
      OverlayKept(writes + Place(m.entryAt, m.entry), Place(m.entryAt, m.entry), m.blockAt, m.block);
      assert Keeps(w, m);
      VdFromKeepsRound(ms, count, i + 1, w, rest, m);
      VdFromKeepsAll(ms, count, i + 1, w, rest);
    }
  }

  /**
   * The first `count` measurements are well formed and lie apart: no block overlaps the
   * measurement table or another block.
   */
  predicate LayoutApart(data: seq<byte>, count: nat) {
    (forall j :: 0 <= j < count ==> MeasurementWellFormed(data, j)) &&
    (forall j :: 0 <= j < count ==>
       var e := TableEntry(data, j);
       Disjoint(EntryTableStart, EntrySize * count, e.offset, e.length)) &&
    (forall j, l :: 0 <= j < l < count ==>
       Disjoint(TableEntry(data, j).offset, TableEntry(data, j).length, TableEntry(data, l).offset, TableEntry(data, l).length))
  }

  /** Entry `i` of the table, or an empty entry past the end of the file. */
  function TableEntry(data: seq<byte>, i: nat): Entry {
    if EntryAt(i) + EntrySize <= |data| then DecodeEntry(data[EntryAt(i)..EntryAt(i) + EntrySize])
    else Entry(0, 0, 0, 0, [], [])
  }

  /** Where a well-formed measurement writes: its table entry and its block, at full length. */
  lemma MeasurementPlaces(redact: Redactor, data: seq<byte>, i: nat)
    requires Sound(redact)
    requires MeasurementWellFormed(data, i) && Measurement(redact, data, i).Ok?
    ensures var m := Measurement(redact, data, i).value;
      m.entryAt == EntryAt(i) && |m.entry| == EntrySize &&
      m.blockAt == TableEntry(data, i).offset && |m.block| == TableEntry(data, i).length
  {
    MeasurementEntry(redact, data, i);
    MeasurementBlock(redact, data, i);
  }

  /** In a layout that lies apart, a measurement's entry does not overlap its block. */
  lemma MeasurementSelfApart(redact: Redactor, data: seq<byte>, count: nat, j: nat)
    requires Sound(redact) && LayoutApart(data, count)
    requires j < count && Measurement(redact, data, j).Ok?
    ensures var m := Measurement(redact, data, j).value;
      Disjoint(m.entryAt, |m.entry|, m.blockAt, |m.block|)
  {
    MeasurementPlaces(redact, data, j);
    var e := TableEntry(data, j);
    assert Disjoint(EntryTableStart, EntrySize * count, e.offset, e.length);
  }

  /** In a layout that lies apart, two measurements write in separate places. */
  lemma MeasurementsApart(redact: Redactor, data: seq<byte>, count: nat, j: nat, l: nat)
    requires Sound(redact) && LayoutApart(data, count)
    requires j < l < count && Measurement(redact, data, j).Ok? && Measurement(redact, data, l).Ok?
    ensures Apart(Measurement(redact, data, j).value, Measurement(redact, data, l).value)
  {
    MeasurementPlaces(redact, data, j);
    MeasurementPlaces(redact, data, l);
    var ej := TableEntry(data, j);
    var el := TableEntry(data, l);
    assert Disjoint(EntryTableStart, EntrySize * count, ej.offset, ej.length);
    assert Disjoint(EntryTableStart, EntrySize * count, el.offset, el.length);
    assert Disjoint(ej.offset, ej.length, el.offset, el.length);
  }

  /**
   * After a successful VD rewrite of a file whose measurements lie apart, the entry and
   * the block of every measurement stand in the output as that measurement produced
   * them; `MeasurementEntry` and `MeasurementBlock` say what they are.
   */
  lemma VdKeepsEveryMeasurement(redact: Redactor, data: seq<byte>)
    requires Sound(redact)
    requires |data| >= ProbeSize && LayoutApart(data, U32At(data, U32Size))
    requires VdRun(redact, data, false).outcome.Ok?
    ensures forall j :: 0 <= j < U32At(data, U32Size) ==>
      Measurement(redact, data, j).Ok? && Keeps(VdRun(redact, data, false).writes, Measurement(redact, data, j).value)
  {
    var count := U32At(data, U32Size);
    var ms := Measurements(redact, data);
    VdRunFold(redact, data, false);
    MeasurementsLieApart(redact, data, count);
    VdFromKeepsAll(ms, count, 0, Place(0, data[..ProbeSize]), None);
    assert forall j :: ms(j) == Measurement(redact, data, j);
  }

  /** The rounds of a layout that lies apart meet what `VdFromKeepsAll` asks of them. */
  lemma MeasurementsLieApart(redact: Redactor, data: seq<byte>, count: nat)
    requires Sound(redact) && LayoutApart(data, count)
    ensures var ms := Measurements(redact, data);
      forall j :: 0 <= j < count && ms(j).Ok? ==>
        Disjoint(ms(j).value.entryAt, |ms(j).value.entry|, ms(j).value.blockAt, |ms(j).value.block|)
    ensures var ms := Measurements(redact, data);
      forall j, l :: 0 <= j < l < count && ms(j).Ok? && ms(l).Ok? ==> Apart(ms(j).value, ms(l).value)
  {
    var ms := Measurements(redact, data);
    forall j | 0 <= j < count && ms(j).Ok?
      ensures Disjoint(ms(j).value.entryAt, |ms(j).value.entry|, ms(j).value.blockAt, |ms(j).value.block|)
    {
      MeasurementSelfApart(redact, data, count, j);
    }
    forall j, l | 0 <= j < l < count && ms(j).Ok? && ms(l).Ok?
      ensures Apart(ms(j).value, ms(l).value)
    {
      MeasurementsApart(redact, data, count, j, l);
    }
  }

  // ---------------------------------------------------------------------------
  // One file
  // ---------------------------------------------------------------------------

  /**
   * What processing one file yields: the recorded values or the failure, and the output
   * file left behind, if any.
   */
  datatype Outcome = Outcome(matches: Result<map<string, string>>, file: Option<map<nat, byte>>)

  /**
   * `read_and_anonymize` as a value: the type test, then the VD or VB rewrite. A file
   * too short for the test fails before any output is opened; with `meta_only` a
   * successful output is removed again, while a failed run leaves what it had written.
   */
  function FileRun(redact: Redactor, data: seq<byte>, metaOnly: bool): Outcome {
    match FileVariant(data)
    case Err(e) => Outcome(Err(e), None)
    case Ok(v) =>
      var run := if v == Vd then VdRun(redact, data, metaOnly) else VbRun(redact, data, metaOnly);
      Outcome(run.outcome, if metaOnly && run.outcome.Ok? then None else Some(run.writes))
  }

  /** The file processing of this model, with its own header anonymization. */
  function AnonymizeFile(data: seq<byte>, metaOnly: bool): Outcome {
    FileRun(RedactText, data, metaOnly)
  }

  /**
   * `meta_only` changes the recorded values or the failure only by skipping the payload
   * reads: a run that writes and succeeds returns the same values, and one that writes
   * and fails differs only by failing on a payload read. Beyond that it decides whether
   * a successful run leaves an output file.
   */
  lemma FileMetaOnly(redact: Redactor, data: seq<byte>)
    ensures FileRun(redact, data, false).matches.Ok? ==>
      FileRun(redact, data, true).matches == FileRun(redact, data, false).matches
    ensures FileRun(redact, data, true).matches == FileRun(redact, data, false).matches ||
      FileRun(redact, data, false).matches == Err(BadReadLength)
    ensures FileRun(redact, data, true).matches.Ok? ==> FileRun(redact, data, true).file.None?
    ensures FileRun(redact, data, false).matches.Ok? ==> FileRun(redact, data, false).file.Some?
    ensures FileRun(redact, data, true).matches.Err? && |data| >= ProbeSize ==>
      FileRun(redact, data, true).file == Some(map[])
  {
    VdMetaOnly(redact, data);
    VbMetaOnly(redact, data);
  }

  /** A file shorter than the two fields of the type test fails without output. */
  lemma FileTooShort(redact: Redactor, data: seq<byte>, metaOnly: bool)
    requires |data| < ProbeSize
    ensures FileRun(redact, data, metaOnly) == Outcome(Err(TruncatedInput), None)
  {
    VariantByPrefix(data);
  }

  /**
   * A VB file processed successfully leaves an output file of the input's length equal
   * to the input except in the header text, where only placeholders appear.
   */
  lemma FileVbLayout(redact: Redactor, data: seq<byte>)
    requires Sound(redact)
    requires FileVariant(data) == Ok(Vb) && FileRun(redact, data, false).matches.Ok?
    ensures |data| >= U32Size
    ensures exists img ::
      FileRun(redact, data, false).file == Some(Place(0, img)) && RedactedCopy(data, img, U32Size, VbTextEnd(data))
  {
    VbKeepsLayout(redact, data);
  }
}
