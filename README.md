# TWIX anonymizer, modelled in Dafny

`twixanonymizer` removes patient-identifying values from Siemens TWIX raw-data files.
The values are text fields inside a binary header block. The tool rewrites each file
so that only those values change, and it records the original values.

This project models the core of `twixanonymizer/anonymize.py`:

- **The type test** (`read_and_anonymize`). Two 32-bit fields are read from the start
  of the file and the input is rewound. The file is VD when the first field is 0 and
  the second is at most 64; otherwise it is VB.
- **The header redactor** (`anonymize_twix_header`). It first derives the exam date
  from the frame-of-reference value (component 10, characters 2 to 8, through
  `_get_date`). Then it runs four catalogs in order:
  - identifiers blanked to `'0' * len`
  - numeric attributes with each digit set to `'0'`
  - required identity fields masked to `'x' * len`
  - sequence parameters that are only recorded

  Last, a sweep masks the digits of every quoted digit-and-dot run that contains the
  date.
- **The date conversion** (`_get_date`). A `YYMMDD` token becomes `YYYY-MM-DD`. The
  year follows the `%y` pivot: 00–68 are 2000–2068 and 69–99 are 1969–1999. A token
  that is not a calendar day is an error.
- **The two container rewriters** (`anonymize_twix_vd`, `anonymize_twix_vb`). They read
  the input with `seek`/`read` and write the output with `seek`/`write`:
  - VD: the measurement table entries, each with its patient name replaced by 64 `x`,
    and at each entry's offset the header block with its text redacted.
  - VB: one header block at position 0, followed by the rest of the file verbatim.

Modules, one per file:

| file | module | what it holds |
|---|---|---|
| `errors.dfy` | `Errors` | the failures (a short read, a read count the file refuses, a seek to 2^63 or beyond, a missing required field, a bad date, no measurements) and `Result`/`Option` |
| `bytes.dfy` | `Bytes` | little-endian fields as `struct` packs them, and latin-1 |
| `dates.dfy` | `Dates` | `_get_date` |
| `matcher.dfy` | `Matcher` | a structured stand-in for the catalog's line-shaped regular expressions: `Find` is `re.search`, `SubFrom` is `re.sub`, `Spans` lists the matches `re.sub` visits |
| `header.dfy` | `Header` | the catalogs, one pass per catalog, the exam date, the sweep, and the method `AnonymizeHeader` that runs the passes as loops |
| `streams.dfy` | `Streams` | the input file (contents and position) and the output file (bytes by position: writes at explicit offsets, with holes) as classes |
| `container.dfy` | `Container` | the type test, the block layout, the VB and VD rewrites as functions of the input bytes, and what they preserve |
| `anonymizer.dfy` | `Anonymizer` | the imperative rewriters: `Classify`, `AnonymizeVb`, `AnonymizeVd` (its loop over the measurement table) and the class `TwixAnonymizer` with `ReadAndAnonymize` |

The container functions and methods take the header anonymizer as a parameter of type
`Redactor`. `Sound(redact)` says that a redactor only puts placeholders in place of
bytes, and `RedactTextSound` proves it of `RedactText`. `RedactText` is the model's own
anonymizer: latin-1 decoding, `AnonymizeHeaderSpec`, and encoding back.
`TwixAnonymizer.ReadAndAnonymize` passes `RedactText`.

The output file is a `map<nat, byte>` from positions to the bytes written there. A VD
file's output holds only the leading fields, the table entries and the measurement
blocks. Positions the source never writes are absent from the map.

### Behaviour of the code that the model keeps

- **A failed run keeps its partial output.** The code removes the output only after a
  successful run with `meta_only` (`anonymize.py:126-127`). An exception raised inside
  a rewriter skips that removal, so `FileRun` keeps the bytes written so far.
- **Running the redactor on its own output is not a no-op.**
  - The `.+` value groups also match the placeholders `000…` and `xxx…`, so those
    fields are recorded again.
  - The blank catalog turns the frame-of-reference value into zeros without dots, so
    by the model's definitions a second run fails with `MissingDateComponent`.
- **A read count or a seek position the file refuses fails.** `read(n)` on a binary
  file raises `ValueError` for `n` below -1 and `OverflowError` for `n` of 2^63 or
  more, which no `Py_ssize_t` holds. `seek(p)` raises for `p` of 2^63 or more. The model
  fails such a read with `BadReadLength` and such a seek with `BadSeekTarget`:
  - A `header_size` of 0, 1 or 2 makes the header read ask for fewer than -1 bytes
    (`anonymize.py:332`, `anonymize.py:382`). The round fails before it writes anything.
  - A VD entry's `offset` is an unsigned 64-bit field. One of 2^63 or more fails the
    seek to the block (`anonymize.py:329`) before the round writes anything.
  - The payload read asks for `length - header_size` bytes (`anonymize.py:357`), with
    `length` an unsigned 64-bit field. The read fails when that count is below -1
    (`length` more than one byte below `header_size`) or 2^63 or more. By then the entry,
    the size field, the text and the trailer are written, and the model keeps those
    writes.
  - With `meta_only` the payload read is never made. Such a file then succeeds with
    `meta_only` and fails without it (`VdMetaOnly`, `FileMetaOnly`).
- **A VD file with no measurements.** The code returns `matches`, which was never
  bound, so the call fails (`anonymize.py:359`). The model returns
  `Err(NoMeasurements)` (`VdNoMeasurements`).

## Model

| member | source | states |
|---|---|---|
| Bytes.LittleEndian | twixanonymizer/anonymize.py:317 | an unpacked unsigned field is below 256^n for its n bytes |
| Bytes.ToLittleEndian | twixanonymizer/anonymize.py:320 | a packed field has exactly the field's width |
| Bytes.EncodeDecode | twixanonymizer/anonymize.py:317-320 | packing an unpacked field reproduces its bytes, so `twix_id` and the count are written back unchanged |
| Bytes.DecodeEncode | twixanonymizer/anonymize.py:342-351 | unpacking a packed value gives the value back |
| Bytes.LittleEndianZero | twixanonymizer/anonymize.py:113 | a field is 0 exactly when all of its bytes are 0 |
| Bytes.Pow256Widths | twixanonymizer/anonymize.py:317-326 | an `I` field holds values below 2^32 and a `Q` field values below 2^64 |
| Bytes.U32At | twixanonymizer/anonymize.py:317 | an `I` field read at a position is below 2^32 |
| Bytes.U64At | twixanonymizer/anonymize.py:324-326 | a `Q` field read at a position is below 2^64 |
| Bytes.Latin1Decode | twixanonymizer/anonymize.py:333 | latin-1 decoding gives one character per byte, with the byte's code |
| Bytes.Latin1Encode | twixanonymizer/anonymize.py:355 | latin-1 encoding gives one byte per character, with the character's code |
| Bytes.Latin1RoundTrip | twixanonymizer/anonymize.py:333-355 | decoding and encoding back is the identity on bytes, and decoded text is always encodable |
| Dates.FullYear | twixanonymizer/anonymize.py:173 | the `%y` pivot: the year lies in 1969..2068 and ends in the two given digits |
| Dates.DaysInMonth | twixanonymizer/anonymize.py:173 | February has 29 days in a leap year and 28 otherwise; April, June, September and November have 30; the other months have 31 |
| Dates.GetDate | twixanonymizer/anonymize.py:162-178 | succeeds exactly on six-digit tokens naming a calendar day. The result is `YYYY-MM-DD` with the century from the pivot and the year digits, month and day copied from the token |
| Dates.GetDateParses | twixanonymizer/anonymize.py:173-176 | round trip: reading the ISO date back gives the token's full year, month and day |
| Matcher.DigitRunEnd | twixanonymizer/anonymize.py:212-217 | a greedy `\d+` run ends at the first non-digit |
| Matcher.LastValueEnd | twixanonymizer/anonymize.py:195-232 | the greedy value group: the largest end in range where the value fits and the tail follows, and none when no end fits |
| Matcher.MatchHeads | twixanonymizer/anonymize.py:207-217 | the first alternative head (optional `t`, `s`, `l`, `<Visible>` spelled out) that leads to a match, every earlier head failing |
| Matcher.MatchAt | twixanonymizer/anonymize.py:195-232 | a match at a position has its value group inside it, in order |
| Matcher.MatchAtIsMatch | twixanonymizer/anonymize.py:195-232 | a match at a position is a match of the pattern, and there is none exactly when every head fails |
| Matcher.Find | twixanonymizer/anonymize.py:245 | `re.search` from a position returns a span placed at or after it |
| Matcher.FindIsLeftmost | twixanonymizer/anonymize.py:245 | the found match is the leftmost one, and nothing is found only when no position matches |
| Matcher.RedactAll | twixanonymizer/anonymize.py:250-252 | a redacted value has the value's length |
| Matcher.SubFrom | twixanonymizer/anonymize.py:248-254 | `re.sub` keeps the text's length |
| Matcher.Spans | twixanonymizer/anonymize.py:248-254 | the matches `re.sub` visits lie in the text and do not overlap |
| Matcher.SpansAreAllMatches | twixanonymizer/anonymize.py:248-254 | the first visited match is the leftmost one, each next one is the leftmost after the previous, and none is left after the last |
| Matcher.SpansMatch | twixanonymizer/anonymize.py:248-254 | every visited span is a match of the pattern |
| Matcher.SubFromPointwise | twixanonymizer/anonymize.py:248-254 | after `re.sub`, a character inside a matched value group is redacted and every other character is the input's |
| Header.Heads | twixanonymizer/anonymize.py:207-217 | one head per spelling of the name, two per spelling when `<Visible>` is optional |
| Header.HeadsInOrder | twixanonymizer/anonymize.py:207-217 | the heads follow the spellings in order; with the optional `<Visible> "true"` group, each spelling's head with the group comes directly before the one without it |
| Header.RunCatalog | twixanonymizer/anonymize.py:244-291 | a catalog pass keeps the text's length |
| Header.ApplyCatalog | twixanonymizer/anonymize.py:244-291 | the loop over one catalog computes exactly the pass `RunCatalog` |
| Header.Split | twixanonymizer/anonymize.py:240 | `split('.')` gives at least one piece, none holding a dot |
| Header.JoinSplit | twixanonymizer/anonymize.py:240 | joining the pieces of a split on the separator gives the string back |
| Header.DateSlice | twixanonymizer/anonymize.py:241 | Python's `[2:8]` clipped to the string |
| Header.ExamDateToken | twixanonymizer/anonymize.py:237-242 | definition of the exam-date token: characters 2 to 8 of the eleventh dot component of the frame-of-reference value; `ExamDateTokenIsSlice` and `HeaderFailures` state its properties |
| Header.AnonymizeHeader | twixanonymizer/anonymize.py:235-299 | the method, pass by pass, computes `AnonymizeHeaderSpec` and keeps the header's length |
| Header.AnonymizeHeaderSpec | twixanonymizer/anonymize.py:235-299 | definition of `anonymize_twix_header` as a value; `HeaderOnlyPlaceholders`, `HeaderRecords`, `SpecMatches` and `HeaderFailures` state its properties |
| Header.SubOnlyPlaceholders | twixanonymizer/anonymize.py:248-285 | one substitution has the text's length and changes characters only into `'0'` or `'x'` |
| Header.StepRewrite | twixanonymizer/anonymize.py:244-285 | one rewrite field records the first match's value under its key, and the new text is the old one with every matched value redacted |
| Header.Step | twixanonymizer/anonymize.py:245-291 | definition of one catalog field: search, record the first value, rewrite every match, or skip or fail when absent; `StepRewrite` and `AbsentFieldSkipped` state its cases |
| Header.RunCatalogPlaceholders | twixanonymizer/anonymize.py:244-285 | a catalog pass changes the text only by placeholders |
| Header.RunCatalogRecords | twixanonymizer/anonymize.py:244-291 | a pass records only its own keys, keeps every key recorded before it, and leaves other keys' values alone |
| Header.OptionalPassSucceeds | twixanonymizer/anonymize.py:244-270 | the blank, digit-zero and record passes never fail |
| Header.AbsentFieldSkipped | twixanonymizer/anonymize.py:245-270 | a field of the blank, digit-zero or record pass that has no match leaves the text and the recorded values as they were |
| Header.OptionalPassRecordsOnlyMatches | twixanonymizer/anonymize.py:244-270 | the blank, digit-zero and record passes never fail, and each key they add belongs to a field that matched the text its predecessors left |
| Header.RequiredPassRecordsAll | twixanonymizer/anonymize.py:272-285 | the mask pass either records every mask key or fails; the failure names a mask field whose earlier fields all passed and whose pattern has no match in the text they left |
| Header.PrefixAfterStep | twixanonymizer/anonymize.py:272-285 | proof step: the pass over the first k+1 fields is the first field's step followed by the pass over the next k |
| Header.RecordPassKeepsText | twixanonymizer/anonymize.py:288-291 | the record pass leaves the text unchanged and records exactly the keys of the fields that match; a matching field with no later field of the same key records its first match's value |
| Header.NumberBlankKeyList | twixanonymizer/anonymize.py:194-205 | the keys of the blank catalog, in order |
| Header.DigitZeroKeyList | twixanonymizer/anonymize.py:211-218 | the keys of the digit-zero catalog, in order |
| Header.MaskKeyList | twixanonymizer/anonymize.py:206-210 | the keys of the mask catalog, in order |
| Header.MetaKeyList | twixanonymizer/anonymize.py:219-233 | the keys of the record-only catalog, in order |
| Header.ExamDateKeyIsNotACatalogKey | twixanonymizer/anonymize.py:242 | `Exam_date` is the key of no catalog field, so no pass overwrites it |
| Header.HeaderOnlyPlaceholders | twixanonymizer/anonymize.py:244-297 | the redacted header has the input's length and differs from it only by `'0'` and `'x'` |
| Header.FourRecord | twixanonymizer/anonymize.py:244-291 | the four passes in a row add every mask key, only catalog keys, and keep earlier values of other keys |
| Header.CatalogsRecord | twixanonymizer/anonymize.py:244-291 | the same for the actual four catalogs |
| Header.HeaderRecords | twixanonymizer/anonymize.py:235-299 | a successful run records the converted exam date under `Exam_date`, every mask key, and nothing but catalog keys besides |
| Header.SpecMatches | twixanonymizer/anonymize.py:235-299 | a successful run's recorded values are those of the four passes started with only the exam date recorded; the sweep records nothing |
| Header.HeaderFailures | twixanonymizer/anonymize.py:237-285 | a run fails only for a missing frame-of-reference value, too few dot components, an invalid date or a missing mask field |
| Header.ExamDateTokenIsSlice | twixanonymizer/anonymize.py:237-241 | a valid token is characters 2 to 8 of the eleventh dot component of the quoted value |
| Header.SweepSpan | twixanonymizer/anonymize.py:293-297 | a sweep match is a quoted run of digits and dots that contains the token |
| Header.SweepPattern | twixanonymizer/anonymize.py:293-297 | definition of the sweep pattern, a quoted digit-and-dot run holding the token; `SweepSpan` and `SweepMasksDateRuns` state its properties |
| Header.SweepMasksDateRuns | twixanonymizer/anonymize.py:293-297 | the sweep keeps the length; inside each quoted date run digits become `x` and dots stay; every other character stays |
| Streams.ReadAtFacts | twixanonymizer/anonymize.py:325-332 | `read(n)` for a count the file accepts (-1 up to below 2^63) returns consecutive bytes from the position: `n` of them when available, and to the end of the file when fewer are left or `n` is -1 |
| Streams.InStream.Read | twixanonymizer/anonymize.py:325 | a read of a count the file accepts (-1 up to below 2^63) returns the bytes at the position and advances it by their number; callers fail any other count |
| Streams.InStream.Seek | twixanonymizer/anonymize.py:323-329 | a seek to a position below 2^63, even past the end of the file, sets the position; callers fail any other position |
| Streams.OutStream.Write | twixanonymizer/anonymize.py:341 | a write lays its bytes down from the position, over what was there, and advances the position |
| Streams.OutStream.Seek | twixanonymizer/anonymize.py:340 | a seek moves the output position and changes no byte |
| Streams.PlaceConcat | twixanonymizer/anonymize.py:354-357 | consecutive writes lay down their concatenation |
| Container.VariantByPrefix | twixanonymizer/anonymize.py:105-120 | the type test fails exactly on files shorter than 8 bytes; a file is VD exactly when bytes 0–3 are zero and the second field is at most 64 |
| Container.VariantIgnoresRest | twixanonymizer/anonymize.py:105-120 | only the first eight bytes decide the variant |
| Container.FileVariant | twixanonymizer/anonymize.py:105-113 | definition of the type test: a short file fails, VD when the first field is 0 and the second at most 64, VB otherwise; `VariantByPrefix` and `VariantIgnoresRest` state these as properties |
| Container.TrailerPart | twixanonymizer/anonymize.py:333-356 | `header[:-24]` and `header[-24:]` put together are the header; the trailer has 24 bytes, or fewer when the header is shorter |
| Container.EncodePlaceholders | twixanonymizer/anonymize.py:333-355 | encoding a placeholder-redacted latin-1 text gives a same-length redacted copy of its bytes |
| Container.RedactText | twixanonymizer/anonymize.py:333-337 | the anonymized text part is a same-length copy of the bytes with only placeholders changed |
| Container.RedactTextSound | twixanonymizer/anonymize.py:333-355 | the model's header anonymization is a sound redactor |
| Container.RedactedMiddle | twixanonymizer/anonymize.py:353-357 | a redacted copy of a middle part, kept between unchanged parts, is a redacted copy of the whole, changed only in that part |
| Container.BlockLayout | twixanonymizer/anonymize.py:353-357 | size field, redacted text, trailer and payload form the original block with only the text redacted |
| Container.ReadBlock | twixanonymizer/anonymize.py:329-332 | reading a block fails with `TruncatedInput` exactly when the size field is cut short, and with `BadReadLength` exactly when `header_size` is below 3; the size field read is the file's bytes at the offset |
| Container.ReadBlockInPlace | twixanonymizer/anonymize.py:329-357 | the parts read are consecutive bytes of the file, and with a fitting size field they cover exactly `length` bytes |
| Container.WriteBlockLayout | twixanonymizer/anonymize.py:353-357 | a block written back with a redacted text is a redacted copy of the block read |
| Container.VbKeepsLayout | twixanonymizer/anonymize.py:379-394 | a successful VB rewrite writes from position 0 a copy of the whole input, changed only in the header text and only by placeholders |
| Container.VbImage | twixanonymizer/anonymize.py:379-394 | a VB block written back with a redacted text is a redacted copy of the whole file |
| Container.VbRun | twixanonymizer/anonymize.py:379-396 | definition of `anonymize_twix_vb` as its writes and outcome; `VbKeepsLayout`, `VbRunByParts` and `VbMetaOnly` state its properties |
| Container.VbRunByParts | twixanonymizer/anonymize.py:379-394 | the VB rewrite in source order: a short size field fails, a `header_size` below 3 fails, a failing header fails, and otherwise the size, text, trailer and rest of the file are written |
| Container.VbMetaOnly | twixanonymizer/anonymize.py:390-396 | with `meta_only` the VB rewrite writes nothing and returns the same as without it |
| Container.DecodeEntry | twixanonymizer/anonymize.py:324-326 | an unpacked entry's fields fit their widths |
| Container.EncodeEntry | twixanonymizer/anonymize.py:342-351 | a packed entry has 152 bytes |
| Container.EntryRoundTrip | twixanonymizer/anonymize.py:324-351 | re-packing an unpacked entry reproduces its bytes |
| Container.EntryDecodeEncode | twixanonymizer/anonymize.py:324-351 | unpacking a packed entry gives the entry back |
| Container.Repeat | twixanonymizer/anonymize.py:327 | `"x" * 64`: n copies of one byte |
| Container.Anonymized | twixanonymizer/anonymize.py:327-351 | the rewritten entry still fits its widths |
| Container.AnonymizedEntryBytes | twixanonymizer/anonymize.py:340-351 | the rewritten entry is the original with bytes 24–88 replaced by 64 `x` and nothing else changed |
| Container.Measurement | twixanonymizer/anonymize.py:323-357 | definition of one round of the measurement loop from the table entry on; `MeasurementEntry`, `MeasurementBlock` and `MeasurementPlaces` state its properties |
| Container.MeasureEntry | twixanonymizer/anonymize.py:329-357 | definition of the round after its entry is unpacked: the seek to the entry's offset, block read, header redaction, rewritten entry and block, and whether the payload read raises; `MeasureEntryFails` and `MeasureEntryByParts` state its cases |
| Container.VdFrom | twixanonymizer/anonymize.py:322-359 | definition of the measurement loop as a fold over the rounds; `VdFromSucceeds`, `VdFromLast`, `VdFromMetaOnly` and `VdFromKeepsAll` state its properties |
| Container.VdRun | twixanonymizer/anonymize.py:302-359 | definition of `anonymize_twix_vd` as its writes and outcome; `VdOutcome`, `VdMetaOnly`, `VdNoMeasurements` and `VdKeepsEveryMeasurement` state its properties |
| Container.ReadBlockByParts | twixanonymizer/anonymize.py:329-357 | proof step: a block read as the source reads it: size field, then header, then `length - header_size` payload bytes, or no payload when the file refuses that count (below -1, or 2^63 or more) |
| Container.MeasureEntryFails | twixanonymizer/anonymize.py:329-337 | a round fails on an offset of 2^63 or more (the seek), on a short size field, on a `header_size` below 3, or when the header is refused, each with its own error |
| Container.MeasureEntryByParts | twixanonymizer/anonymize.py:329-357 | a round that gets past the header produces the rewritten entry and the block from its parts, and records that its payload read raises exactly when `length - header_size` is below -1 or 2^63 or more |
| Container.VdFromStep | twixanonymizer/anonymize.py:322-357 | proof step: one round of the measurement loop: its writes are added first; a round that fails, or whose payload read raises while writing, ends the run; otherwise the loop moves on |
| Container.AfterRoundOver | twixanonymizer/anonymize.py:339-357 | a round's writes land on top of everything written before, whatever that was |
| Container.VdPrefixUnchanged | twixanonymizer/anonymize.py:317-320 | the two leading fields are written back as they were read |
| Container.VdFromSucceeds | twixanonymizer/anonymize.py:322-359 | the loop succeeds exactly when some round ran and every remaining round's outcome is a success: the round got past its header and, when writing, its payload read succeeded |
| Container.VdFromLast | twixanonymizer/anonymize.py:322-359 | a successful loop returns the matches of its last round |
| Container.VdFromMetaOnly | twixanonymizer/anonymize.py:319-339 | with `meta_only` the loop writes nothing; a writing loop that succeeds has the same outcome, and one that fails differs at most by failing on a payload read |
| Container.VdRunFold | twixanonymizer/anonymize.py:317-322 | once the leading fields are read, VD is the loop over the announced measurements, starting from the leading fields written back unchanged |
| Container.VdOutcome | twixanonymizer/anonymize.py:317-359 | VD succeeds exactly when the file has its leading fields, announces at least one measurement, and every measurement is processed and has a payload count the file accepts. It returns the last measurement's matches only |
| Container.VdMetaOnly | twixanonymizer/anonymize.py:317-359 | with `meta_only` VD writes nothing and succeeds exactly when every measurement gets past its header; a writing run that succeeds returns the same, and one that fails differs at most by failing on a payload read |
| Container.VdNoMeasurements | twixanonymizer/anonymize.py:322-359 | a file announcing no measurement fails even when it is otherwise complete |
| Container.MeasurementEntry | twixanonymizer/anonymize.py:323-351 | measurement i's entry is written back at `8 + 152 i`, equal to the original except for the 64 name bytes |
| Container.MeasurementParts | twixanonymizer/anonymize.py:323-357 | proof step: a processed measurement is its rewritten entry and its block read at the entry's offset and written back with the anonymizer's text |
| Container.MeasurementBlock | twixanonymizer/anonymize.py:329-357 | for a well-formed entry (its block inside the file and ending below 2^63) the payload read succeeds and the block is rewritten at its offset as a copy of `length` bytes, changed only in the header text and only by placeholders |
| Container.SoundBlock | twixanonymizer/anonymize.py:329-357 | a sound anonymizer rewrites a well-formed entry's block as a redacted copy |
| Container.FittingBlock | twixanonymizer/anonymize.py:353-357 | a block that fits its length, a count the file accepts, is rewritten as a redacted copy of its bytes |
| Container.VdFromLastBlock | twixanonymizer/anonymize.py:322-357 | a successful loop ends with the last round's block present and not overwritten in the output |
| Container.VdLastBlock | twixanonymizer/anonymize.py:339-359 | after a successful VD rewrite, the last measurement's block stands in the output as that measurement produced it |
| Container.OverlayKept | twixanonymizer/anonymize.py:339-357 | a write that misses every position of a region leaves that region standing |
| Container.RoundKeeps | twixanonymizer/anonymize.py:339-357 | a round whose entry and block miss an earlier round's entry and block leaves both standing |
| Container.VdFromKeepsRound | twixanonymizer/anonymize.py:322-357 | the later rounds of the loop leave standing a round that none of them overlaps |
| Container.VdFromKeepsAll | twixanonymizer/anonymize.py:322-357 | a successful loop whose rounds do not overlap, each within itself or one another, ends with every round's entry and block standing |
| Container.MeasurementPlaces | twixanonymizer/anonymize.py:323-357 | a well-formed measurement writes its 152-byte entry at its table position and its `length`-byte block at its offset |
| Container.MeasurementSelfApart | twixanonymizer/anonymize.py:323-357 | when no block overlaps the table, a measurement's entry and block do not overlap |
| Container.MeasurementsApart | twixanonymizer/anonymize.py:323-357 | when blocks overlap neither the table nor one another, two measurements write in separate places |
| Container.MeasurementsLieApart | twixanonymizer/anonymize.py:322-357 | such a layout gives the loop rounds that do not overlap |
| Container.VdKeepsEveryMeasurement | twixanonymizer/anonymize.py:322-359 | after a successful VD rewrite of a well-formed file whose blocks overlap neither the table nor one another, every measurement's entry and block stand in the output as it produced them |
| Container.FileMetaOnly | twixanonymizer/anonymize.py:103-127 | `meta_only` does not change the recorded values of a run that succeeds without it, and otherwise changes the outcome at most from a payload-read failure. A successful run leaves no output with it and an output without it. A failed run with it leaves its (empty) output |
| Container.FileTooShort | twixanonymizer/anonymize.py:105-106 | a file shorter than 8 bytes fails before any output is opened |
| Container.FileVbLayout | twixanonymizer/anonymize.py:118-127 | a successful VB file leaves an output equal to the input except for placeholders in the header text |
| Container.FileRun | twixanonymizer/anonymize.py:103-127 | definition of `read_and_anonymize` as its recorded values and output file; `FileMetaOnly`, `FileTooShort` and `FileVbLayout` state its properties |
| Container.AnonymizeFile | twixanonymizer/anonymize.py:103-127 | `FileRun` with the model's own header anonymizer; `TwixAnonymizer.ReadAndAnonymize` computes it |
| Anonymizer.RedactHeaderText | twixanonymizer/anonymize.py:333-337 | the header method on a text part's bytes computes `RedactText` |
| Anonymizer.Classify | twixanonymizer/anonymize.py:105-108 | the type test returns `FileVariant` of the file and, when it succeeds, leaves the input at position 0 |
| Anonymizer.ReadHeaderBlock | twixanonymizer/anonymize.py:331-332 | reads the size field and `header_size - 4` header bytes; fails with `TruncatedInput` exactly on a short size field and with `BadReadLength` exactly on a `header_size` below 3; leaves the position after the header |
| Anonymizer.WriteBackBlock | twixanonymizer/anonymize.py:353-357 | writes size, text, trailer and the next n input bytes as one block at the output position; it succeeds exactly when the file accepts n as a count, and otherwise writes the block without payload and reports the failed read |
| Anonymizer.AnonymizeVb | twixanonymizer/anonymize.py:362-396 | returns VB's outcome and leaves exactly VB's writes in the output |
| Anonymizer.ProcessMeasurement | twixanonymizer/anonymize.py:323-357 | one loop round, computing `Measurement`: a round that fails before writing (the seek to an offset of 2^63 or more included) writes nothing; otherwise it writes the entry and then the block, or nothing with `meta_only`, and fails after those writes when its payload read raises |
| Anonymizer.ProcessEntry | twixanonymizer/anonymize.py:329-357 | the round after the entry is unpacked, the seek to its offset first, computing `MeasureEntry` with the same contract |
| Anonymizer.ProcessHeader | twixanonymizer/anonymize.py:331-357 | the round after the size field and the header are read, with the same contract |
| Anonymizer.FinishRound | twixanonymizer/anonymize.py:339-357 | the round after the header is redacted: it writes the round's entry and block (`RoundBlock`), unless `meta_only`, and fails exactly when writing and the file refuses the payload count |
| Anonymizer.WriteRound | twixanonymizer/anonymize.py:339-357 | writes the rewritten entry at its table position and the block at its offset, the block winning where they overlap; reports that the payload read succeeded exactly when the file accepts `length - header_size` as a count |
| Anonymizer.AnonymizeVd | twixanonymizer/anonymize.py:302-359 | returns VD's outcome and leaves exactly VD's writes in the output |
| Anonymizer.ProcessFile | twixanonymizer/anonymize.py:103-121 | the type test, a fresh output and the chosen rewrite compute `FileRun` |
| Anonymizer.TwixAnonymizer.constructor | twixanonymizer/anonymize.py:55-89 | a new anonymizer has its `meta_only`, no recorded values and no output |
| Anonymizer.TwixAnonymizer.ReadAndAnonymize | twixanonymizer/anonymize.py:103-127 | the result and the output left behind are `AnonymizeFile` of the input, and the recorded values change only on success |

## Left out

- The command line, directory globbing, the progress bar, logging and `main`
  (`anonymize.py:22-51`, `399-459`): input/output plumbing.
- `write_csv` (`anonymize.py:129-159`): a CSV read-append-write through pandas, a
  foreign library. `ReadAndAnonymize` does not call it.
- The random output name and `self.filename`: the output is a fresh `OutStream`.
  The removal under `meta_only` is modelled as "no output left" (`file == None`).
- Regular expressions in general. Each catalog pattern is a fixed line shape:
  - `\s*` is the spacing the headers use: two spaces before `{` and one after it, one
    space before and after the `<Precision>` number, single spaces around
    `<Visible>` in ` <Visible> "true"`, and two spaces before `}`.
  - The unescaped `.` in `ParamString.`, `ParamLong.` and `ParamDouble.` matches only a
    literal dot.
  - The optional `t`, `s`, `l` and `<Visible> "true"` groups are alternative heads,
    tried in the order backtracking tries them.
- Dates.GetDate: `strptime` parses leniently, but the model does not accept
  single-digit months and days or surrounding spaces. A date token must be six digits.
- `struct`'s native alignment and byte order: fields are packed little-endian, which
  gives the 152-byte entry.
- Holes in a VD output: an unwritten position reads as zero on a real file system.
  The model leaves it out of the map, so no whole-file identity is stated for VD, only
  per written region (`MeasurementEntry`, `MeasurementBlock`, `VdKeepsEveryMeasurement`).
- Anonymizer.AnonymizeVd: takes the header anonymizer as a function value `redact`,
  where the source calls `anonymize_twix_header` directly. `ReadAndAnonymize` passes
  `RedactText`, and `RedactHeaderText` shows that the header method computes it.
- Anonymizer.AnonymizeVb: the same parameterization as `AnonymizeVd`.
- Container.VdKeepsEveryMeasurement: needs a layout whose blocks overlap neither the
  measurement table nor one another. When they do overlap, a later measurement's writes
  win and only the last block has an overlay statement (`VdLastBlock`).
- Memory: a read count below 2^63 that no memory can hold fails on a real machine with
  `MemoryError`. Where that limit lies depends on the machine, so the model lets such a
  read return what the file has.
