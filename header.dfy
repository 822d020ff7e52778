/**
 * The header text redactor `anonymize_twix_header`: the exam date taken from the
 * frame-of-reference value, the four field catalogs run in order, then the date sweep.
 */
module Header {
  import opened Errors
  import opened Dates
  import opened Matcher

  /**
   * A field of the catalog: the key its original value is recorded under and the
   * pattern that finds it.
   */
  datatype Field = Field(key: string, pattern: Pattern)

  /** What a catalog does with a match: rewrite its value groups, or only record it. */
  datatype Mode = Rewrite(policy: Policy, required: bool) | Record

  /** The header text being redacted and the original values recorded so far. */
  datatype Redaction = Redaction(text: string, matches: map<string, string>)

  // ---------------------------------------------------------------------------
  // The catalog
  // ---------------------------------------------------------------------------

  const QuotedTail: string := "\"  }\n"
  const NumberTail: string := "  }\n"
  const VisibleTrue: string := " <Visible> \"true\""

  /** `<Kind."Name">  {`, the opening of a parameter line. */
  function Opening(kind: string, name: string): string {
    "<" + kind + ".\"" + name + "\">  {"
  }

  /**
   * One head of a parameter line: the opening for `name`, with or without the
   * `<Visible> "true"` group, followed by the pieces `after`.
   */
  function Head(kind: string, name: string, withVisible: bool, after: seq<Piece>): seq<Piece> {
    if withVisible then [Lit(Opening(kind, name) + VisibleTrue)] + after else [Lit(Opening(kind, name))] + after
  }

  /**
   * The alternative heads of a parameter line: one per spelling of the name, each
   * first with the optional `<Visible> "true"` group (when `visible`) and then without
   * it, followed by the pieces `after`.
   */
  function Heads(kind: string, names: seq<string>, visible: bool, after: seq<Piece>): (hs: seq<seq<Piece>>)
    ensures |hs| == |names| * (if visible then 2 else 1)
  {
    if names == [] then []
    else
      (if visible then [Head(kind, names[0], true, after)] else [])
        + [Head(kind, names[0], false, after)]
        + Heads(kind, names[1..], visible, after)
  }

  /**
   * The heads come in the order of the spellings; with `visible`, each spelling's head
   * with the `<Visible> "true"` group comes right before the one without it.
   */
  lemma {:induction false} HeadsInOrder(kind: string, names: seq<string>, visible: bool, after: seq<Piece>)
    ensures var hs := Heads(kind, names, visible, after);
      visible ==> forall j :: 0 <= j < |names| ==>
        hs[2 * j] == Head(kind, names[j], true, after) && hs[2 * j + 1] == Head(kind, names[j], false, after)
    ensures var hs := Heads(kind, names, visible, after);
      !visible ==> forall j :: 0 <= j < |names| ==> hs[j] == Head(kind, names[j], false, after)
  {
    if names != [] {
      HeadsInOrder(kind, names[1..], visible, after);
      var hs := Heads(kind, names, visible, after);
      var rest := Heads(kind, names[1..], visible, after);
      var k := if visible then 2 else 1;
      assert hs[k..] == rest;
      forall j | 1 <= j < |names|
        ensures names[1..][j - 1] == names[j]
      {
      }
    }
  }

  const QuoteOpen: seq<Piece> := [Lit(" \"")]
  const Space: seq<Piece> := [Lit(" ")]
  const Precision: seq<Piece> := [Lit(" <Precision> "), Number, Lit(" ")]
  const UnitPrecision: seq<Piece> := [Lit(" <Unit> \"[mm]\" <Precision> "), Number, Lit(" ")]

  /** A `<ParamString."Name">` line with a quoted value. */
  function StringLine(names: seq<string>, visible: bool, value: ValueClass): Pattern {
    Pattern(Heads("ParamString", names, visible, QuoteOpen), value, QuotedTail)
  }

  /** A `<ParamLong."Name">` line with an integer value. */
  function LongLine(names: seq<string>, visible: bool): Pattern {
    Pattern(Heads("ParamLong", names, visible, Space), Digits, NumberTail)
  }

  /** A `<ParamDouble."Name">` line with a decimal value after its precision (and unit). */
  function DoubleLine(name: string, visible: bool, after: seq<Piece>): Pattern {
    Pattern(Heads("ParamDouble", [name], visible, after), Decimal, NumberTail)
  }

  /** Identifiers whose value becomes `'0' * len` (`number_buffer`). */
  const NumberBlankFields: seq<Field> := [
    Field("Patient_id", StringLine(["PatientID"], false, AnyText)),
    Field("Device_serial", StringLine(["DeviceSerialNumber"], false, AnyText)),
    Field("Exam_memory_uid", StringLine(["ExamMemoryUID"], false, AnyText)),
    Field("PatientLOID", StringLine(["PatientLOID"], false, AnyText)),
    Field("StudyLOID", StringLine(["StudyLOID"], false, AnyText)),
    Field("SeriesLOID", StringLine(["SeriesLOID"], false, AnyText)),
    Field("Study", StringLine(["Study"], false, AnyText)),
    Field("FrameOfReference", StringLine(["FrameOfReference"], false, AnyText)),
    Field("Patient", StringLine(["Patient"], false, AnyText)),
    Field("MeasUID", StringLine(["MeasUID"], false, AnyText))
  ]

  /** Numeric attributes whose digits each become `'0'` (`zero_buffer`). */
  const DigitZeroFields: seq<Field> := [
    Field("Patient_gender", LongLine(["lPatientSex", "PatientSex"], true)),
    Field("Patient_age", DoubleLine("flPatientAge", true, Precision)),
    Field("Patient_weight", DoubleLine("flUsedPatientWeight", true, Precision)),
    Field("Patient_height", DoubleLine("flPatientHeight", true, UnitPrecision)),
    Field("Patient_birthday", StringLine(["PatientBirthDay"], true, EightDigits)),
    Field("ulVersion", LongLine(["ulVersion"], true))
  ]

  /** Free-text identity fields masked with `'x' * len`; each must be present (`x_buffer`). */
  const MaskFields: seq<Field> := [
    Field("Patient_name", StringLine(["tPatientsName", "tPatientName", "PatientsName", "PatientName"], true, AnyText)),
    Field("InstitutionAddress", StringLine(["InstitutionAddress"], true, AnyText)),
    Field("InstitutionName", StringLine(["InstitutionName"], true, AnyText))
  ]

  /** Sequence and geometry parameters that are recorded but left in the text (`meta_buffer`). */
  const MetaFields: seq<Field> := [
    Field("tBodyPartExamined", StringLine(["tBodyPartExamined"], false, AnyText)),
    Field("Sequence", StringLine(["SequenceDescription"], false, AnyText)),
    Field("TurboFactor", LongLine(["TurboFactor"], false)),
    Field("ReadoutOversamplingFactor", DoubleLine("ReadoutOversamplingFactor", false, Precision)),
    Field("NSlc", LongLine(["NSlc"], false)),
    Field("PhaseEncodingLines", LongLine(["PhaseEncodingLines"], false)),
    Field("ReadFoV", DoubleLine("ReadFoV", false, Precision)),
    Field("PhaseFoV", DoubleLine("PhaseFoV", false, Precision)),
    Field("PhaseResolution", DoubleLine("PhaseResolution", false, Precision)),
    Field("TR", DoubleLine("TR", false, Precision)),
    Field("TI", DoubleLine("TI", false, Precision)),
    Field("flMagneticFieldStrength", DoubleLine("flMagneticFieldStrength", false, Precision)),
    Field("PatientPosition", StringLine(["PatientPosition"], false, AnyText))
  ]

  const BlankMode: Mode := Rewrite(Blank, false)
  const ZeroMode: Mode := Rewrite(ZeroDigits, false)
  const MaskMode: Mode := Rewrite(Mask, true)

  /** The key under which the derived exam date is recorded. */
  const ExamDateKey: string := "Exam_date"

  function Keys(fs: seq<Field>): (ks: set<string>)
    ensures forall k :: 0 <= k < |fs| ==> fs[k].key in ks
  {
    if fs == [] then {} else {fs[0].key} + Keys(fs[1..])
  }

  // ---------------------------------------------------------------------------
  // One catalog pass
  // ---------------------------------------------------------------------------

  /**
   * One field: `re.search` for its first match; when found, record the first match's
   * value and (in a rewrite pass) `re.sub` every match; when absent, skip it, or fail
   * for a required field.
   */
  function Step(f: Field, mode: Mode, r: Redaction): Result<Redaction> {
    match Find(f.pattern, r.text, 0)
    case None =>
      if mode.Rewrite? && mode.required then Err(MissingField(f.key)) else Ok(r)
    case Some(s) =>
      var recorded := r.matches[f.key := r.text[s.valueStart..s.valueEnd]];
      if mode.Rewrite? then Ok(Redaction(SubFrom(f.pattern, mode.policy, r.text, 0), recorded))
      else Ok(Redaction(r.text, recorded))
  }

  /** A whole catalog, field by field in order, stopping at the first failure. */
  function RunCatalog(fs: seq<Field>, mode: Mode, r: Redaction): (out: Result<Redaction>)
    ensures out.Ok? ==> |out.value.text| == |r.text|
    decreases |fs|
  {
    if fs == [] then Ok(r)
    else
      match Step(fs[0], mode, r)
      case Err(e) => Err(e)
      case Ok(r') => RunCatalog(fs[1..], mode, r')
  }

  /** The loop over one catalog, reassigning the text and inserting into the matches. */
  method ApplyCatalog(fs: seq<Field>, mode: Mode, r0: Redaction) returns (out: Result<Redaction>)
    ensures out == RunCatalog(fs, mode, r0)
  {
    var text := r0.text;
    var matches := r0.matches;
    var i := 0;
    while i < |fs|
      invariant 0 <= i <= |fs|
      invariant RunCatalog(fs, mode, r0) == RunCatalog(fs[i..], mode, Redaction(text, matches))
    {
      var f := fs[i];
      assert fs[i..][0] == f && fs[i..][1..] == fs[i + 1..];
      var found := Find(f.pattern, text, 0);
      if found.Some? {
        var s := found.value;
        matches := matches[f.key := text[s.valueStart..s.valueEnd]];
        if mode.Rewrite? {
          text := SubFrom(f.pattern, mode.policy, text, 0);
        }
      } else if mode.Rewrite? && mode.required {
        return Err(MissingField(f.key));
      }
      i := i + 1;
    }
    return Ok(Redaction(text, matches));
  }

  // ---------------------------------------------------------------------------
  // The exam date
  // ---------------------------------------------------------------------------

  /** `(<ParamString."FrameOfReference">  { )(".+")(  }\n)`: the value keeps its quotes. */
  const FrameOfReferenceSearch: Pattern :=
    Pattern([[Lit("<ParamString.\"FrameOfReference\">  { ")]], Quoted, NumberTail)

  function IndexOf(s: string, c: char): (k: nat)
    requires c in s
    ensures k < |s| && s[k] == c && c !in s[..k]
  {
    if s[0] == c then 0 else
      var k := IndexOf(s[1..], c);
      assert s[1..][..k] == s[1..k + 1];
      1 + k
  }

  /** `str.join` with a one-character separator. */
  function Join(parts: seq<string>, sep: char): string
    requires |parts| >= 1
  {
    if |parts| == 1 then parts[0] else parts[0] + [sep] + Join(parts[1..], sep)
  }

  /** `str.split(sep)`: the pieces between separators, empty ones included. */
  function Split(s: string, sep: char): (parts: seq<string>)
    ensures |parts| >= 1
    ensures forall k :: 0 <= k < |parts| ==> sep !in parts[k]
    decreases |s|
  {
    if sep in s then
      var k := IndexOf(s, sep);
      [s[..k]] + Split(s[k + 1..], sep)
    else [s]
  }

  /** Splitting and joining back on the same separator gives the string back. */
  lemma {:induction false} JoinSplit(s: string, sep: char)
    ensures Join(Split(s, sep), sep) == s
    decreases |s|
  {
    if sep in s {
      var k := IndexOf(s, sep);
      JoinSplit(s[k + 1..], sep);
      var parts := Split(s, sep);
      assert parts[1..] == Split(s[k + 1..], sep);
      assert s == s[..k] + [sep] + s[k + 1..];
    }
  }

  /** Python's `s[2:8]`: clipped to the string, never an error. */
  function DateSlice(c: string): (r: string)
    ensures |c| >= 8 ==> r == c[2..8]
    ensures |c| < 8 ==> r == (if |c| <= 2 then "" else c[2..])
  {
    var lo := if |c| < 2 then |c| else 2;
    var hi := if |c| < 8 then |c| else 8;
    c[lo..hi]
  }

  /**
   * The raw `YYMMDD` token: component 10 of the dot-split frame-of-reference value,
   * characters 2 to 8.
   */
  function ExamDateToken(text: string): Result<string> {
    match Find(FrameOfReferenceSearch, text, 0)
    case None => Err(MissingField("FrameOfReference"))
    case Some(s) =>
      var parts := Split(text[s.valueStart..s.valueEnd], '.');
      if |parts| < 11 then Err(MissingDateComponent) else Ok(DateSlice(parts[10]))
  }

  /** The final sweep: a quoted run of digits and dots that contains the token. */
  function SweepPattern(token: string): Pattern {
    Pattern([[Lit("\"")]], DateRun(token), "\"")
  }

  // ---------------------------------------------------------------------------
  // The whole header
  // ---------------------------------------------------------------------------

  /** Four catalog passes in a row: rewrite, rewrite, rewrite, record. */
  function RunFour(c1: seq<Field>, c2: seq<Field>, c3: seq<Field>, c4: seq<Field>, r: Redaction): Result<Redaction> {
    var r1 :- RunCatalog(c1, BlankMode, r);
    var r2 :- RunCatalog(c2, ZeroMode, r1);
    var r3 :- RunCatalog(c3, MaskMode, r2);
    RunCatalog(c4, Record, r3)
  }

  /** The four catalog passes in the source's order: blank, digit-zero, mask, record. */
  function RunCatalogs(r: Redaction): Result<Redaction> {
    RunFour(NumberBlankFields, DigitZeroFields, MaskFields, MetaFields, r)
  }

  /** `anonymize_twix_header` as a value: the redacted text and the recorded matches. */
  function AnonymizeHeaderSpec(text: string): Result<Redaction> {
    var token :- ExamDateToken(text);
    var date :- GetDate(token);
    var r4 :- RunCatalogs(Redaction(text, map[ExamDateKey := date]));
    Ok(Redaction(SubFrom(SweepPattern(token), WordMask, r4.text, 0), r4.matches))
  }

  /** `anonymize_twix_header`, pass by pass, as the source runs it. */
  method AnonymizeHeader(text: string) returns (out: Result<Redaction>)
    ensures out == AnonymizeHeaderSpec(text)
    ensures out.Ok? ==> |out.value.text| == |text|
  {
    var token := ExamDateToken(text);
    if token.Err? { return Err(token.error); }
    var date := GetDate(token.value);
    if date.Err? { return Err(date.error); }
    var r := Ok(Redaction(text, map[ExamDateKey := date.value]));
    r := ApplyCatalog(NumberBlankFields, BlankMode, r.value);
    if r.Err? { return r; }
    r := ApplyCatalog(DigitZeroFields, ZeroMode, r.value);
    if r.Err? { return r; }
    r := ApplyCatalog(MaskFields, MaskMode, r.value);
    if r.Err? { return r; }
    r := ApplyCatalog(MetaFields, Record, r.value);
    if r.Err? { return r; }
    var swept := SubFrom(SweepPattern(token.value), WordMask, r.value.text, 0);
    return Ok(Redaction(swept, r.value.matches));
  }

  // ---------------------------------------------------------------------------
  // What the passes promise
  // ---------------------------------------------------------------------------

  /** `after` has the length of `before` and differs from it only by placeholder characters. */
  predicate OnlyPlaceholders(before: string, after: string) {
    |after| == |before| &&
    forall q :: 0 <= q < |before| ==> after[q] == before[q] || after[q] == '0' || after[q] == 'x'
  }

  lemma PlaceholdersTransitive(a: string, b: string, c: string)
    requires OnlyPlaceholders(a, b) && OnlyPlaceholders(b, c)
    ensures OnlyPlaceholders(a, c)
  {
  }

  /** One `re.sub` changes nothing but value characters, and only into `'0'` or `'x'`. */
  lemma SubOnlyPlaceholders(p: Pattern, pol: Policy, t: string)
    ensures OnlyPlaceholders(t, SubFrom(p, pol, t, 0))
  {
    SubFromPointwise(p, pol, t, 0);
    var r := SubFrom(p, pol, t, 0);
    forall q | 0 <= q < |t|
      ensures r[q] == t[q] || r[q] == '0' || r[q] == 'x'
    {
      assert r[q] == RedactSpans(t, Spans(p, t, 0), pol, 0)[q];
    }
  }

  /**
   * One field of a rewrite pass: the first match's value is recorded under the field's
   * key, and the new text is the old one with every matched value group redacted.
   */
  lemma StepRewrite(f: Field, pol: Policy, required: bool, r: Redaction)
    requires Find(f.pattern, r.text, 0).Some?
    ensures var s := Find(f.pattern, r.text, 0).value;
      IsMatch(f.pattern, r.text, s) &&
      Step(f, Rewrite(pol, required), r) ==
        Ok(Redaction(RedactSpans(r.text, Spans(f.pattern, r.text, 0), pol, 0),
                     r.matches[f.key := r.text[s.valueStart..s.valueEnd]]))
  {
    FindIsLeftmost(f.pattern, r.text, 0);
    SubFromPointwise(f.pattern, pol, r.text, 0);
  }

  /** A catalog pass changes the text only by placeholders. */
  lemma {:induction false} RunCatalogPlaceholders(fs: seq<Field>, mode: Mode, r: Redaction)
    ensures RunCatalog(fs, mode, r).Ok? ==> OnlyPlaceholders(r.text, RunCatalog(fs, mode, r).value.text)
    decreases |fs|
  {
    if fs != [] {
      var st := Step(fs[0], mode, r);
      if st.Ok? {
        if mode.Rewrite? && Find(fs[0].pattern, r.text, 0).Some? {
          SubOnlyPlaceholders(fs[0].pattern, mode.policy, r.text);
        }
        assert OnlyPlaceholders(r.text, st.value.text);
        RunCatalogPlaceholders(fs[1..], mode, st.value);
        if RunCatalog(fs, mode, r).Ok? {
          PlaceholdersTransitive(r.text, st.value.text, RunCatalog(fs, mode, r).value.text);
        }
      }
    }
  }

  /**
   * A pass records only its own keys, keeps every key recorded before it, and leaves
   * the values of other keys alone.
   */
  lemma {:induction false} RunCatalogRecords(fs: seq<Field>, mode: Mode, r: Redaction)
    ensures var out := RunCatalog(fs, mode, r);
      out.Ok? ==>
        r.matches.Keys <= out.value.matches.Keys <= r.matches.Keys + Keys(fs) &&
        forall k :: k in r.matches && k !in Keys(fs) ==> out.value.matches[k] == r.matches[k]
    decreases |fs|
  {
    if fs != [] {
      var st := Step(fs[0], mode, r);
      if st.Ok? {
        RunCatalogRecords(fs[1..], mode, st.value);
        assert Keys(fs) == {fs[0].key} + Keys(fs[1..]);
      }
    }
  }

  /** A pass whose fields are optional never fails: an absent field is skipped. */
  lemma {:induction false} OptionalPassSucceeds(fs: seq<Field>, mode: Mode, r: Redaction)
    requires !(mode.Rewrite? && mode.required)
    ensures RunCatalog(fs, mode, r).Ok?
    decreases |fs|
  {
    if fs != [] {
      OptionalPassSucceeds(fs[1..], mode, Step(fs[0], mode, r).value);
    }
  }

  /** A field of an optional pass that has no match leaves the text and the matches as they were. */
  lemma AbsentFieldSkipped(f: Field, mode: Mode, r: Redaction)
    requires !(mode.Rewrite? && mode.required)
    requires Find(f.pattern, r.text, 0).None?
    ensures Step(f, mode, r) == Ok(r)
  {
  }

  /**
   * An optional pass adds a key only for a field that matched the text the fields before
   * it left; a field without a match is skipped and adds nothing.
   */
  lemma {:induction false} OptionalPassRecordsOnlyMatches(fs: seq<Field>, mode: Mode, r: Redaction)
    requires !(mode.Rewrite? && mode.required)
    ensures var out := RunCatalog(fs, mode, r);
      out.Ok? &&
      forall key :: key in out.value.matches && key !in r.matches ==>
        exists k ::
          0 <= k < |fs| && fs[k].key == key &&
          var before := RunCatalog(fs[..k], mode, r);
          before.Ok? && Find(fs[k].pattern, before.value.text, 0).Some?
    decreases |fs|
  {
    if fs != [] {
      var st := Step(fs[0], mode, r).value;
      OptionalPassRecordsOnlyMatches(fs[1..], mode, st);
      var out := RunCatalog(fs, mode, r).value;
      forall key | key in out.matches && key !in r.matches
        ensures exists k ::
          0 <= k < |fs| && fs[k].key == key &&
          var before := RunCatalog(fs[..k], mode, r);
          before.Ok? && Find(fs[k].pattern, before.value.text, 0).Some?
      {
        if key in st.matches {
          assert RunCatalog(fs[..0], mode, r) == Ok(r);
          assert fs[0].key == key && Find(fs[0].pattern, r.text, 0).Some?;
        } else {
          var k :| 0 <= k < |fs[1..]| && fs[1..][k].key == key &&
            var before := RunCatalog(fs[1..][..k], mode, st);
            before.Ok? && Find(fs[1..][k].pattern, before.value.text, 0).Some?;
          PrefixAfterStep(fs, mode, r, k);
        }
      }
    }
  }

  /**
   * A required pass either records every one of its keys or fails naming the first of
   * its fields that has no match.
   */
  lemma {:induction false} RequiredPassRecordsAll(fs: seq<Field>, pol: Policy, r: Redaction)
    ensures var out := RunCatalog(fs, Rewrite(pol, true), r);
      (out.Ok? ==> Keys(fs) <= out.value.matches.Keys) &&
      (out.Err? ==> exists k ::
         0 <= k < |fs| && out.error == MissingField(fs[k].key) &&
         var before := RunCatalog(fs[..k], Rewrite(pol, true), r);
         before.Ok? && Find(fs[k].pattern, before.value.text, 0).None?)
    decreases |fs|
  {
    if fs != [] {
      var mode := Rewrite(pol, true);
      var st := Step(fs[0], mode, r);
      if st.Ok? {
        RequiredPassRecordsAll(fs[1..], pol, st.value);
        RunCatalogRecords(fs[1..], mode, st.value);
        assert Keys(fs) == {fs[0].key} + Keys(fs[1..]);
        var out := RunCatalog(fs, mode, r);
        if out.Err? {
          var k :| 0 <= k < |fs[1..]| && out.error == MissingField(fs[1..][k].key) &&
            var before := RunCatalog(fs[1..][..k], mode, st.value);
            before.Ok? && Find(fs[1..][k].pattern, before.value.text, 0).None?;
          PrefixAfterStep(fs, mode, r, k);
        }
      } else {
        assert RunCatalog(fs, mode, r).error == MissingField(fs[0].key);
        assert RunCatalog(fs[..0], mode, r) == Ok(r);
      }
    }
  }

  /** A pass over the first `k + 1` fields is the first step followed by the pass over the next `k`. */
  lemma PrefixAfterStep(fs: seq<Field>, mode: Mode, r: Redaction, k: nat)
    requires k < |fs| - 1 && Step(fs[0], mode, r).Ok?
    ensures fs[1..][k] == fs[k + 1]
    ensures RunCatalog(fs[..k + 1], mode, r) == RunCatalog(fs[1..][..k], mode, Step(fs[0], mode, r).value)
  {
    assert fs[..k + 1][0] == fs[0];
    assert fs[..k + 1][1..] == fs[1..][..k];
  }

  lemma {:induction false} RecordPassKeepsText(fs: seq<Field>, r: Redaction)
    ensures var out := RunCatalog(fs, Record, r);
      out.Ok? && out.value.text == r.text &&
      (forall k :: 0 <= k < |fs| && Find(fs[k].pattern, r.text, 0).Some? ==> fs[k].key in out.value.matches) &&
      (forall key :: key in out.value.matches && key !in r.matches ==>
         exists k :: 0 <= k < |fs| && fs[k].key == key && Find(fs[k].pattern, r.text, 0).Some?) &&
      (forall k :: 0 <= k < |fs| && Find(fs[k].pattern, r.text, 0).Some? && fs[k].key !in Keys(fs[k + 1..]) ==>
         var s := Find(fs[k].pattern, r.text, 0).value;
         fs[k].key in out.value.matches && out.value.matches[fs[k].key] == r.text[s.valueStart..s.valueEnd])
    decreases |fs|
  {
    if fs != [] {
      var st := Step(fs[0], Record, r).value;
      RecordPassKeepsText(fs[1..], st);
      RunCatalogRecords(fs[1..], Record, st);
      var out := RunCatalog(fs, Record, r).value;
      forall k | 0 <= k < |fs| && Find(fs[k].pattern, r.text, 0).Some? && fs[k].key !in Keys(fs[k + 1..])
        ensures var s := Find(fs[k].pattern, r.text, 0).value;
          fs[k].key in out.matches && out.matches[fs[k].key] == r.text[s.valueStart..s.valueEnd]
      {
        if k > 0 {
          assert fs[1..][k - 1] == fs[k];
          assert fs[1..][k - 1 + 1..] == fs[k + 1..];
        }
      }
      forall k | 0 <= k < |fs| && Find(fs[k].pattern, r.text, 0).Some?
        ensures fs[k].key in out.matches
      {
        if k > 0 { assert fs[1..][k - 1] == fs[k]; }
      }
      forall key | key in out.matches && key !in r.matches
        ensures exists k :: 0 <= k < |fs| && fs[k].key == key && Find(fs[k].pattern, r.text, 0).Some?
      {
        if key in st.matches {
          assert fs[0].key == key && Find(fs[0].pattern, r.text, 0).Some?;
        } else {
          var k :| 0 <= k < |fs[1..]| && fs[1..][k].key == key && Find(fs[1..][k].pattern, r.text, 0).Some?;
          assert fs[k + 1] == fs[1..][k];
        }
      }
    }
  }

  // ---------------------------------------------------------------------------
  // What the whole header redaction promises
  // ---------------------------------------------------------------------------

  /** Every key of the four catalogs. */
  function CatalogKeys(): set<string> {
    Keys(NumberBlankFields) + Keys(DigitZeroFields) + Keys(MaskFields) + Keys(MetaFields)
  }

  /** The keys of a catalog, listed in catalog order. */
  function KeyList(fs: seq<Field>): (ks: seq<string>)
    ensures |ks| == |fs| && forall k :: 0 <= k < |fs| ==> ks[k] == fs[k].key
  {
    seq(|fs|, k requires 0 <= k < |fs| => fs[k].key)
  }

  lemma {:induction false} KeyAbsent(fs: seq<Field>, key: string)
    requires key !in KeyList(fs)
    ensures key !in Keys(fs)
    decreases |fs|
  {
    if fs != [] {
      assert KeyList(fs[1..]) == KeyList(fs)[1..];
      KeyAbsent(fs[1..], key);
    }
  }

  lemma NumberBlankKeyList()
    ensures KeyList(NumberBlankFields) == ["Patient_id", "Device_serial", "Exam_memory_uid", "PatientLOID",
      "StudyLOID", "SeriesLOID", "Study", "FrameOfReference", "Patient", "MeasUID"]
  {
  }

  lemma DigitZeroKeyList()
    ensures KeyList(DigitZeroFields) == ["Patient_gender", "Patient_age", "Patient_weight", "Patient_height",
      "Patient_birthday", "ulVersion"]
  {
  }

  lemma MaskKeyList()
    ensures KeyList(MaskFields) == ["Patient_name", "InstitutionAddress", "InstitutionName"]
  {
  }

  lemma MetaKeyList()
    ensures KeyList(MetaFields) == ["tBodyPartExamined", "Sequence", "TurboFactor", "ReadoutOversamplingFactor",
      "NSlc", "PhaseEncodingLines", "ReadFoV", "PhaseFoV", "PhaseResolution", "TR", "TI",
      "flMagneticFieldStrength", "PatientPosition"]
  {
  }

  lemma ExamDateNotNumberBlank() ensures ExamDateKey !in Keys(NumberBlankFields) {
    NumberBlankKeyList();
    KeyAbsent(NumberBlankFields, ExamDateKey);
  }

  lemma ExamDateNotDigitZero() ensures ExamDateKey !in Keys(DigitZeroFields) {
    DigitZeroKeyList();
    KeyAbsent(DigitZeroFields, ExamDateKey);
  }

  lemma ExamDateNotMask() ensures ExamDateKey !in Keys(MaskFields) {
    MaskKeyList();
    KeyAbsent(MaskFields, ExamDateKey);
  }

  lemma ExamDateNotMeta() ensures ExamDateKey !in Keys(MetaFields) {
    MetaKeyList();
    KeyAbsent(MetaFields, ExamDateKey);
  }

  /** The derived exam date has a key of its own: no catalog field can overwrite it. */
  lemma ExamDateKeyIsNotACatalogKey()
    ensures ExamDateKey !in CatalogKeys()
  {
    ExamDateNotNumberBlank();
    ExamDateNotDigitZero();
    ExamDateNotMask();
    ExamDateNotMeta();
  }

  /**
   * The redacted header has exactly the input's length and differs from it only by
   * `'0'` and `'x'` placeholders, so `header_size` stays valid and the text stays latin-1.
   */
  lemma {:induction false} HeaderOnlyPlaceholders(text: string)
    ensures AnonymizeHeaderSpec(text).Ok? ==> OnlyPlaceholders(text, AnonymizeHeaderSpec(text).value.text)
  {
    var token := ExamDateToken(text);
    if token.Ok? && GetDate(token.value).Ok? {
      var r0 := Redaction(text, map[ExamDateKey := GetDate(token.value).value]);
      var o1 := RunCatalog(NumberBlankFields, BlankMode, r0);
      RunCatalogPlaceholders(NumberBlankFields, BlankMode, r0);
      if o1.Ok? {
        var o2 := RunCatalog(DigitZeroFields, ZeroMode, o1.value);
        RunCatalogPlaceholders(DigitZeroFields, ZeroMode, o1.value);
        if o2.Ok? {
          var o3 := RunCatalog(MaskFields, MaskMode, o2.value);
          RunCatalogPlaceholders(MaskFields, MaskMode, o2.value);
          if o3.Ok? {
            var o4 := RunCatalog(MetaFields, Record, o3.value);
            RunCatalogPlaceholders(MetaFields, Record, o3.value);
            if o4.Ok? {
              assert RunCatalogs(r0) == o4;
              SubOnlyPlaceholders(SweepPattern(token.value), WordMask, o4.value.text);
              PlaceholdersTransitive(text, o1.value.text, o2.value.text);
              PlaceholdersTransitive(text, o2.value.text, o3.value.text);
              PlaceholdersTransitive(text, o3.value.text, o4.value.text);
              PlaceholdersTransitive(text, o4.value.text, AnonymizeHeaderSpec(text).value.text);
            }
          }
        }
      }
    }
  }

  lemma FourRecord(c1: seq<Field>, c2: seq<Field>, c3: seq<Field>, c4: seq<Field>, r: Redaction)
    ensures var out := RunFour(c1, c2, c3, c4, r);
      out.Ok? ==>
        r.matches.Keys + Keys(c3) <= out.value.matches.Keys <= r.matches.Keys + Keys(c1) + Keys(c2) + Keys(c3) + Keys(c4) &&
        forall k :: k in r.matches && k !in Keys(c1) + Keys(c2) + Keys(c3) + Keys(c4) ==> out.value.matches[k] == r.matches[k]
  {
    var o1 := RunCatalog(c1, BlankMode, r);
    RunCatalogRecords(c1, BlankMode, r);
    if o1.Ok? {
      var o2 := RunCatalog(c2, ZeroMode, o1.value);
      RunCatalogRecords(c2, ZeroMode, o1.value);
      if o2.Ok? {
        var o3 := RunCatalog(c3, MaskMode, o2.value);
        RunCatalogRecords(c3, MaskMode, o2.value);
        RequiredPassRecordsAll(c3, Mask, o2.value);
        if o3.Ok? {
          RunCatalogRecords(c4, Record, o3.value);
        }
      }
    }
  }

  /** The passes keep what was recorded before them, add every mask key, and add only catalog keys. */
  lemma CatalogsRecord(r: Redaction)
    ensures var out := RunCatalogs(r);
      out.Ok? ==>
        r.matches.Keys + Keys(MaskFields) <= out.value.matches.Keys <= r.matches.Keys + CatalogKeys() &&
        forall k :: k in r.matches && k !in CatalogKeys() ==> out.value.matches[k] == r.matches[k]
  {
    FourRecord(NumberBlankFields, DigitZeroFields, MaskFields, MetaFields, r);
  }

  /**
   * The recorded matches: the exam date under its own key, every mask field, and
   * nothing but catalog keys besides.
   */
  lemma HeaderRecords(text: string)
    ensures var out := AnonymizeHeaderSpec(text);
      out.Ok? ==>
        ExamDateToken(text).Ok? && GetDate(ExamDateToken(text).value).Ok? &&
        ExamDateKey in out.value.matches &&
        out.value.matches[ExamDateKey] == GetDate(ExamDateToken(text).value).value &&
        Keys(MaskFields) <= out.value.matches.Keys <= {ExamDateKey} + CatalogKeys()
  {
    SpecMatches(text);
    var token := ExamDateToken(text);
    if token.Ok? && GetDate(token.value).Ok? {
      var r0 := Redaction(text, map[ExamDateKey := GetDate(token.value).value]);
      CatalogsRecord(r0);
      ExamDateKeyIsNotACatalogKey();
    }
  }

  /** The matches of a redacted header are those of its catalog passes; the sweep records nothing. */
  lemma SpecMatches(text: string)
    ensures var out := AnonymizeHeaderSpec(text);
      out.Ok? ==>
        ExamDateToken(text).Ok? && GetDate(ExamDateToken(text).value).Ok? &&
        var r4 := RunCatalogs(Redaction(text, map[ExamDateKey := GetDate(ExamDateToken(text).value).value]));
        r4.Ok? && out.value.matches == r4.value.matches
  {
    var token := ExamDateToken(text);
    if token.Ok? {
      var date := GetDate(token.value);
      if date.Ok? {
        var r0 := Redaction(text, map[ExamDateKey := date.value]);
        var r4 := RunCatalogs(r0);
        if r4.Ok? {
          assert AnonymizeHeaderSpec(text) == Ok(Redaction(SubFrom(SweepPattern(token.value), WordMask, r4.value.text, 0), r4.value.matches));
        }
      }
    }
  }


  /**
   * Why a header is refused: no frame-of-reference value, too few components in it, a
   * date token that is not a date, or a missing mask field. Optional fields never fail.
   */
  lemma HeaderFailures(text: string)
    ensures var out := AnonymizeHeaderSpec(text);
      out.Err? ==>
        out.error == MissingField("FrameOfReference") || out.error == MissingDateComponent ||
        out.error == MalformedDateToken ||
        exists k :: 0 <= k < |MaskFields| && out.error == MissingField(MaskFields[k].key)
  {
    var token := ExamDateToken(text);
    if token.Ok? && GetDate(token.value).Ok? {
      var r0 := Redaction(text, map[ExamDateKey := GetDate(token.value).value]);
      OptionalPassSucceeds(NumberBlankFields, BlankMode, r0);
      var o1 := RunCatalog(NumberBlankFields, BlankMode, r0);
      OptionalPassSucceeds(DigitZeroFields, ZeroMode, o1.value);
      var o2 := RunCatalog(DigitZeroFields, ZeroMode, o1.value);
      RequiredPassRecordsAll(MaskFields, Mask, o2.value);
      var o3 := RunCatalog(MaskFields, MaskMode, o2.value);
      if o3.Ok? {
        OptionalPassSucceeds(MetaFields, Record, o3.value);
      }
    }
  }

  /** A valid token is exactly characters 2 to 8 of the eleventh dot component. */
  lemma ExamDateTokenIsSlice(text: string)
    requires ExamDateToken(text).Ok? && IsDateToken(ExamDateToken(text).value)
    ensures var s := Find(FrameOfReferenceSearch, text, 0).value;
      var parts := Split(text[s.valueStart..s.valueEnd], '.');
      |parts| >= 11 && |parts[10]| >= 8 && ExamDateToken(text).value == parts[10][2..8]
  {
  }

  /** A sweep match is a quoted run of digits and dots that contains the token. */
  lemma SweepSpan(t: string, token: string, s: Span)
    requires IsMatch(SweepPattern(token), t, s)
    ensures s.valueEnd < |t| && t[s.start] == '"' && t[s.valueEnd] == '"'
    ensures DigitsOrDots(t[s.valueStart..s.valueEnd]) && Contains(t[s.valueStart..s.valueEnd], token)
  {
    assert s.head == 0;
    assert PiecesEnd([Lit("\"")], t, s.start) == Some(s.valueStart);
  }

  /**
   * The final sweep: each quoted run of digits and dots that contains the raw date token
   * has its digits replaced by `'x'`; its dots, its quotes and every other character stay.
   */
  lemma SweepMasksDateRuns(t: string, token: string)
    ensures var p := SweepPattern(token);
      var spans := Spans(p, t, 0);
      var out := SubFrom(p, WordMask, t, 0);
      |out| == |t| &&
      (forall k :: 0 <= k < |spans| ==>
        spans[k].valueEnd < |t| && t[spans[k].start] == '"' && t[spans[k].valueEnd] == '"' &&
        DigitsOrDots(t[spans[k].valueStart..spans[k].valueEnd]) &&
        Contains(t[spans[k].valueStart..spans[k].valueEnd], token)) &&
      (forall q :: 0 <= q < |t| ==>
        out[q] == if InValue(q, spans) then (if t[q] == '.' then '.' else 'x') else t[q])
  {
    var p := SweepPattern(token);
    var spans := Spans(p, t, 0);
    SpansMatch(p, t, 0);
    SubFromPointwise(p, WordMask, t, 0);
    SweepSpansShape(t, token, spans);
    SweepRedactsDigits(t, token, spans);
  }

  lemma SweepSpansShape(t: string, token: string, spans: seq<Span>)
    requires forall k :: 0 <= k < |spans| ==> IsMatch(SweepPattern(token), t, spans[k])
    ensures forall k :: 0 <= k < |spans| ==>
        spans[k].start <= spans[k].valueStart <= spans[k].valueEnd < |t| && t[spans[k].start] == '"' && t[spans[k].valueEnd] == '"' &&
        DigitsOrDots(t[spans[k].valueStart..spans[k].valueEnd]) &&
        Contains(t[spans[k].valueStart..spans[k].valueEnd], token)
  {
    forall k | 0 <= k < |spans|
      ensures spans[k].start <= spans[k].valueStart <= spans[k].valueEnd < |t| && t[spans[k].start] == '"' && t[spans[k].valueEnd] == '"'
      ensures DigitsOrDots(t[spans[k].valueStart..spans[k].valueEnd])
      ensures Contains(t[spans[k].valueStart..spans[k].valueEnd], token)
    {
      SweepSpan(t, token, spans[k]);
    }
  }

  lemma SweepRedactsDigits(t: string, token: string, spans: seq<Span>)
    requires forall k :: 0 <= k < |spans| ==> IsMatch(SweepPattern(token), t, spans[k])
    ensures var out := RedactSpans(t, spans, WordMask, 0);
      forall q :: 0 <= q < |t| ==>
        out[q] == if InValue(q, spans) then (if t[q] == '.' then '.' else 'x') else t[q]
  {
    var out := RedactSpans(t, spans, WordMask, 0);
    forall q | 0 <= q < |t|
      ensures out[q] == if InValue(q, spans) then (if t[q] == '.' then '.' else 'x') else t[q]
    {
      if InValue(q, spans) {
        var k :| 0 <= k < |spans| && spans[k].valueStart <= q < spans[k].valueEnd;
        SweepSpan(t, token, spans[k]);
        assert t[q] == t[spans[k].valueStart..spans[k].valueEnd][q - spans[k].valueStart];
      }
    }
  }
}
