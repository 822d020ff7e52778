/**
 * A structured stand-in for the line-shaped regular expressions of the field catalog.
 *
 * A pattern is a choice of literal heads (the `(<ParamString."Key">  { ")` group, with
 * its optional `<Visible> "true"` and `<Precision> N` parts spelled out as alternatives
 * and pieces), a value class (the captured value group) and a literal tail
 * (the `("  }\n)` group).  `Find` plays `re.search`, `SubFrom` plays `re.sub` with a
 * replacement that keeps the head and tail groups and maps each character of the value
 * group, and `Spans` lists the matches `re.sub` visits.
 */
module Matcher {
  import opened Errors
  import opened Dates

  datatype Piece = Lit(s: string) | Number   // `Number` is `\d+`

  datatype ValueClass =
    | AnyText              // `.+`
    | Quoted               // `".+"`
    | Digits               // `\d+`
    | Decimal              // `\d+\.\d*`
    | EightDigits          // `\d{8}`
    | DateRun(date: string) // `[\d\.]*DATE[\d\.]*`

  datatype Pattern = Pattern(heads: seq<seq<Piece>>, value: ValueClass, tail: string)

  /** One match: which head matched, where the match starts, the value group, and the end. */
  datatype Span = Span(head: nat, start: nat, valueStart: nat, valueEnd: nat, end: nat)

  predicate StartsWithAt(t: string, i: nat, s: string) {
    i + |s| <= |t| && t[i..i + |s|] == s
  }

  predicate NoNewline(v: string) {
    forall k :: 0 <= k < |v| ==> v[k] != '\n'
  }

  predicate DigitsOrDots(v: string) {
    forall k :: 0 <= k < |v| ==> IsDigit(v[k]) || v[k] == '.'
  }

  predicate Contains(v: string, d: string)
    decreases |v|
  {
    |d| <= |v| && (v[..|d|] == d || Contains(v[1..], d))
  }

  /** The strings each value class accepts. */
  predicate ValueOk(c: ValueClass, v: string) {
    match c
    case AnyText => |v| >= 1 && NoNewline(v)
    case Quoted => |v| >= 3 && v[0] == '"' && v[|v| - 1] == '"' && NoNewline(v)
    case Digits => |v| >= 1 && AllDigits(v)
    case Decimal => |v| >= 2 && IsDigit(v[0]) && DigitsOrDots(v) && multiset(v)['.'] == 1
    case EightDigits => |v| == 8 && AllDigits(v)
    case DateRun(d) => DigitsOrDots(v) && Contains(v, d)
  }

  /** End of the maximal run of digits from `i` (what a greedy `\d+` consumes). */
  function DigitRunEnd(t: string, i: nat): (k: nat)
    requires i <= |t|
    ensures i <= k <= |t| && AllDigits(t[i..k])
    ensures k == |t| || !IsDigit(t[k])
    decreases |t| - i
  {
    if i < |t| && IsDigit(t[i]) then
      var k := DigitRunEnd(t, i + 1);
      assert t[i..k] == [t[i]] + t[i + 1..k];
      k
    else i
  }

  /** Where the literal head `ps` ends when it matches at `i`. */
  function PiecesEnd(ps: seq<Piece>, t: string, i: nat): (r: Option<nat>)
    requires i <= |t|
    ensures r.Some? ==> i <= r.value <= |t|
    decreases ps
  {
    if ps == [] then Some(i)
    else match ps[0]
      case Lit(s) => if StartsWithAt(t, i, s) then PiecesEnd(ps[1..], t, i + |s|) else None
      case Number =>
        var k := DigitRunEnd(t, i);
        if k > i then PiecesEnd(ps[1..], t, k) else None
  }

  /** A value group `t[j..e]` that is accepted and followed by the tail. */
  predicate ValueFits(p: Pattern, t: string, j: nat, e: nat) {
    j < e <= |t| && ValueOk(p.value, t[j..e]) && StartsWithAt(t, e, p.tail)
  }

  /** The greedy value end: the largest `e` in `(j, k]` that fits. */
  function LastValueEnd(p: Pattern, t: string, j: nat, k: nat): (r: Option<nat>)
    requires j <= k <= |t|
    ensures r.Some? ==> j < r.value <= k && ValueFits(p, t, j, r.value)
    ensures r.Some? ==> forall e :: r.value < e <= k ==> !ValueFits(p, t, j, e)
    ensures r.None? ==> forall e :: j < e <= k ==> !ValueFits(p, t, j, e)
    decreases k - j
  {
    if k == j then None
    else if ValueFits(p, t, j, k) then Some(k)
    else LastValueEnd(p, t, j, k - 1)
  }

  /** `s` is a match of `p` in `t`: a head, the greedy value group, then the tail. */
  predicate IsMatch(p: Pattern, t: string, s: Span) {
    s.head < |p.heads| && s.start <= |t| &&
    PiecesEnd(p.heads[s.head], t, s.start) == Some(s.valueStart) &&
    ValueFits(p, t, s.valueStart, s.valueEnd) &&
    (forall e :: s.valueEnd < e <= |t| ==> !ValueFits(p, t, s.valueStart, e)) &&
    s.end == s.valueEnd + |p.tail|
  }

  /** Head `g` of `p` does not lead to a value and tail at `i`. */
  predicate HeadFails(p: Pattern, t: string, i: nat, g: nat)
    requires i <= |t| && g < |p.heads|
  {
    match PiecesEnd(p.heads[g], t, i)
    case None => true
    case Some(j) => forall e :: j < e <= |t| ==> !ValueFits(p, t, j, e)
  }

  /** No head of `p` from index `h` on leads to a value and tail at `i`. */
  predicate HeadsFail(p: Pattern, t: string, i: nat, h: nat)
    requires i <= |t|
  {
    forall g :: h <= g < |p.heads| ==> HeadFails(p, t, i, g)
  }

  /** The first head from index `h` on that leads to a match at `i`. */
  function MatchHeads(p: Pattern, t: string, i: nat, h: nat): (r: Option<Span>)
    requires i <= |t|
    ensures r.Some? ==> IsMatch(p, t, r.value) && r.value.start == i && h <= r.value.head
    ensures r.Some? ==> forall g :: h <= g < r.value.head ==> HeadFails(p, t, i, g)
    ensures r.Some? ==> !HeadFails(p, t, i, r.value.head)
    ensures r.None? ==> HeadsFail(p, t, i, h)
    decreases |p.heads| - h
  {
    if h >= |p.heads| then None
    else match PiecesEnd(p.heads[h], t, i)
      case Some(j) =>
        (match LastValueEnd(p, t, j, |t|)
         case Some(e) => Some(Span(h, i, j, e, e + |p.tail|))
         case None => MatchHeads(p, t, i, h + 1))
      case None => MatchHeads(p, t, i, h + 1)
  }

  /** The match of `p` that starts exactly at `i`, trying the heads in order. */
  function MatchAt(p: Pattern, t: string, i: nat): (r: Option<Span>)
    requires i <= |t|
    ensures r.Some? ==> r.value.start == i && i <= r.value.valueStart < r.value.valueEnd <= r.value.end <= |t|
  {
    MatchHeads(p, t, i, 0)
  }

  /** A match at `i` is a match of the pattern, and there is none exactly when every head fails. */
  lemma MatchAtIsMatch(p: Pattern, t: string, i: nat)
    requires i <= |t|
    ensures MatchAt(p, t, i).Some? ==> IsMatch(p, t, MatchAt(p, t, i).value)
    ensures MatchAt(p, t, i).None? <==> HeadsFail(p, t, i, 0)
  {
    var r := MatchHeads(p, t, i, 0);
    if r.Some? { assert !HeadFails(p, t, i, r.value.head); }
  }

  /** The positions of a span are in order and lie within `[i, n]`. */
  predicate Placed(s: Span, i: nat, n: nat) {
    i <= s.start <= s.valueStart < s.valueEnd <= s.end <= n
  }

  /** `re.search` from position `i`: the leftmost match at or after `i`. */
  function Find(p: Pattern, t: string, i: nat): (r: Option<Span>)
    requires i <= |t|
    ensures r.Some? ==> Placed(r.value, i, |t|)
    decreases |t| - i
  {
    match MatchAt(p, t, i)
    case Some(s) => Some(s)
    case None => if i == |t| then None else Find(p, t, i + 1)
  }

  /** `Find` returns the leftmost match, and nothing only when no position matches. */
  lemma {:induction false} FindIsLeftmost(p: Pattern, t: string, i: nat)
    requires i <= |t|
    ensures var r := Find(p, t, i);
      (r.Some? ==> IsMatch(p, t, r.value) && r.value.start >= i) &&
      (r.Some? ==> forall q :: i <= q < r.value.start ==> MatchAt(p, t, q).None?) &&
      (r.None? ==> forall q :: i <= q <= |t| ==> MatchAt(p, t, q).None?)
    decreases |t| - i
  {
    MatchAtIsMatch(p, t, i);
    match MatchAt(p, t, i)
    case Some(s) =>
      assert Find(p, t, i) == Some(s);
    case None =>
      if i < |t| {
        FindIsLeftmost(p, t, i + 1);
        var r := Find(p, t, i + 1);
        assert Find(p, t, i) == r;
        if r.Some? {
          forall q | i <= q < r.value.start ensures MatchAt(p, t, q).None? {
            if q > i { assert i + 1 <= q; }
          }
        } else {
          forall q | i <= q <= |t| ensures MatchAt(p, t, q).None? {
            if q > i { assert i + 1 <= q; }
          }
        }
      }
  }

  /** How a rewrite maps each character of a value group. */
  datatype Policy =
    | Blank       // the whole value becomes `'0' * len`
    | ZeroDigits  // `re.sub(r"\d", "0", value)`
    | Mask        // the whole value becomes `'x' * len`
    | WordMask    // `re.sub(r"\w", "x", value)`

  /** ASCII letters, digits and `_`; the only latin-1 word characters a date run can hold are digits. */
  predicate IsWordChar(c: char) {
    IsDigit(c) || ('a' <= c <= 'z') || ('A' <= c <= 'Z') || c == '_'
  }

  function Redact(pol: Policy, c: char): char {
    match pol
    case Blank => '0'
    case ZeroDigits => if IsDigit(c) then '0' else c
    case Mask => 'x'
    case WordMask => if IsWordChar(c) then 'x' else c
  }

  function RedactAll(pol: Policy, v: string): (r: string)
    ensures |r| == |v|
  {
    seq(|v|, k requires 0 <= k < |v| => Redact(pol, v[k]))
  }

  /**
   * `re.sub(pattern, head + redact(value) + tail, t[i..])`: every match, leftmost first,
   * resuming after the end of the previous one.
   */
  function SubFrom(p: Pattern, pol: Policy, t: string, i: nat): (r: string)
    requires i <= |t|
    ensures |r| == |t| - i
    decreases |t| - i
  {
    match Find(p, t, i)
    case None => t[i..]
    case Some(s) =>
      t[i..s.valueStart] + RedactAll(pol, t[s.valueStart..s.valueEnd]) + t[s.valueEnd..s.end]
        + SubFrom(p, pol, t, s.end)
  }

  /** The matches `re.sub` visits from position `i`, in order. */
  function Spans(p: Pattern, t: string, i: nat): (r: seq<Span>)
    requires i <= |t|
    ensures forall k :: 0 <= k < |r| ==> Placed(r[k], i, |t|)
    ensures forall k :: 0 <= k < |r| - 1 ==> r[k].end <= r[k + 1].start
    decreases |t| - i
  {
    match Find(p, t, i)
    case None => []
    case Some(s) => [s] + Spans(p, t, s.end)
  }

  /** Every match is visited: the first is the leftmost one, each next one the leftmost after the previous. */
  lemma {:induction false} SpansAreAllMatches(p: Pattern, t: string, i: nat)
    requires i <= |t|
    ensures var r := Spans(p, t, i);
      (r == [] <==> Find(p, t, i).None?) &&
      (r != [] ==> Find(p, t, i) == Some(r[0]) && Find(p, t, r[|r| - 1].end).None?) &&
      (forall k :: 0 <= k < |r| - 1 ==> Find(p, t, r[k].end) == Some(r[k + 1]))
    decreases |t| - i
  {
    match Find(p, t, i)
    case None =>
    case Some(s) =>
      SpansAreAllMatches(p, t, s.end);
      var rest := Spans(p, t, s.end);
      var r := Spans(p, t, i);
      assert r == [s] + rest;
      forall k | 0 <= k < |r| - 1
        ensures Find(p, t, r[k].end) == Some(r[k + 1])
      {
        if k > 0 { assert r[k] == rest[k - 1] && r[k + 1] == rest[k]; }
      }
  }

  /** Every visited span is a match of the pattern. */
  lemma {:induction false} SpansMatch(p: Pattern, t: string, i: nat)
    requires i <= |t|
    ensures forall k :: 0 <= k < |Spans(p, t, i)| ==> IsMatch(p, t, Spans(p, t, i)[k])
    decreases |t| - i
  {
    FindIsLeftmost(p, t, i);
    match Find(p, t, i)
    case None =>
    case Some(s) =>
      SpansMatch(p, t, s.end);
      var rest := Spans(p, t, s.end);
      assert Spans(p, t, i) == [s] + rest;
  }

  /** Position `q` lies in the value group of one of the spans. */
  predicate InValue(q: nat, spans: seq<Span>) {
    exists k :: 0 <= k < |spans| && spans[k].valueStart <= q < spans[k].valueEnd
  }

  /** The text from `i` on with every character inside a value group of `spans` redacted. */
  function RedactSpans(t: string, spans: seq<Span>, pol: Policy, i: nat): (r: string)
    requires i <= |t|
    ensures |r| == |t| - i
  {
    seq(|t| - i, q requires 0 <= q < |t| - i =>
      if InValue(i + q, spans) then Redact(pol, t[i + q]) else t[i + q])
  }

  /**
   * What `re.sub` leaves behind, position by position: a character inside a matched
   * value group is redacted, every other character is the input's.
   */
  lemma {:induction false} SubFromPointwise(p: Pattern, pol: Policy, t: string, i: nat)
    requires i <= |t|
    ensures SubFrom(p, pol, t, i) == RedactSpans(t, Spans(p, t, i), pol, i)
    decreases |t| - i
  {
    match Find(p, t, i)
    case None =>
      assert Spans(p, t, i) == [];
      var r := RedactSpans(t, [], pol, i);
      forall k | 0 <= k < |r| ensures r[k] == t[i..][k] {
        assert !InValue(i + k, []);
      }
      assert r == t[i..];
    case Some(s) =>
      SubFromPointwise(p, pol, t, s.end);
      var rest := Spans(p, t, s.end);
      assert Spans(p, t, i) == [s] + rest;
      assert forall k :: 0 <= k < |rest| ==> s.end <= rest[k].valueStart;
      ConsPointwise(t, pol, i, s, rest);
  }

  /** One step of `SubFromPointwise`: a rewritten match followed by an already rewritten rest. */
  lemma ConsPointwise(t: string, pol: Policy, i: nat, s: Span, rest: seq<Span>)
    requires Placed(s, i, |t|)
    requires forall k :: 0 <= k < |rest| ==> s.end <= rest[k].valueStart
    ensures t[i..s.valueStart] + RedactAll(pol, t[s.valueStart..s.valueEnd]) + t[s.valueEnd..s.end]
      + RedactSpans(t, rest, pol, s.end) == RedactSpans(t, [s] + rest, pol, i)
  {
    var spans := [s] + rest;
    var a := t[i..s.valueStart];
    var b := RedactAll(pol, t[s.valueStart..s.valueEnd]);
    var c := t[s.valueEnd..s.end];
    var tl := RedactSpans(t, rest, pol, s.end);
    var r := a + b + c + tl;
    var want := RedactSpans(t, spans, pol, i);
    forall k | 0 <= k < |r|
      ensures r[k] == want[k]
    {
      var q := i + k;
      InValueCons(q, s, rest);
      if q < s.valueStart {
        assert r[q - i] == a[q - i];
      } else if q < s.valueEnd {
        assert r[q - i] == b[q - s.valueStart];
      } else if q < s.end {
        assert r[q - i] == c[q - s.valueEnd];
      } else {
        assert r[q - i] == tl[q - s.end];
      }
    }
    assert r == want;
  }

  lemma InValueCons(q: nat, s: Span, rest: seq<Span>)
    ensures InValue(q, [s] + rest) <==> (s.valueStart <= q < s.valueEnd || InValue(q, rest))
  {
    var spans := [s] + rest;
    if InValue(q, spans) {
      var k :| 0 <= k < |spans| && spans[k].valueStart <= q < spans[k].valueEnd;
      if k > 0 { assert spans[k] == rest[k - 1]; }
    }
    if s.valueStart <= q < s.valueEnd { assert spans[0] == s; }
    if InValue(q, rest) {
      var k :| 0 <= k < |rest| && rest[k].valueStart <= q < rest[k].valueEnd;
      assert spans[k + 1] == rest[k];
    }
  }
}
