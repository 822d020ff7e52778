/** The exam-date conversion `_get_date`: `strptime(s, "%y%m%d")` then `strftime("%Y-%m-%d")`. */
module Dates {
  import opened Errors

  predicate IsDigit(c: char) { '0' <= c <= '9' }

  predicate AllDigits(s: string) {
    forall i :: 0 <= i < |s| ==> IsDigit(s[i])
  }

  function DigitValue(c: char): (d: nat)
    requires IsDigit(c)
    ensures d < 10
  {
    c as int - '0' as int
  }

  function DigitChar(d: nat): (c: char)
    requires d < 10
    ensures IsDigit(c) && DigitValue(c) == d
  {
    ('0' as int + d) as char
  }

  /** The value of a two-digit field. */
  function TwoDigitValue(s: string): (v: nat)
    requires |s| == 2 && AllDigits(s)
    ensures v < 100
  {
    10 * DigitValue(s[0]) + DigitValue(s[1])
  }

  /** `n` written with exactly two digits, zero-padded. */
  function TwoDigits(n: nat): (s: string)
    requires n < 100
    ensures |s| == 2 && AllDigits(s)
  {
    [DigitChar(n / 10), DigitChar(n % 10)]
  }

  /** `%y` pivot: 00..68 is 2000..2068, 69..99 is 1969..1999. */
  function FullYear(yy: nat): (y: nat)
    requires yy < 100
    ensures 1969 <= y <= 2068 && y % 100 == yy
  {
    if yy <= 68 then 2000 + yy else 1900 + yy
  }

  predicate IsLeapYear(y: nat) {
    (y % 4 == 0 && y % 100 != 0) || y % 400 == 0
  }

  function DaysInMonth(y: nat, m: nat): (d: nat)
    requires 1 <= m <= 12
    ensures m == 2 ==> (d == 29 <==> IsLeapYear(y)) && (d == 28 <==> !IsLeapYear(y))
    ensures m == 4 || m == 6 || m == 9 || m == 11 ==> d == 30
    ensures m == 1 || m == 3 || m == 5 || m == 7 || m == 8 || m == 10 || m == 12 ==> d == 31
  {
    if m == 2 then (if IsLeapYear(y) then 29 else 28)
    else if m == 4 || m == 6 || m == 9 || m == 11 then 30
    else 31
  }

  /** A six-digit `YYMMDD` token that names a day of the calendar. */
  predicate IsDateToken(s: string) {
    |s| == 6 && AllDigits(s) &&
    var m := TwoDigitValue(s[2..4]);
    var d := TwoDigitValue(s[4..6]);
    1 <= m <= 12 && 1 <= d <= DaysInMonth(FullYear(TwoDigitValue(s[0..2])), m)
  }

  /** `_get_date`: the ISO form `YYYY-MM-DD` of the token, or `MalformedDateToken`. */
  function GetDate(s: string): (r: Result<string>)
    ensures r.Ok? <==> IsDateToken(s)
    ensures r.Ok? ==> |r.value| == 10 && r.value[4] == '-' && r.value[7] == '-'
    ensures r.Ok? ==> r.value[..2] == (if TwoDigitValue(s[..2]) <= 68 then "20" else "19")
    ensures r.Ok? ==> r.value[2..4] == s[..2] && r.value[5..7] == s[2..4] && r.value[8..] == s[4..]
  {
    if !IsDateToken(s) then Err(MalformedDateToken)
    else
      var yy := TwoDigitValue(s[0..2]);
      var y := FullYear(yy);
      TwoDigitsOf(s[0..2]);
      TwoDigitsOf(s[2..4]);
      TwoDigitsOf(s[4..6]);
      Ok(TwoDigits(y / 100) + TwoDigits(y % 100) + "-" + TwoDigits(TwoDigitValue(s[2..4])) + "-" + TwoDigits(TwoDigitValue(s[4..6])))
  }

  /** Writing the value of a two-digit field gives the field back. */
  lemma TwoDigitsOf(s: string)
    requires |s| == 2 && AllDigits(s)
    ensures TwoDigits(TwoDigitValue(s)) == s
  {
    var v := TwoDigitValue(s);
    assert v / 10 == DigitValue(s[0]) && v % 10 == DigitValue(s[1]);
  }

  /** The century, month and day of the ISO date, read back as numbers. */
  function ParseIsoDate(iso: string): (ymd: (nat, nat, nat))
    requires |iso| == 10 && AllDigits(iso[..4]) && AllDigits(iso[5..7]) && AllDigits(iso[8..])
  {
    (100 * TwoDigitValue(iso[..2]) + TwoDigitValue(iso[2..4]), TwoDigitValue(iso[5..7]), TwoDigitValue(iso[8..]))
  }

  /** Round trip: the ISO date holds the token's four-digit year and its month and day. */
  lemma GetDateParses(s: string)
    requires IsDateToken(s)
    ensures GetDate(s).Ok?
    ensures var iso := GetDate(s).value;
      AllDigits(iso[..4]) && AllDigits(iso[5..7]) && AllDigits(iso[8..]) &&
      ParseIsoDate(iso) == (FullYear(TwoDigitValue(s[..2])), TwoDigitValue(s[2..4]), TwoDigitValue(s[4..]))
  {
    var iso := GetDate(s).value;
    var yy := TwoDigitValue(s[..2]);
    assert iso[..4] == iso[..2] + iso[2..4];
    assert iso[..2] == (if yy <= 68 then "20" else "19");
    assert iso[2..4] == s[..2];
  }
}
