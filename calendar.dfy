/** Proleptic Gregorian dates as Python's `datetime.date` has them, the
    `YYYY-MM-DD` text form `date.isoformat()` writes, the subset of
    `datetime.fromisoformat` the services rely on, and English month names
    as `strptime`/`strftime` use them in the C locale. */
module Calendar {
  import opened Common
  import opened PyStrings

  datatype Date = Date(year: int, month: int, day: int)

  predicate IsLeapYear(y: int) {
    y % 4 == 0 && (y % 100 != 0 || y % 400 == 0)
  }

  /** `calendar.monthrange(y, m)[1]`. */
  function DaysInMonth(y: int, m: int): (n: int)
    requires 1 <= m <= 12
    ensures 28 <= n <= 31
    ensures m == 2 ==> (n == 29 <==> IsLeapYear(y))
  {
    if m == 2 then (if IsLeapYear(y) then 29 else 28)
    else if m == 4 || m == 6 || m == 9 || m == 11 then 30
    else 31
  }

  /** The dates `datetime.date` can represent. */
  predicate ValidDate(d: Date) {
    1 <= d.year <= 9999 && 1 <= d.month <= 12 && 1 <= d.day <= DaysInMonth(d.year, d.month)
  }

  function Pad(n: nat, width: nat): string {
    ZFill(NatToString(n), width)
  }

  /** `date.isoformat()`. */
  function IsoDate(d: Date): string
    requires ValidDate(d)
  {
    Pad(d.year, 4) + "-" + Pad(d.month, 2) + "-" + Pad(d.day, 2)
  }

  function Pow10(k: nat): nat {
    if k == 0 then 1 else 10 * Pow10(k - 1)
  }

  lemma {:induction false} NatToStringLength(n: nat, k: nat)
    requires n < Pow10(k) && k >= 1
    ensures |NatToString(n)| <= k
  {
    if n >= 10 {
      assert k >= 2;
      NatToStringLength(n / 10, k - 1);
    }
  }

  /** A string of `k` digits denotes a number below 10^k. */
  lemma {:induction false} DigitsValueBelow(s: string)
    requires forall i :: 0 <= i < |s| ==> IsDigit(s[i])
    ensures DigitsValue(s) < Pow10(|s|)
  {
    if |s| > 0 {
      DigitsValueBelow(s[..|s| - 1]);
    }
  }

  lemma PadExact(n: nat, k: nat)
    requires n < Pow10(k) && k >= 1
    ensures |Pad(n, k)| == k && IsDigits(Pad(n, k)) && DigitsValue(Pad(n, k)) == n
  {
    NatToStringLength(n, k);
    ZFillNat(n, k);
  }

  /** `YYYY-MM-DD` with a real calendar date behind it. */
  function ParseIsoDatePart(s: string): (r: Option<Date>)
    ensures r.Some? ==> ValidDate(r.value)
  {
    if |s| == 10 && s[4] == '-' && s[7] == '-'
       && IsDigits(s[..4]) && IsDigits(s[5..7]) && IsDigits(s[8..])
    then
      var d := Date(DigitsValue(s[..4]), DigitsValue(s[5..7]), DigitsValue(s[8..]));
      if ValidDate(d) then Some(d) else None
    else None
  }

  predicate TwoDigitsBelow(s: string, bound: nat) {
    |s| == 2 && IsDigits(s) && DigitsValue(s) < bound
  }

  /** `HH`, `HH:MM` or `HH:MM:SS` with hours below 24 and minutes and seconds
      below 60. */
  predicate IsTimeText(t: string) {
    || (|t| == 2 && TwoDigitsBelow(t, 24))
    || (|t| == 5 && TwoDigitsBelow(t[..2], 24) && t[2] == ':' && TwoDigitsBelow(t[3..], 60))
    || (|t| == 8 && TwoDigitsBelow(t[..2], 24) && t[2] == ':' && TwoDigitsBelow(t[3..5], 60)
        && t[5] == ':' && TwoDigitsBelow(t[6..], 60))
  }

  /** `datetime.fromisoformat(s).date()` on the formats modelled here: a
      `YYYY-MM-DD` date, optionally followed by one separator character and
      a time of day. None stands for the ValueError, and is also given for
      text outside these formats that Python reads (fractions of a second,
      UTC offsets). */
  function FromIsoFormat(s: string): (r: Option<Date>)
    ensures r.Some? ==> ValidDate(r.value)
  {
    if |s| == 10 then ParseIsoDatePart(s)
    else if |s| > 11 && IsTimeText(s[11..]) then ParseIsoDatePart(s[..10])
    else None
  }

  /** The text `isoformat` writes is exactly ten characters with dashes at
      positions 4 and 7, and `fromisoformat` reads the same date back. */
  lemma IsoDateRoundTrip(d: Date)
    requires ValidDate(d)
    ensures |IsoDate(d)| == 10 && IsoDate(d)[4] == '-' && IsoDate(d)[7] == '-'
    ensures IsDigit(IsoDate(d)[0]) && IsDigit(IsoDate(d)[9])
    ensures FromIsoFormat(IsoDate(d)) == Some(d)
  {
    PadExact(d.year, 4);
    PadExact(d.month, 2);
    PadExact(d.day, 2);
    var s := IsoDate(d);
    assert s[..4] == Pad(d.year, 4);
    assert s[5..7] == Pad(d.month, 2);
    assert s[8..] == Pad(d.day, 2);
  }

  const MonthAbbreviations: seq<string> :=
    ["Jan", "Feb", "Mar", "Apr", "May", "Jun", "Jul", "Aug", "Sep", "Oct", "Nov", "Dec"]

  const MonthNames: seq<string> :=
    ["January", "February", "March", "April", "May", "June", "July", "August",
     "September", "October", "November", "December"]

  /** The month (1 to 12) whose name in `names` equals `word` ignoring case,
      as `%b` / `%B` match in `strptime`. */
  function MonthNumber(word: string, names: seq<string>): (r: Option<int>)
    requires |names| == 12
    ensures r.Some? ==> 1 <= r.value <= 12 && Lower(names[r.value - 1]) == Lower(word)
    ensures r.None? ==> forall i :: 0 <= i < 12 ==> Lower(names[i]) != Lower(word)
  {
    MonthNumberFrom(word, names, 0)
  }

  function MonthNumberFrom(word: string, names: seq<string>, i: nat): (r: Option<int>)
    requires |names| == 12 && i <= 12
    ensures r.Some? ==> i + 1 <= r.value <= 12 && Lower(names[r.value - 1]) == Lower(word)
    ensures r.None? ==> forall k :: i <= k < 12 ==> Lower(names[k]) != Lower(word)
    decreases 12 - i
  {
    if i == 12 then None
    else if Lower(names[i]) == Lower(word) then Some(i + 1)
    else MonthNumberFrom(word, names, i + 1)
  }

  /** `date.strftime("%b %Y")` in the C locale; the year is not padded. */
  function MonthLabel(d: Date): string
    requires ValidDate(d)
  {
    MonthAbbreviations[d.month - 1] + " " + NatToString(d.year)
  }
}
