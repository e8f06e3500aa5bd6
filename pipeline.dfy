/** The pipeline service: normalisation of loosely typed pipeline entries
    into rows of the `pipeline_opportunities` table, the reverse mapping, the
    derived changelog, project-code assignment, and the table operations
    (upsert, replace-the-caller's-set, delete, list). Each SQL statement is
    one atomic update of a map. */
module PipelineService {
  import opened Common
  import opened PyStrings
  import opened Calendar
  import opened Sorting
  import opened Database

  // ---------------------------------------------------------------------
  // Status

  /** The seven canonical pipeline statuses. */
  datatype Status = Open | HighPitch | MediumPitch | LowPitch | Confirmed | Whitespace | Cancelled

  /** The text a status is stored and returned as. */
  function StatusName(st: Status): string {
    match st
    case Open => "open"
    case HighPitch => "high-pitch"
    case MediumPitch => "medium-pitch"
    case LowPitch => "low-pitch"
    case Confirmed => "confirmed"
    case Whitespace => "whitespace"
    case Cancelled => "cancelled"
  }

  /** The synonym table of `_normalize_status`. */
  const StatusSynonyms: map<string, Status> := map[
    "open" := Open,
    "high pitch" := HighPitch,
    "high-pitch" := HighPitch,
    "medium pitch" := MediumPitch,
    "medium-pitch" := MediumPitch,
    "low pitch" := LowPitch,
    "low-pitch" := LowPitch,
    "confirmed" := Confirmed,
    "whitespace" := Whitespace,
    "cancelled" := Cancelled,
    "canceled" := Cancelled,
    "in plan" := Open,
    "in-plan" := Open,
    "planning" := Open
  ]

  /** `_normalize_status`: lower-case, strip, look up, and fall back to
      "open" for anything unknown. The result type is the closed set of
      canonical statuses. */
  function NormalizeStatus(status: Option<string>): Status {
    LookupStatus(StatusSynonyms, Strip(Lower(OrElse(status, "open"))))
  }

  /** The table lookup with "open" as the fallback. */
  function LookupStatus(table: map<string, Status>, raw: string): Status {
    if raw in table then table[raw] else Open
  }

  /** Text already in lower case without surrounding blanks, as every key of
      the synonym table is. */
  predicate PlainLower(s: string) {
    && s != []
    && (forall i :: 0 <= i < |s| ==> 'a' <= s[i] <= 'z' || s[i] == '-' || s[i] == ' ')
    && s[0] != ' ' && s[|s| - 1] != ' '
  }

  lemma PlainLowerNormal(s: string)
    requires PlainLower(s)
    ensures Strip(Lower(s)) == s
  {
    LowerUnchanged(s);
    StripUnchanged(s);
  }

  lemma PlainLowerLookup(raw: string)
    requires PlainLower(raw)
    ensures NormalizeStatus(Some(raw)) == LookupStatus(StatusSynonyms, raw)
  {
    PlainLowerNormal(raw);
    assert Strip(Lower(OrElse(Some(raw), "open"))) == raw;
  }

  lemma SynonymPlainLower(raw: string)
    requires raw in StatusSynonyms
    ensures PlainLower(raw)
  {
    if raw in PitchSynonyms {
      PitchSynonymPlainLower(raw);
    } else {
      OtherSynonymPlainLower(raw);
    }
  }

  const PitchSynonyms: set<string> :=
    {"high pitch", "high-pitch", "medium pitch", "medium-pitch", "low pitch", "low-pitch"}

  lemma PitchSynonymPlainLower(raw: string)
    requires raw in PitchSynonyms
    ensures PlainLower(raw)
  {
  }

  lemma OtherSynonymPlainLower(raw: string)
    requires raw in StatusSynonyms && raw !in PitchSynonyms
    ensures PlainLower(raw)
  {
  }

  lemma StatusNamePlainLower(st: Status)
    ensures PlainLower(StatusName(st))
  {
  }

  lemma StatusNameInTable(st: Status)
    ensures StatusName(st) in StatusSynonyms && StatusSynonyms[StatusName(st)] == st
  {
  }

  /** Every synonym in the table maps to its entry. */
  lemma NormalizeStatusSynonym(raw: string)
    requires raw in StatusSynonyms
    ensures NormalizeStatus(Some(raw)) == StatusSynonyms[raw]
  {
    SynonymPlainLower(raw);
    PlainLowerLookup(raw);
  }

  /** Every canonical status normalises to itself. */
  lemma CanonicalStatusFixed(st: Status)
    ensures NormalizeStatus(Some(StatusName(st))) == st
  {
    StatusNamePlainLower(st);
    StatusNameInTable(st);
    PlainLowerLookup(StatusName(st));
  }

  /** Normalising the stored text of a status again changes nothing. */
  lemma NormalizeStatusIdempotent(status: Option<string>)
    ensures NormalizeStatus(Some(StatusName(NormalizeStatus(status)))) == NormalizeStatus(status)
  {
    CanonicalStatusFixed(NormalizeStatus(status));
  }

  /** Any text whose folded form is not in the table is "open". */
  lemma NormalizeStatusUnmapped(status: Option<string>)
    requires Strip(Lower(OrElse(status, "open"))) !in StatusSynonyms
    ensures NormalizeStatus(status) == Open
  {
  }

  /** The text is lower-cased and stripped before the lookup, so case and
      surrounding whitespace do not matter. */
  lemma NormalizeStatusFolds(s: string)
    requires Strip(Lower(s)) in StatusSynonyms
    ensures NormalizeStatus(Some(s)) == StatusSynonyms[Strip(Lower(s))]
  {
    FoldedNonEmpty(s);
    assert OrElse(Some(s), "open") == s;
  }

  /** Only non-empty text folds onto a synonym. */
  lemma FoldedNonEmpty(s: string)
    requires Strip(Lower(s)) in StatusSynonyms
    ensures s != ""
  {
    EmptyNotSynonym();
    assert |Strip(Lower(""))| == 0;
  }

  lemma EmptyNotSynonym()
    ensures "" !in StatusSynonyms
  {
  }

  /** A missing or empty status is "open". */
  lemma NormalizeStatusDefault(status: Option<string>)
    requires IsEmpty(status)
    ensures NormalizeStatus(status) == Open
  {
    assert OrElse(status, "open") == OrElse(Some(StatusName(Open)), "open");
    CanonicalStatusFixed(Open);
  }

  // ---------------------------------------------------------------------
  // Dates and month labels

  /** The `strptime(trimmed, "%b %Y")` / `"%B %Y"` attempts of `_parse_date`,
      reached only for two whitespace-separated words whose second is all
      digits. `%Y` takes exactly four digits and year 0 is rejected by
      `datetime`. Gives (year, month). */
  function ParseMonthYear(trimmed: string): (r: Option<(int, int)>)
    ensures r.Some? ==> 1 <= r.value.0 <= 9999 && 1 <= r.value.1 <= 12
    ensures r.Some? ==> var parts := Words(trimmed);
      && |parts| == 2 && IsDigits(parts[1]) && r.value.0 == DigitsValue(parts[1])
      && (Lower(MonthAbbreviations[r.value.1 - 1]) == Lower(parts[0])
          || Lower(MonthNames[r.value.1 - 1]) == Lower(parts[0]))
  {
    MonthYearOfWords(Words(trimmed))
  }

  /** The same reading on the words of the label. */
  function MonthYearOfWords(parts: seq<string>): (r: Option<(int, int)>)
    ensures r.Some? ==> 1 <= r.value.0 <= 9999 && 1 <= r.value.1 <= 12
    ensures r.Some? ==>
      && |parts| == 2 && IsDigits(parts[1]) && r.value.0 == DigitsValue(parts[1])
      && (Lower(MonthAbbreviations[r.value.1 - 1]) == Lower(parts[0])
          || Lower(MonthNames[r.value.1 - 1]) == Lower(parts[0]))
  {
    if |parts| == 2 && IsDigits(parts[1]) && |parts[1]| == 4 && DigitsValue(parts[1]) >= 1 then
      var year := DigitsValue(parts[1]);
      DigitsValueBelow(parts[1]);
      match MonthOfWord(parts[0])
      case Some(m) => Some((year, m))
      case None => None
    else None
  }

  /** `%b` tried first, then `%B`: the month whose abbreviation, else whose
      full name, equals the word ignoring case. */
  function MonthOfWord(word: string): (r: Option<int>)
    ensures r.Some? ==> 1 <= r.value <= 12
    ensures r.Some? ==> Lower(MonthAbbreviations[r.value - 1]) == Lower(word)
                        || Lower(MonthNames[r.value - 1]) == Lower(word)
  {
    match MonthNumber(word, MonthAbbreviations)
    case Some(m) => Some(m)
    case None => MonthNumber(word, MonthNames)
  }

  /** The shape `_parse_date` lets through verbatim. */
  predicate LooksLikeIsoDate(t: string) {
    |t| == 10 && t[4] == '-' && t[7] == '-'
  }

  /** `_parse_date(value, is_end)`. Empty input gives None; a trimmed value
      of the ISO shape is returned verbatim (real date or not); a month label
      becomes the first or, for an end field, the last day of that month;
      otherwise the date part of an ISO timestamp, or None. It never fails,
      and whatever it returns has the ISO shape. */
  function ParseDate(value: Option<string>, isEnd: bool): (r: Option<string>)
    ensures IsEmpty(value) ==> r.None?
  {
    if IsEmpty(value) then None
    else
      var t := Strip(value.value);
      if LooksLikeIsoDate(t) then Some(t) else DateFromText(t, isEnd)
  }

  /** `_parse_date` never fails, and whatever it returns has the ISO shape
      with no blank at either end. */
  lemma ParseDateShape(value: Option<string>, isEnd: bool)
    ensures var r := ParseDate(value, isEnd);
      r.Some? ==> LooksLikeIsoDate(r.value) && !IsSpace(r.value[0]) && !IsSpace(r.value[9])
  {
    if !IsEmpty(value) {
      ParseDateCases(value, isEnd);
      var t := Strip(value.value);
      if !LooksLikeIsoDate(t) {
        TextDateShape(t, isEnd);
      }
    }
  }

  lemma TextDateShape(t: string, isEnd: bool)
    ensures var r := DateFromText(t, isEnd);
      r.Some? ==> LooksLikeIsoDate(r.value) && !IsSpace(r.value[0]) && !IsSpace(r.value[9])
  {
    var r := DateFromText(t, isEnd);
    match ParseMonthYear(t) {
      case Some((y, m)) =>
        IsoDateRoundTrip(Date(y, m, if isEnd then DaysInMonth(y, m) else 1));
      case None =>
        if FromIsoFormat(t).Some? {
          IsoDateRoundTrip(FromIsoFormat(t).value);
        }
    }
    if r.Some? {
      DigitNotSpace(r.value[0]);
      DigitNotSpace(r.value[9]);
    }
  }

  /** The month-label and timestamp fallbacks of `_parse_date`: the first
      or (`isEnd`) last day of a labelled month, else the date of an ISO
      timestamp, else None. */
  function DateFromText(t: string, isEnd: bool): Option<string> {
    match ParseMonthYear(t)
    case Some((y, m)) =>
      Some(IsoDate(Date(y, m, if isEnd then DaysInMonth(y, m) else 1)))
    case None =>
      match FromIsoFormat(t)
      case Some(d) => Some(IsoDate(d))
      case None => None
  }

  /** The branches of `_parse_date` on a non-empty value: ISO-shaped text
      is kept, anything else goes to the month-label and timestamp
      readings. */
  lemma ParseDateCases(value: Option<string>, isEnd: bool)
    requires !IsEmpty(value)
    ensures LooksLikeIsoDate(Strip(value.value)) ==> ParseDate(value, isEnd) == Some(Strip(value.value))
    ensures !LooksLikeIsoDate(Strip(value.value)) ==> ParseDate(value, isEnd) == DateFromText(Strip(value.value), isEnd)
  {
  }

  /** Parsing an already parsed date gives it back unchanged. */
  lemma ParseDateIdempotent(value: Option<string>, isEnd: bool)
    ensures ParseDate(value, isEnd).Some? ==> ParseDate(ParseDate(value, isEnd), isEnd) == ParseDate(value, isEnd)
  {
    var r := ParseDate(value, isEnd);
    if r.Some? {
      ParseDateShape(value, isEnd);
      StripUnchanged(r.value);
      ParseDateCases(r, isEnd);
    }
  }

  predicate NoSpace(a: string) {
    forall i :: 0 <= i < |a| ==> !IsSpace(a[i])
  }

  /** A non-empty run without whitespace, after one blank, is one word. */
  lemma WordsOfOne(b: string)
    requires b != [] && NoSpace(b)
    ensures Words(" " + b) == [b]
  {
    var s := " " + b;
    assert s[1..] == b;
    assert TrimLeft(s) == TrimLeft(b);
    assert TrimLeft(b) == b;
    TokenLengthOf(b, "");
    assert b + "" == b;
    assert b[..|b|] == b;
    assert b[|b|..] == [];
    assert Words(b[|b|..]) == [];
  }

  /** Two words with no whitespace inside, separated by one space, split
      back into those two words. */
  lemma WordsOfTwo(a: string, b: string)
    requires a != [] && b != []
    requires NoSpace(a) && NoSpace(b)
    ensures Words(a + " " + b) == [a, b]
  {
    var s := a + " " + b;
    assert TrimLeft(s) == s;
    assert s == a + (" " + b);
    TokenLengthOf(a, " " + b);
    assert s[..|a|] == a;
    assert s[|a|..] == " " + b;
    WordsOfOne(b);
  }

  lemma {:induction false} TokenLengthOf(a: string, rest: string)
    requires NoSpace(a)
    requires rest == [] || IsSpace(rest[0])
    ensures TokenLength(a + rest) == |a|
  {
    if |a| > 0 {
      assert (a + rest)[1..] == a[1..] + rest;
      TokenLengthOf(a[1..], rest);
    }
  }

  lemma AbbreviationsLower()
    ensures Lower(MonthAbbreviations[0]) == "jan" && Lower(MonthAbbreviations[1]) == "feb"
    ensures Lower(MonthAbbreviations[2]) == "mar" && Lower(MonthAbbreviations[3]) == "apr"
    ensures Lower(MonthAbbreviations[4]) == "may" && Lower(MonthAbbreviations[5]) == "jun"
    ensures Lower(MonthAbbreviations[6]) == "jul" && Lower(MonthAbbreviations[7]) == "aug"
    ensures Lower(MonthAbbreviations[8]) == "sep" && Lower(MonthAbbreviations[9]) == "oct"
    ensures Lower(MonthAbbreviations[10]) == "nov" && Lower(MonthAbbreviations[11]) == "dec"
  {
  }

  lemma AbbreviationsDistinct(i: int, j: int)
    requires 0 <= i < 12 && 0 <= j < 12
    requires Lower(MonthAbbreviations[i]) == Lower(MonthAbbreviations[j])
    ensures i == j
  {
    AbbreviationsLower();
  }

  /** `%b` recognises each abbreviation as its own month. */
  lemma MonthNumberOfAbbreviation(m: int)
    requires 1 <= m <= 12
    ensures MonthNumber(MonthAbbreviations[m - 1], MonthAbbreviations) == Some(m)
  {
    var r := MonthNumber(MonthAbbreviations[m - 1], MonthAbbreviations);
    assert r.Some?;
    AbbreviationsDistinct(r.value - 1, m - 1);
  }

  lemma ParseMonthYearLabel(m: int, y: int)
    requires 1 <= m <= 12 && 1 <= y <= 9999
    ensures ParseMonthYear(MonthAbbreviations[m - 1] + " " + Pad(y, 4)) == Some((y, m))
  {
    var name := MonthAbbreviations[m - 1];
    var yy := Pad(y, 4);
    PadExact(y, 4);
    assert name != [] && NoSpace(name);
    WordsOfTwo(name, yy);
    MonthNumberOfAbbreviation(m);
  }

  /** For any month and any four-digit year, `_parse_date("Mon YYYY")` gives
      the first day of the month, or with `is_end` its last day (29 February
      in leap years). */
  lemma ParseDateMonthLabel(m: int, y: int, isEnd: bool)
    requires 1 <= m <= 12 && 1 <= y <= 9999
    ensures ParseDate(Some(MonthAbbreviations[m - 1] + " " + Pad(y, 4)), isEnd)
         == Some(IsoDate(Date(y, m, if isEnd then DaysInMonth(y, m) else 1)))
  {
    var name := MonthAbbreviations[m - 1];
    var yy := Pad(y, 4);
    PadExact(y, 4);
    var s := name + " " + yy;
    assert |name| == 3 && !IsSpace(name[0]);
    assert s[0] == name[0] && s[|s| - 1] == yy[3];
    StripUnchanged(s);
    assert |s| == 8;
    assert ParseDate(Some(s), isEnd) == DateFromText(s, isEnd);
    ParseMonthYearLabel(m, y);
  }

  lemma NamesDistinct(i: int, j: int)
    requires 0 <= i < 12 && 0 <= j < 12
    requires Lower(MonthNames[i]) == Lower(MonthNames[j])
    ensures i == j
  {
    var a, b := MonthNames[i], MonthNames[j];
    NameShape(i);
    NameShape(j);
    assert |a| == |b|;
    assert LowerChar(a[0]) == LowerChar(b[0]) && LowerChar(a[2]) == LowerChar(b[2]);
  }

  lemma NameShape(i: int)
    requires 0 <= i < 12
    ensures var name := MonthNames[i];
      && |name| >= 3 && NoSpace(name) && 'A' <= name[0] <= 'Z'
      && (|name| == 3 ==> i == 4)
      && (|name| >= 5 ==> name[4] != '-')
  {
  }

  /** `%B` recognises each full month name as its own month. */
  lemma MonthNumberOfName(m: int)
    requires 1 <= m <= 12
    ensures MonthNumber(MonthNames[m - 1], MonthNames) == Some(m)
  {
    var r := MonthNumber(MonthNames[m - 1], MonthNames);
    assert r.Some?;
    NamesDistinct(r.value - 1, m - 1);
  }

  /** `%b` reads no full month name as another month: only "May", which is
      also its own abbreviation, matches an abbreviation at all. */
  lemma FullNameAsAbbreviation(m: int)
    requires 1 <= m <= 12
    ensures var r := MonthNumber(MonthNames[m - 1], MonthAbbreviations);
      r.None? || r == Some(m)
  {
    var r := MonthNumber(MonthNames[m - 1], MonthAbbreviations);
    if r.Some? {
      AbbreviationShape(r.value - 1);
      NameShape(m - 1);
      assert |Lower(MonthNames[m - 1])| == 3;
      assert m == 5;
      assert MonthAbbreviations[4] == MonthNames[4];
      AbbreviationsDistinct(r.value - 1, 4);
    }
  }

  /** Every label "Month YYYY" built from a full month name and a four-digit
      year is read back as that month and year. */
  lemma ParseMonthYearFullLabel(m: int, y: int)
    requires 1 <= m <= 12 && 1 <= y <= 9999
    ensures ParseMonthYear(MonthNames[m - 1] + " " + Pad(y, 4)) == Some((y, m))
  {
    var name := MonthNames[m - 1];
    var yy := Pad(y, 4);
    PadExact(y, 4);
    NameShape(m - 1);
    WordsOfTwo(name, yy);
    FullNameAsAbbreviation(m);
    MonthNumberOfName(m);
  }

  /** For any month and any four-digit year, `_parse_date("Month YYYY")`
      gives the first day of the month, or with `is_end` its last day. */
  lemma ParseDateFullMonthLabel(m: int, y: int, isEnd: bool)
    requires 1 <= m <= 12 && 1 <= y <= 9999
    ensures ParseDate(Some(MonthNames[m - 1] + " " + Pad(y, 4)), isEnd)
         == Some(IsoDate(Date(y, m, if isEnd then DaysInMonth(y, m) else 1)))
  {
    var name := MonthNames[m - 1];
    var yy := Pad(y, 4);
    PadExact(y, 4);
    NameShape(m - 1);
    var s := name + " " + yy;
    assert s[0] == name[0] && s[|s| - 1] == yy[3];
    StripUnchanged(s);
    assert |s| == 10 ==> s[4] == name[4];
    assert !LooksLikeIsoDate(s);
    assert ParseDate(Some(s), isEnd) == DateFromText(s, isEnd);
    ParseMonthYearFullLabel(m, y);
  }

  /** `_normalize_month(value)`: None for empty input; an ISO date or
      timestamp becomes its `"Mon YYYY"` label; anything else comes back
      trimmed and otherwise unchanged. */
  function NormalizeMonth(value: Option<string>): (r: Option<string>)
    ensures IsEmpty(value) <==> r.None?
    ensures !IsEmpty(value) && FromIsoFormat(Strip(value.value)).None? ==> r == Some(Strip(value.value))
    ensures !IsEmpty(value) && FromIsoFormat(Strip(value.value)).Some? ==> r == Some(MonthLabel(FromIsoFormat(Strip(value.value)).value))
  {
    if IsEmpty(value) then None
    else
      var t := Strip(value.value);
      match FromIsoFormat(t)
      case Some(d) => Some(MonthLabel(d))
      case None => Some(t)
  }

  /** A normalised month label normalises to itself. */
  lemma NormalizeMonthIdempotent(value: Option<string>)
    ensures NormalizeMonth(value).Some? && NormalizeMonth(value).value != "" ==>
      NormalizeMonth(NormalizeMonth(value)) == NormalizeMonth(value)
  {
    var r := NormalizeMonth(value);
    if r.Some? && r.value != "" {
      var t := Strip(value.value);
      match FromIsoFormat(t)
      case Some(d) =>
        MonthLabelShape(d);
        StripUnchanged(MonthLabel(d));
      case None =>
        StripUnchanged(t);
    }
  }

  /** A month label is at most eight characters, with no blank at either
      end, so it is never read as an ISO date. */
  lemma MonthLabelShape(d: Date)
    requires ValidDate(d)
    ensures var l := MonthLabel(d);
      |l| <= 8 && !IsSpace(l[0]) && !IsSpace(l[|l| - 1]) && FromIsoFormat(l).None?
  {
    var name := MonthAbbreviations[d.month - 1];
    AbbreviationShape(d.month - 1);
    NatToStringLength(d.year, 4);
    var ys := NatToString(d.year);
    var l := name + " " + ys;
    assert l[|l| - 1] == ys[|ys| - 1];
    assert IsDigit(ys[|ys| - 1]);
  }

  lemma AbbreviationShape(i: int)
    requires 0 <= i < 12
    ensures |MonthAbbreviations[i]| == 3 && 'A' <= MonthAbbreviations[i][0] <= 'Z'
  {
  }

  // ---------------------------------------------------------------------
  // Entries and rows

  /** The ten fee categories of a pipeline entry, under their external names. */
  datatype Fees = Fees(
    accounts: real, creative: real, design: real, strategy: real, media: real,
    studio: real, creator: real, social: real, omni: real, finance: real)

  /** `PipelineEntry` as the API exchanges it; the numbers carry the model's
      defaults (0) once validated. Timestamps are their ISO text. */
  datatype PipelineEntry = PipelineEntry(
    projectCode: Option<string>,
    owner: string,
    client: string,
    programName: string,
    programType: Option<string>,
    region: Option<string>,
    startMonth: Option<string>,
    endMonth: Option<string>,
    startDate: Option<string>,
    endDate: Option<string>,
    revenue: real,
    totalFees: real,
    status: string,
    fees: Fees,
    createdBy: Option<string>,
    updatedBy: Option<string>,
    createdByEmail: Option<string>,
    updatedByEmail: Option<string>,
    createdAt: Option<string>,
    updatedAt: Option<string>)

  /** The external-to-column fee mapping: `studio` is stored as
      `digital_fees`, `strategy` as `strategic_planning_fees`. */
  function ToColumns(f: Fees): FeeColumns {
    FeeColumns(f.accounts, f.creative, f.design, f.strategy, f.media,
               f.creator, f.social, f.omni, f.studio, f.finance)
  }

  function FromColumns(c: FeeColumns): Fees {
    Fees(c.accountsFees, c.creativeFees, c.designFees, c.strategicPlanningFees, c.mediaFees,
         c.digitalFees, c.creatorFees, c.socialFees, c.omniFees, c.financeFees)
  }

  /** The fee mapping is a bijection: each direction undoes the other. */
  lemma FeeMappingInverse(f: Fees, c: FeeColumns)
    ensures FromColumns(ToColumns(f)) == f
    ensures ToColumns(FromColumns(c)) == c
    ensures ToColumns(f).digitalFees == f.studio && ToColumns(f).strategicPlanningFees == f.strategy
  {
  }

  /** `_to_db_row(user_id, entry)`: fails exactly when the project code is
      empty; otherwise normalises dates, month labels and status, applies
      the defaults, and records the caller as creator and updater. */
  function ToDbRow(userId: string, entry: PipelineEntry): (r: Result<PipelineRow, string>)
    ensures r.Err? <==> IsEmpty(entry.projectCode)
    ensures r.Err? ==> r.error == "projectCode is required"
    ensures r.Ok? ==> r.value.projectCode == entry.projectCode.value && r.value.projectCode != ""
    ensures r.Ok? ==> r.value.programType == OrElse(entry.programType, "Integrated") && r.value.programType != ""
    ensures r.Ok? ==> r.value.region == OrElse(entry.region, "Canada") && r.value.region != ""
    ensures r.Ok? ==> r.value.status == StatusName(NormalizeStatus(Some(entry.status)))
    ensures r.Ok? ==> r.value.createdBy == userId && r.value.updatedBy == userId
    ensures r.Ok? ==> FromColumns(r.value.columns) == entry.fees
    ensures r.Ok? ==> r.value.startDate == ParseDate(entry.startMonth, false) && r.value.endDate == ParseDate(entry.endMonth, true)
    ensures r.Ok? ==> r.value.startMonth == NormalizeMonth(entry.startMonth) && r.value.endMonth == NormalizeMonth(entry.endMonth)
  {
    if IsEmpty(entry.projectCode) then Err("projectCode is required")
    else Ok(PipelineRow(
      entry.projectCode.value,
      entry.owner,
      entry.client,
      entry.programName,
      OrElse(entry.programType, "Integrated"),
      OrElse(entry.region, "Canada"),
      ParseDate(entry.startMonth, false),
      ParseDate(entry.endMonth, true),
      NormalizeMonth(entry.startMonth),
      NormalizeMonth(entry.endMonth),
      entry.revenue,
      entry.totalFees,
      StatusName(NormalizeStatus(Some(entry.status))),
      ToColumns(entry.fees),
      userId,
      userId))
  }

  /** `_from_db_row(row)`, with the creator's and updater's e-mail addresses
      as the join with `users` supplies them (None when not joined). */
  function FromDbRow(s: StoredRow, createdByEmail: Option<string>, updatedByEmail: Option<string>): PipelineEntry {
    var r := s.row;
    PipelineEntry(
      Some(r.projectCode),
      r.owner,
      r.client,
      r.programName,
      Some(r.programType),
      Some(r.region),
      Some(OrElse(r.startMonth, "")),
      Some(OrElse(r.endMonth, "")),
      r.startDate,
      r.endDate,
      r.revenue,
      r.totalFees,
      r.status,
      FromColumns(r.columns),
      Some(r.createdBy),
      Some(r.updatedBy),
      createdByEmail,
      updatedByEmail,
      Some(s.createdAt),
      Some(s.updatedAt))
  }

  /** Writing an entry and reading the row back keeps its identity, names
      and every number; the status comes back normalised. Writing the read
      entry again produces the same identity, defaults, status, numbers and
      authorship. */
  lemma RowRoundTrip(userId: string, entry: PipelineEntry, createdAt: string, updatedAt: string,
                     ce: Option<string>, ue: Option<string>)
    requires ToDbRow(userId, entry).Ok?
    ensures var row := ToDbRow(userId, entry).value;
            var back := FromDbRow(StoredRow(row, createdAt, updatedAt), ce, ue);
            && back.projectCode == entry.projectCode
            && back.owner == entry.owner && back.client == entry.client
            && back.programName == entry.programName
            && back.revenue == entry.revenue && back.totalFees == entry.totalFees
            && back.fees == entry.fees
            && back.status == StatusName(NormalizeStatus(Some(entry.status)))
            && back.createdBy == Some(userId) && back.updatedBy == Some(userId)
    ensures var row := ToDbRow(userId, entry).value;
            var back := FromDbRow(StoredRow(row, createdAt, updatedAt), ce, ue);
            var again := ToDbRow(userId, back);
            && again.Ok?
            && again.value.(startDate := row.startDate, endDate := row.endDate,
                            startMonth := row.startMonth, endMonth := row.endMonth) == row
  {
    var row := ToDbRow(userId, entry).value;
    FeeMappingInverse(entry.fees, row.columns);
    NormalizeStatusIdempotent(Some(entry.status));
  }

  // ---------------------------------------------------------------------
  // Changelog

  /** `PipelineChange`; `kind` is the `type` field. Its project code is a
      required string, so an entry without one cannot be turned into a
      change. */
  datatype PipelineChange = PipelineChange(
    kind: string, projectCode: string, projectName: string, client: string,
    description: string, date: string, user: string)

  /** The one change `build_pipeline_changelog` emits for an entry. */
  function AdditionOf(entry: PipelineEntry, userEmail: string, now: string): (c: PipelineChange)
    requires entry.projectCode.Some?
    ensures c.kind == "addition" && c.projectCode == entry.projectCode.value
    ensures c.date == (if entry.updatedAt.Some? then entry.updatedAt.value
                       else if entry.createdAt.Some? then entry.createdAt.value else now)
    ensures c.projectName == entry.programName && c.client == entry.client
    ensures c.description == "Added/updated from Cloud SQL"
    ensures !IsEmpty(entry.updatedByEmail) ==> c.user == entry.updatedByEmail.value
    ensures IsEmpty(entry.updatedByEmail) && !IsEmpty(entry.createdByEmail) ==>
      c.user == entry.createdByEmail.value
    ensures IsEmpty(entry.updatedByEmail) && IsEmpty(entry.createdByEmail) && userEmail != "" ==>
      c.user == userEmail
    ensures IsEmpty(entry.updatedByEmail) && IsEmpty(entry.createdByEmail) && userEmail == "" ==>
      c.user == "system"
    ensures c.user != ""
  {
    var date := if entry.updatedAt.Some? then entry.updatedAt.value
                else if entry.createdAt.Some? then entry.createdAt.value else now;
    PipelineChange(
      "addition", entry.projectCode.value, entry.programName, entry.client,
      "Added/updated from Cloud SQL", date,
      OrElse(entry.updatedByEmail, OrElse(entry.createdByEmail, OrElse(Some(userEmail), "system"))))
  }

  /** The changes in input order, before sorting. */
  function Additions(entries: seq<PipelineEntry>, userEmail: string, now: string): (r: seq<PipelineChange>)
    requires forall i :: 0 <= i < |entries| ==> entries[i].projectCode.Some?
    ensures |r| == |entries|
    ensures forall i :: 0 <= i < |r| ==> r[i] == AdditionOf(entries[i], userEmail, now)
  {
    seq(|entries|, i requires 0 <= i < |entries| && entries[i].projectCode.Some? => AdditionOf(entries[i], userEmail, now))
  }

  function DateKey(c: PipelineChange): seq<string> {
    [c.date]
  }

  /** `build_pipeline_changelog(entries, user_email)`: exactly one
      "addition" per entry, ordered by date text, newest first. */
  method BuildChangelog(entries: seq<PipelineEntry>, userEmail: string, now: string)
    returns (changes: seq<PipelineChange>)
    requires forall i :: 0 <= i < |entries| ==> entries[i].projectCode.Some?
    ensures changes == SortBy(Additions(entries, userEmail, now), DateKey, true)
    ensures |changes| == |entries|
    ensures multiset(changes) == multiset(Additions(entries, userEmail, now))
    ensures forall i :: 0 <= i < |changes| ==> changes[i].kind == "addition"
    ensures SortedBy(changes, DateKey, true)
  {
    var acc: seq<PipelineChange> := [];
    var i := 0;
    while i < |entries|
      invariant 0 <= i <= |entries|
      invariant acc == Additions(entries[..i], userEmail, now)
    {
      acc := acc + [AdditionOf(entries[i], userEmail, now)];
      i := i + 1;
    }
    assert entries[..i] == entries;
    changes := SortBy(acc, DateKey, true);
    SortBySpec(acc, DateKey, true);
    forall k | 0 <= k < |changes| ensures changes[k].kind == "addition" {
      assert changes[k] in multiset(acc);
    }
  }

  // ---------------------------------------------------------------------
  // Project codes

  /** `project_code LIKE 'P____-<year>'`, with the year compared as plain
      text: `%`, `_` and `\` in it are not read as `LIKE` syntax. */
  predicate MatchesCodePattern(code: string, year: string) {
    |code| == 6 + |year| && code[0] == 'P' && code[5] == '-' && code[6..] == year
  }

  /** The code `get_next_project_code` derives from the greatest matching
      code: characters 1 to 4 plus one, zero-filled to four places, or 1
      when they are not an integer. */
  function CodeAfter(latest: string, year: string): string {
    "P" + ZFill(IntToString(NextNumber(latest)), 4) + "-" + year
  }

  /** The number after the one in characters 1 to 4, or 1 when they are not
      an integer. */
  function NextNumber(latest: string): int {
    var prefix := if |latest| >= 5 then latest[1..5] else "0000";
    match ParseInt(prefix) case Some(n) => n + 1 case None => 1
  }

  lemma CodeShape(digits: string, year: string)
    ensures StartsWith("P" + digits + "-" + year, "P")
    ensures EndsWith("P" + digits + "-" + year, "-" + year)
  {
    var c := "P" + digits + "-" + year;
    assert c == "P" + (digits + "-" + year);
    assert c == ("P" + digits) + ("-" + year);
    assert c[..1] == "P";
    assert c[|c| - |year| - 1..] == "-" + year;
  }

  /** The derived code always starts with `P` and ends with `-<year>`. */
  lemma CodeAfterShape(latest: string, year: string)
    ensures StartsWith(CodeAfter(latest, year), "P")
    ensures EndsWith(CodeAfter(latest, year), "-" + year)
  {
    CodeShape(ZFill(IntToString(NextNumber(latest)), 4), year);
  }

  /** With digits after the `P`, the next number is their value plus one. */
  lemma NextNumberDigits(latest: string)
    requires |latest| >= 5 && IsDigits(latest[1..5])
    ensures NextNumber(latest) == DigitsValue(latest[1..5]) + 1
  {
    ParseIntDigits(latest[1..5]);
  }

  /** With a four-digit number after the `P`, the next code carries that
      number plus one in at least four digits. */
  lemma CodeAfterNumeric(latest: string, year: string)
    requires |latest| >= 5 && IsDigits(latest[1..5])
    ensures var n := DigitsValue(latest[1..5]) + 1;
            var digits := ZFill(NatToString(n), 4);
            && CodeAfter(latest, year) == "P" + digits + "-" + year
            && IsDigits(digits) && |digits| >= 4 && DigitsValue(digits) == n
  {
    NextNumberDigits(latest);
    ZFillNat(DigitsValue(latest[1..5]) + 1, 4);
  }

  /** Below 9999 the derived code is again of the `P____-<year>` shape, so
      the next query finds it. */
  lemma CodeAfterMatchesPattern(latest: string, year: string)
    requires |latest| >= 5 && IsDigits(latest[1..5]) && DigitsValue(latest[1..5]) < 9999
    ensures MatchesCodePattern(CodeAfter(latest, year), year)
  {
    CodeAfterNumeric(latest, year);
    var n := DigitsValue(latest[1..5]) + 1;
    assert Pow10(4) == 10000;
    PadExact(n, 4);
    var digits := ZFill(NatToString(n), 4);
    PatternOfDigits(digits, year);
  }

  lemma PatternOfDigits(digits: string, year: string)
    requires |digits| == 4
    ensures MatchesCodePattern("P" + digits + "-" + year, year)
  {
    var c := "P" + digits + "-" + year;
    assert c == ("P" + digits + "-") + year;
    assert c[5] == '-';
  }

  /** A prefix that is not an integer restarts the numbering at 1. */
  lemma CodeAfterRestart(latest: string, year: string)
    requires |latest| >= 5 && ParseInt(latest[1..5]).None?
    ensures CodeAfter(latest, year) == "P0001-" + year
  {
    var digits := ZFill(IntToString(NextNumber(latest)), 4);
    assert NextNumber(latest) == 1;
    FillOne();
    assert digits == "0001";
    RestartText(year);
  }

  lemma RestartText(year: string)
    ensures "P" + "0001" + "-" + year == "P0001-" + year
  {
    assert "P" + "0001" + "-" == "P0001-";
  }

  lemma FillOne()
    ensures ZFill(IntToString(1), 4) == "0001"
  {
    assert IntToString(1) == "1";
    assert Zeros(3) == "000";
  }

  // ---------------------------------------------------------------------
  // Table operations

  /** Inserting `row` or, when its code exists, overwriting every column but
      the creator and the creation time (`ON CONFLICT ... DO UPDATE`). */
  function Upserted(prev: Option<StoredRow>, row: PipelineRow, now: string): StoredRow {
    match prev
    case None => StoredRow(row, now, now)
    case Some(prior) => StoredRow(row.(createdBy := prior.row.createdBy), prior.createdAt, now)
  }

  function Lookup(rows: map<string, StoredRow>, code: string): Option<StoredRow> {
    if code in rows then Some(rows[code]) else None
  }

  function UpsertRow(rows: map<string, StoredRow>, row: PipelineRow, now: string): map<string, StoredRow> {
    rows[row.projectCode := Upserted(Lookup(rows, row.projectCode), row, now)]
  }

  function CodesOf(rs: seq<PipelineRow>): set<string> {
    set k | 0 <= k < |rs| :: rs[k].projectCode
  }

  /** The upserts of the loop, applied in order. */
  function UpsertRows(rows: map<string, StoredRow>, rs: seq<PipelineRow>, now: string): (r: map<string, StoredRow>)
    ensures r.Keys == rows.Keys + CodesOf(rs)
  {
    if |rs| == 0 then rows
    else
      var prev := UpsertRows(rows, rs[..|rs| - 1], now);
      assert CodesOf(rs) == CodesOf(rs[..|rs| - 1]) + {rs[|rs| - 1].projectCode} by {
        assert forall k :: 0 <= k < |rs| - 1 ==> rs[..|rs| - 1][k] == rs[k];
      }
      UpsertRow(prev, rs[|rs| - 1], now)
  }

  /** `DELETE ... WHERE created_by = user AND project_code NOT IN codes`. */
  function PruneOwned(rows: map<string, StoredRow>, userId: string, keep: set<string>): map<string, StoredRow> {
    map c | c in rows && !(rows[c].row.createdBy == userId && c !in keep) :: rows[c]
  }

  /** `DELETE ... WHERE created_by = user`. */
  function DeleteOwned(rows: map<string, StoredRow>, userId: string): map<string, StoredRow> {
    map c | c in rows && rows[c].row.createdBy != userId :: rows[c]
  }

  /** One `INSERT ... ON CONFLICT (project_code) DO UPDATE`: the row's code is
      present afterwards and no other row changes; a new code is inserted as
      written at `now`; an existing code keeps its creator and creation time
      and takes every other column from the new row. */
  lemma UpsertRowEffect(rows: map<string, StoredRow>, row: PipelineRow, now: string)
    ensures UpsertRow(rows, row, now).Keys == rows.Keys + {row.projectCode}
    ensures forall c :: c in rows && c != row.projectCode ==> UpsertRow(rows, row, now)[c] == rows[c]
    ensures row.projectCode !in rows ==> UpsertRow(rows, row, now)[row.projectCode] == StoredRow(row, now, now)
    ensures row.projectCode in rows ==>
      var prior := rows[row.projectCode];
      UpsertRow(rows, row, now)[row.projectCode] == StoredRow(row.(createdBy := prior.row.createdBy), prior.createdAt, now)
  {
  }

  /** `DELETE ... WHERE created_by = user AND project_code NOT IN keep`: a row
      survives exactly when another user created it or its code is kept, and
      survivors are unchanged. */
  lemma PruneOwnedSpec(rows: map<string, StoredRow>, userId: string, keep: set<string>)
    ensures forall c :: c in PruneOwned(rows, userId, keep) <==>
      c in rows && (rows[c].row.createdBy != userId || c in keep)
    ensures forall c :: c in PruneOwned(rows, userId, keep) ==> PruneOwned(rows, userId, keep)[c] == rows[c]
  {
  }

  /** `DELETE ... WHERE created_by = user`: exactly the rows other users
      created survive, unchanged. */
  lemma DeleteOwnedSpec(rows: map<string, StoredRow>, userId: string)
    ensures forall c :: c in DeleteOwned(rows, userId) <==> c in rows && rows[c].row.createdBy != userId
    ensures forall c :: c in DeleteOwned(rows, userId) ==> DeleteOwned(rows, userId)[c] == rows[c]
  {
  }

  /** The branch for an empty submission deletes what pruning with an empty
      keep-set would. */
  lemma DeleteOwnedIsPruneNothing(rows: map<string, StoredRow>, userId: string)
    ensures DeleteOwned(rows, userId) == PruneOwned(rows, userId, {})
  {
  }

  predicate HasCode(e: PipelineEntry) {
    !IsEmpty(e.projectCode)
  }

  /** The index of the first entry without a project code, or the length. */
  function CodedPrefix(entries: seq<PipelineEntry>): (k: nat)
    ensures k <= |entries|
    ensures forall j :: 0 <= j < k ==> HasCode(entries[j])
    ensures k < |entries| ==> !HasCode(entries[k])
  {
    if |entries| == 0 || !HasCode(entries[0]) then 0 else 1 + CodedPrefix(entries[1..])
  }

  /** The first entry without a code decides `CodedPrefix`; with none it is
      the length. */
  lemma {:induction false} CodedPrefixAt(entries: seq<PipelineEntry>, i: int)
    requires 0 <= i <= |entries|
    requires forall j :: 0 <= j < i ==> HasCode(entries[j])
    requires i < |entries| ==> !HasCode(entries[i])
    ensures CodedPrefix(entries) == i
  {
    if i > 0 {
      assert HasCode(entries[0]);
      CodedPrefixAt(entries[1..], i - 1);
    }
  }

  function RowsOf(userId: string, entries: seq<PipelineEntry>): (rs: seq<PipelineRow>)
    requires forall j :: 0 <= j < |entries| ==> HasCode(entries[j])
    ensures |rs| == |entries|
  {
    if |entries| == 0 then []
    else
      var n := |entries| - 1;
      assert HasCode(entries[n]);
      RowsOf(userId, entries[..n]) + [ToDbRow(userId, entries[n]).value]
  }

  /** Each row is the conversion of the entry at the same place. */
  lemma {:induction false} RowsOfAt(userId: string, entries: seq<PipelineEntry>, j: int)
    requires forall i :: 0 <= i < |entries| ==> HasCode(entries[i])
    requires 0 <= j < |entries|
    ensures Ok(RowsOf(userId, entries)[j]) == ToDbRow(userId, entries[j])
  {
    var n := |entries| - 1;
    if j < n {
      var init := entries[..n];
      assert forall i :: 0 <= i < |init| ==> init[i] == entries[i];
      RowsOfPrefix(userId, entries, j);
      RowsOfAt(userId, init, j);
    } else {
      RowsOfLast(userId, entries);
    }
  }

  lemma RowsOfPrefix(userId: string, entries: seq<PipelineEntry>, j: int)
    requires forall i :: 0 <= i < |entries| ==> HasCode(entries[i])
    requires 0 <= j < |entries| - 1
    ensures RowsOf(userId, entries)[j] == RowsOf(userId, entries[..|entries| - 1])[j]
  {
  }

  lemma RowsOfLast(userId: string, entries: seq<PipelineEntry>)
    requires forall i :: 0 <= i < |entries| ==> HasCode(entries[i])
    requires |entries| > 0
    ensures Ok(RowsOf(userId, entries)[|entries| - 1]) == ToDbRow(userId, entries[|entries| - 1])
  {
  }

  /** The whole effect on the table of a successful
      `replace_pipeline_entries`. */
  function Replaced(rows: map<string, StoredRow>, userId: string, entries: seq<PipelineEntry>, now: string): map<string, StoredRow>
    requires forall j :: 0 <= j < |entries| ==> HasCode(entries[j])
  {
    var rs := RowsOf(userId, entries);
    PruneOwned(UpsertRows(rows, rs, now), userId, CodesOf(rs))
  }

  /** What a sequence of upserts by one user leaves under one code: codes
      not submitted are untouched, and a submitted code keeps an existing
      row's creator and creation time and is updated now. */
  lemma {:induction false} UpsertRowsAt(rows: map<string, StoredRow>, rs: seq<PipelineRow>, userId: string, now: string, c: string)
    requires forall k :: 0 <= k < |rs| ==> rs[k].createdBy == userId
    ensures c !in CodesOf(rs) && c in rows ==> UpsertRows(rows, rs, now)[c] == rows[c]
    ensures c in CodesOf(rs) ==>
      var r := UpsertRows(rows, rs, now)[c];
      && r.row.createdBy == (if c in rows then rows[c].row.createdBy else userId)
      && r.createdAt == (if c in rows then rows[c].createdAt else now)
      && r.updatedAt == now
  {
    if |rs| > 0 {
      var init := rs[..|rs| - 1];
      assert forall k :: 0 <= k < |init| ==> init[k] == rs[k];
      UpsertRowsAt(rows, init, userId, now, c);
      assert CodesOf(rs) == CodesOf(init) + {rs[|rs| - 1].projectCode};
    }
  }

  /** The last upsert under a code decides what it holds. */
  lemma {:induction false} UpsertRowsLastWins(rows: map<string, StoredRow>, rs: seq<PipelineRow>, userId: string, now: string, j: int)
    requires forall k :: 0 <= k < |rs| ==> rs[k].createdBy == userId
    requires 0 <= j < |rs|
    requires forall k :: j < k < |rs| ==> rs[k].projectCode != rs[j].projectCode
    ensures UpsertRows(rows, rs, now)[rs[j].projectCode] == Upserted(Lookup(rows, rs[j].projectCode), rs[j], now)
  {
    var n := |rs| - 1;
    var init := rs[..n];
    if j < n {
      forall k | 0 <= k < |init| ensures init[k].createdBy == userId {
        assert init[k] == rs[k];
      }
      forall k | j < k < |init| ensures init[k].projectCode != init[j].projectCode {
        assert init[k] == rs[k] && init[j] == rs[j];
      }
      UpsertRowsLastWins(rows, init, userId, now, j);
      assert init[j] == rs[j];
      assert rs[j].projectCode in CodesOf(init);
      UpsertRowsOther(rows, rs, now, rs[j].projectCode);
    } else {
      UpsertRowsLast(rows, rs, userId, now);
    }
  }

  /** The last upsert does not touch other codes. */
  lemma UpsertRowsOther(rows: map<string, StoredRow>, rs: seq<PipelineRow>, now: string, c: string)
    requires |rs| > 0 && rs[|rs| - 1].projectCode != c
    ensures c in UpsertRows(rows, rs[..|rs| - 1], now) ==>
      UpsertRows(rows, rs, now)[c] == UpsertRows(rows, rs[..|rs| - 1], now)[c]
  {
  }

  /** The last upsert of the caller's rows decides its own code. */
  lemma UpsertRowsLast(rows: map<string, StoredRow>, rs: seq<PipelineRow>, userId: string, now: string)
    requires forall k :: 0 <= k < |rs| ==> rs[k].createdBy == userId
    requires |rs| > 0
    ensures var last := rs[|rs| - 1];
      UpsertRows(rows, rs, now)[last.projectCode] == Upserted(Lookup(rows, last.projectCode), last, now)
  {
    var init := rs[..|rs| - 1];
    assert forall k :: 0 <= k < |init| ==> init[k] == rs[k];
    UpsertRowsAt(rows, init, userId, now, rs[|rs| - 1].projectCode);
  }

  /** The rows built for a submission are the caller's and carry the
      submitted codes. */
  lemma RowsOfFacts(userId: string, entries: seq<PipelineEntry>)
    requires forall j :: 0 <= j < |entries| ==> HasCode(entries[j])
    ensures forall k :: 0 <= k < |entries| ==>
      RowsOf(userId, entries)[k].createdBy == userId && RowsOf(userId, entries)[k].projectCode == entries[k].projectCode.value
  {
    var rs := RowsOf(userId, entries);
    forall k | 0 <= k < |entries|
      ensures rs[k].createdBy == userId && rs[k].projectCode == entries[k].projectCode.value
    {
      RowsOfAt(userId, entries, k);
    }
  }

  /** Replacing with nothing deletes exactly the caller's rows. */
  lemma ReplacedEmpty(rows: map<string, StoredRow>, userId: string, now: string)
    ensures Replaced(rows, userId, [], now) == DeleteOwned(rows, userId)
  {
    assert RowsOf(userId, []) == [];
    assert CodesOf([]) == {};
  }

  /** Every submitted code is present after the replace. */
  lemma ReplacedHasSubmitted(rows: map<string, StoredRow>, userId: string, entries: seq<PipelineEntry>, now: string, j: int)
    requires forall i :: 0 <= i < |entries| ==> HasCode(entries[i])
    requires 0 <= j < |entries| && HasCode(entries[j])
    ensures entries[j].projectCode.value in Replaced(rows, userId, entries, now)
  {
    RowsOfFacts(userId, entries);
    var rs := RowsOf(userId, entries);
    assert rs[j].projectCode in CodesOf(rs);
  }

  /** After the replace, a row is the caller's exactly when its code was
      submitted and was either new or already the caller's: rows another
      user created stay theirs even when the caller resubmits them. */
  lemma ReplacedOwnership(rows: map<string, StoredRow>, userId: string, entries: seq<PipelineEntry>, now: string, c: string)
    requires forall i :: 0 <= i < |entries| ==> HasCode(entries[i])
    ensures var r := Replaced(rows, userId, entries, now);
      (c in r && r[c].row.createdBy == userId)
      <==> (c in CodesOf(RowsOf(userId, entries)) && (c !in rows || rows[c].row.createdBy == userId))
  {
    RowsOfFacts(userId, entries);
    UpsertRowsAt(rows, RowsOf(userId, entries), userId, now, c);
  }

  /** Rows created by anyone else survive the replace, and those not
      resubmitted are untouched. */
  lemma ReplacedKeepsOthers(rows: map<string, StoredRow>, userId: string, entries: seq<PipelineEntry>, now: string, c: string)
    requires forall i :: 0 <= i < |entries| ==> HasCode(entries[i])
    requires c in rows && rows[c].row.createdBy != userId
    ensures var r := Replaced(rows, userId, entries, now);
      c in r && (c !in CodesOf(RowsOf(userId, entries)) ==> r[c] == rows[c])
  {
    RowsOfFacts(userId, entries);
    UpsertRowsAt(rows, RowsOf(userId, entries), userId, now, c);
  }

  /** "A later duplicate wins": the row under a submitted code carries the
      columns of the last entry with that code. */
  lemma ReplacedLastWins(rows: map<string, StoredRow>, userId: string, entries: seq<PipelineEntry>, now: string, j: nat)
    requires forall i :: 0 <= i < |entries| ==> HasCode(entries[i])
    requires j < |entries| && HasCode(entries[j])
    requires forall k :: j < k < |entries| ==> entries[k].projectCode != entries[j].projectCode
    ensures var c := entries[j].projectCode.value;
            var r := Replaced(rows, userId, entries, now);
            c in r && r[c] == Upserted(Lookup(rows, c), ToDbRow(userId, entries[j]).value, now)
  {
    RowsOfFacts(userId, entries);
    var rs := RowsOf(userId, entries);
    var c := entries[j].projectCode.value;
    assert c in CodesOf(rs);
    RowsOfAt(userId, entries, j);
    UpsertRowsLastWins(rows, rs, userId, now, j);
  }

  lemma RowsOfSnoc(userId: string, entries: seq<PipelineEntry>, i: int)
    requires 0 <= i < |entries|
    requires forall j :: 0 <= j <= i ==> HasCode(entries[j])
    ensures RowsOf(userId, entries[..i + 1]) == RowsOf(userId, entries[..i]) + [ToDbRow(userId, entries[i]).value]
  {
    assert entries[..i + 1][..i] == entries[..i];
  }

  /** One more row is one more upsert. */
  lemma UpsertRowsSnoc(rows: map<string, StoredRow>, rs: seq<PipelineRow>, row: PipelineRow, now: string)
    ensures UpsertRows(rows, rs + [row], now) == UpsertRow(UpsertRows(rows, rs, now), row, now)
  {
    assert (rs + [row])[..|rs|] == rs;
  }

  lemma UpsertRowConsistent(rows: map<string, StoredRow>, row: PipelineRow, now: string)
    requires PipelineKeysConsistent(rows)
    ensures PipelineKeysConsistent(UpsertRow(rows, row, now))
  {
  }

  lemma PruneConsistent(rows: map<string, StoredRow>, userId: string, keep: set<string>)
    requires PipelineKeysConsistent(rows)
    ensures PipelineKeysConsistent(PruneOwned(rows, userId, keep)) && PipelineKeysConsistent(DeleteOwned(rows, userId))
  {
  }

  /** A row as the listing query returns it: joined with the e-mail
      addresses of its creator and last updater. */
  function Joined(rows: map<string, StoredRow>, users: map<string, string>, code: string): (e: PipelineEntry)
    requires code in rows && PipelineKeysConsistent(rows)
    ensures e.projectCode == Some(code)
  {
    var s := rows[code];
    FromDbRow(s, EmailOf(users, s.row.createdBy), EmailOf(users, s.row.updatedBy))
  }

  /** `entries` lists every row of the table once, in ascending order of
      the project codes `codes`, each joined with its users' e-mails. */
  ghost predicate PipelineListing(rows: map<string, StoredRow>, users: map<string, string>,
                                  codes: seq<string>, entries: seq<PipelineEntry>)
    requires PipelineKeysConsistent(rows)
  {
    && |codes| == |rows| && (forall c :: c in codes <==> c in rows)
    && SortedBy(codes, SingleKey, false)
    && |entries| == |codes|
    && (forall i :: 0 <= i < |codes| ==> entries[i] == Joined(rows, users, codes[i]))
    && (forall i :: 0 <= i < |codes| ==> entries[i].projectCode == Some(codes[i]))
  }

  /** The upsert loop of `replace_pipeline_entries`: one statement per
      entry, stopping at the first entry without a code, whose index is
      returned (the length when there is none). */
  method UpsertEach(db: Db, userId: string, entries: seq<PipelineEntry>, now: string) returns (k: nat)
    requires db.Valid()
    modifies db`pipeline
    ensures db.Valid()
    ensures k == CodedPrefix(entries)
    ensures db.pipeline == UpsertRows(old(db.pipeline), RowsOf(userId, entries[..k]), now)
  {
    var i := 0;
    while i < |entries|
      invariant 0 <= i <= |entries|
      invariant forall j :: 0 <= j < i ==> HasCode(entries[j])
      invariant db.pipeline == UpsertRows(old(db.pipeline), RowsOf(userId, entries[..i]), now)
      invariant db.Valid()
    {
      if !HasCode(entries[i]) {
        CodedPrefixAt(entries, i);
        return i;
      }
      UpsertNext(db, old(db.pipeline), RowsOf(userId, entries[..i]), userId, entries[i], now);
      RowsOfSnoc(userId, entries, i);
      i := i + 1;
    }
    CodedPrefixAt(entries, i);
    k := i;
  }

  /** One turn of the loop above: the entry's row is built and upserted. */
  method UpsertNext(db: Db, ghost rows: map<string, StoredRow>, ghost rs: seq<PipelineRow>, userId: string, entry: PipelineEntry, now: string)
    requires db.Valid() && HasCode(entry)
    requires db.pipeline == UpsertRows(rows, rs, now)
    modifies db`pipeline
    ensures db.Valid()
    ensures db.pipeline == UpsertRows(rows, rs + [ToDbRow(userId, entry).value], now)
  {
    var r := ToDbRow(userId, entry);
    UpsertRowsSnoc(rows, rs, r.value, now);
    UpsertRowConsistent(db.pipeline, r.value, now);
    db.pipeline := UpsertRow(db.pipeline, r.value, now);
  }

  /** `replace_pipeline_entries(user_id, entries, email)`. The entries are
      upserted one statement at a time; an entry without a code raises
      after the earlier upserts took effect and before any deletion.
      Otherwise the caller's rows not submitted are deleted. */
  method ReplacePipelineEntries(db: Db, userId: string, entries: seq<PipelineEntry>, email: Option<string>, now: string)
    returns (err: Option<string>)
    requires db.Valid()
    modifies db`pipeline, db`users
    ensures db.Valid()
    ensures db.users == EnsuredUsers(old(db.users), userId, email)
    ensures err.None? <==> CodedPrefix(entries) == |entries|
    ensures err.Some? ==> err.value == "projectCode is required"
    ensures err.None? ==> db.pipeline == Replaced(old(db.pipeline), userId, entries, now)
    ensures err.Some? ==> db.pipeline == UpsertRows(old(db.pipeline), RowsOf(userId, entries[..CodedPrefix(entries)]), now)
  {
    EnsureUser(db, userId, email);
    var k := UpsertEach(db, userId, entries, now);
    if k < |entries| {
      return Some("projectCode is required");
    }
    assert entries[..k] == entries;
    PruneUnsubmitted(db, userId, entries);
    err := None;
  }

  /** The deletion that ends `replace_pipeline_entries`: the caller's rows
      whose code was not submitted, or all of the caller's rows when
      nothing was submitted. */
  method PruneUnsubmitted(db: Db, userId: string, entries: seq<PipelineEntry>)
    requires db.Valid()
    requires forall j :: 0 <= j < |entries| ==> HasCode(entries[j])
    modifies db`pipeline
    ensures db.Valid()
    ensures db.pipeline == PruneOwned(old(db.pipeline), userId, CodesOf(RowsOf(userId, entries)))
  {
    var rs := RowsOf(userId, entries);
    PruneCodes(db, userId, CodesOf(rs), |rs| > 0);
  }

  /** The deletion over the submitted codes; `submitted` tells whether any
      entry was submitted at all. */
  method PruneCodes(db: Db, userId: string, codes: set<string>, submitted: bool)
    requires db.Valid()
    requires !submitted ==> codes == {}
    modifies db`pipeline
    ensures db.Valid()
    ensures db.pipeline == PruneOwned(old(db.pipeline), userId, codes)
  {
    PruneConsistent(db.pipeline, userId, codes);
    if submitted {
      db.pipeline := PruneOwned(db.pipeline, userId, codes);
    } else {
      DeleteOwnedIsPruneNothing(db.pipeline, userId);
      db.pipeline := DeleteOwned(db.pipeline, userId);
    }
  }

  /** `upsert_pipeline_entry(user_id, entry, email)`: the saved row as
      `RETURNING *` gives it, without the joined e-mail addresses. */
  method UpsertPipelineEntry(db: Db, userId: string, entry: PipelineEntry, email: Option<string>, now: string)
    returns (r: Result<PipelineEntry, string>)
    requires db.Valid()
    modifies db`pipeline, db`users
    ensures db.Valid()
    ensures db.users == EnsuredUsers(old(db.users), userId, email)
    ensures r.Err? <==> !HasCode(entry)
    ensures r.Err? ==> r.error == "projectCode is required" && db.pipeline == old(db.pipeline)
    ensures r.Ok? ==> db.pipeline == UpsertRow(old(db.pipeline), ToDbRow(userId, entry).value, now)
    ensures r.Ok? ==> var code := entry.projectCode.value;
      && code in db.pipeline
      && r.value == FromDbRow(db.pipeline[code], None, None)
      && r.value.projectCode == entry.projectCode
      && r.value.owner == entry.owner && r.value.fees == entry.fees
  {
    EnsureUser(db, userId, email);
    if !HasCode(entry) {
      return Err("projectCode is required");
    }
    var saved := StoreEntry(db, userId, entry, now);
    r := Ok(saved);
  }

  /** The coded half of `upsert_pipeline_entry`: the row is built, upserted
      and read back. */
  method StoreEntry(db: Db, userId: string, entry: PipelineEntry, now: string) returns (saved: PipelineEntry)
    requires db.Valid() && HasCode(entry)
    modifies db`pipeline
    ensures db.Valid()
    ensures db.pipeline == UpsertRow(old(db.pipeline), ToDbRow(userId, entry).value, now)
    ensures var code := entry.projectCode.value;
      && code in db.pipeline
      && saved == FromDbRow(db.pipeline[code], None, None)
      && saved.projectCode == entry.projectCode
      && saved.owner == entry.owner && saved.fees == entry.fees
  {
    var row := ToDbRow(userId, entry).value;
    UpsertRowConsistent(db.pipeline, row, now);
    db.pipeline := UpsertRow(db.pipeline, row, now);
    FeeMappingInverse(entry.fees, row.columns);
    saved := FromDbRow(db.pipeline[row.projectCode], None, None);
  }

  /** `delete_pipeline_entry(project_code)`: whoever created it. */
  method DeletePipelineEntry(db: Db, code: string)
    requires db.Valid()
    modifies db`pipeline
    ensures db.Valid()
    ensures db.pipeline == old(db.pipeline) - {code}
  {
    db.pipeline := db.pipeline - {code};
  }

  /** `get_pipeline_entries_for_user(user_id)`: every row, whoever created
      it, joined with the creator's and updater's e-mail, ordered by
      project code (`codes` is that order). */
  method GetPipelineEntries(db: Db) returns (entries: seq<PipelineEntry>, ghost codes: seq<string>)
    requires db.Valid()
    ensures PipelineListing(db.pipeline, db.users, codes, entries)
  {
    var table, emails := db.pipeline, db.users;
    var sorted := SortedKeys(table);
    codes := sorted;
    entries := seq(|sorted|, i requires 0 <= i < |sorted| && sorted[i] in table => Joined(table, emails, sorted[i]));
  }

  /** `code` is what `get_next_project_code(year)` derives from the codes
      in `rows`. */
  ghost predicate IsNextCode(rows: map<string, StoredRow>, year: string, code: string) {
    if forall c :: c in rows ==> !MatchesCodePattern(c, year) then code == "P0001-" + year
    else
      exists l :: l in rows && MatchesCodePattern(l, year) && code == CodeAfter(l, year) &&
        forall c :: c in rows && MatchesCodePattern(c, year) ==> LexLe(c, l)
  }

  /** `get_next_project_code(year)`: "P0001-<year>" when no code has the
      shape `P????-<year>`, otherwise the successor of the greatest such
      code. */
  method NextProjectCode(db: Db, year: string) returns (code: string, ghost latest: Option<string>)
    ensures IsNextCode(db.pipeline, year, code)
    ensures StartsWith(code, "P") && EndsWith(code, "-" + year)
    ensures latest.None? <==> forall c :: c in db.pipeline ==> !MatchesCodePattern(c, year)
    ensures latest.None? ==> code == "P0001-" + year
    ensures latest.Some? ==> latest.value in db.pipeline && MatchesCodePattern(latest.value, year)
    ensures latest.Some? ==> forall c :: c in db.pipeline && MatchesCodePattern(c, year) ==> LexLe(c, latest.value)
    ensures latest.Some? ==> code == CodeAfter(latest.value, year)
  {
    var rows := db.pipeline;
    var remaining := rows.Keys;
    var best: Option<string> := None;
    while remaining != {}
      invariant remaining <= rows.Keys
      invariant best.Some? ==> best.value in rows && best.value !in remaining && MatchesCodePattern(best.value, year)
      invariant best.None? ==> forall c :: c in rows && c !in remaining ==> !MatchesCodePattern(c, year)
      invariant best.Some? ==> forall c :: c in rows && c !in remaining && MatchesCodePattern(c, year) ==> LexLe(c, best.value)
      decreases remaining
    {
      var c :| c in remaining;
      if MatchesCodePattern(c, year) {
        if best.None? {
          best := Some(c);
          LexLeRefl(c);
        } else {
          LexLeTotal(c, best.value);
          if !LexLe(c, best.value) {
            forall d | d in rows && d !in remaining && MatchesCodePattern(d, year)
              ensures LexLe(d, c)
            {
              LexLeTrans(d, best.value, c);
            }
            best := Some(c);
            LexLeRefl(c);
          }
        }
      }
      remaining := remaining - {c};
    }
    latest := best;
    if best.None? {
      code := "P0001-" + year;
      assert code[|code| - |year| - 1..] == "-" + year;
    } else {
      code := CodeAfter(best.value, year);
      CodeAfterShape(best.value, year);
    }
  }
}
