/** The quotes service: the `QuotePayload` record, the derivation of a
    quote's uid and columns from its dumped payload, the replace-set
    operation on the `quotes` table and the listing query. */
module QuotesService {
  import opened Common
  import opened PyStrings
  import opened Calendar
  import opened Sorting
  import opened Database

  // ---------------------------------------------------------------------
  // The payload record

  /** The declared string fields of `QuotePayload`. */
  const StringFields: set<string> := {"id", "projectNumber", "clientName", "projectName", "status"}

  const FullQuoteField: string := "full_quote"

  predicate StrOrNull(j: Json) {
    j.JNull? || j.JStr?
  }

  /** The declared fields that are present carry values of their declared
      types: an optional string, or for `full_quote` an optional object. */
  predicate FieldsTyped(m: map<string, Json>) {
    && (forall k :: k in StringFields && k in m ==> StrOrNull(m[k]))
    && (FullQuoteField in m ==> m[FullQuoteField].JNull? || m[FullQuoteField].JObj?)
  }

  /** What `QuotePayload(...).model_dump()` can be: every declared field is
      present with its declared type, next to any extra fields. */
  predicate ValidQuoteDump(d: map<string, Json>) {
    FieldsTyped(d) && StringFields <= d.Keys && FullQuoteField in d
  }

  /** `QuotePayload.model_validate(raw).model_dump()`: an object whose
      declared fields have their types validates; missing declared fields
      read as None and extra fields are kept (`extra="allow"`). None stands
      for the ValidationError. */
  function ValidateQuote(raw: Json): (r: Option<map<string, Json>>)
    ensures r.Some? <==> raw.JObj? && FieldsTyped(raw.fields)
    ensures r.Some? ==> ValidQuoteDump(r.value)
    ensures r.Some? ==> forall k :: k in raw.fields ==> k in r.value && r.value[k] == raw.fields[k]
    ensures r.Some? ==> forall k :: k in r.value && k !in raw.fields ==> r.value[k] == JNull
  {
    if raw.JObj? && FieldsTyped(raw.fields) then
      var m := raw.fields;
      Some(map k | k in m.Keys + StringFields + {FullQuoteField} :: if k in m then m[k] else JNull)
    else None
  }

  /** Validating a dump again changes nothing. */
  lemma ValidateQuoteIdempotent(raw: Json)
    requires ValidateQuote(raw).Some?
    ensures ValidateQuote(JObj(ValidateQuote(raw).value)) == ValidateQuote(raw)
  {
    var d := ValidateQuote(raw).value;
    assert ValidateQuote(JObj(d)).value == d;
  }

  // ---------------------------------------------------------------------
  // Pure helpers

  /** Python's `str(v)` for a decoded JSON value: a string is itself, and
      `show` renders every other value. */
  function PyStr(j: Json, show: Json -> string): string {
    if j.JStr? then j.s else show(j)
  }

  /** `_normalize_date(value)`: None for a falsy value, the date part of
      what `fromisoformat` reads from `str(value)`, and None when it cannot
      read it. */
  function NormalizeDate(value: Json, show: Json -> string): (r: Option<string>)
    ensures !Truthy(value) ==> r.None?
    ensures Truthy(value) ==> (r.Some? <==> FromIsoFormat(PyStr(value, show)).Some?)
    ensures r.Some? ==> |r.value| == 10 && r.value[4] == '-' && r.value[7] == '-'
    ensures r.Some? ==> FromIsoFormat(r.value) == FromIsoFormat(PyStr(value, show))
  {
    if !Truthy(value) then None
    else
      match FromIsoFormat(PyStr(value, show))
      case None => None
      case Some(d) =>
        IsoDateRoundTrip(d);
        Some(IsoDate(d))
  }

  /** A normalized date normalizes to itself. */
  lemma NormalizeDateIdempotent(value: Json, show: Json -> string)
    requires NormalizeDate(value, show).Some?
    ensures NormalizeDate(JStr(NormalizeDate(value, show).value), show) == NormalizeDate(value, show)
  {
    var d := FromIsoFormat(PyStr(value, show)).value;
    IsoDateRoundTrip(d);
  }

  /** `parse_quotes_value(value)`: a list as it is, a string holding a JSON
      list decoded with `loads`, and an empty list for anything else,
      including text `loads` rejects (None). */
  function ParseQuotesValue(value: Json, loads: string -> Option<Json>): (r: seq<Json>)
    ensures value.JNull? ==> r == []
    ensures value.JArr? ==> r == value.items
    ensures value.JStr? ==> (if loads(value.s).Some? && loads(value.s).value.JArr?
                             then r == loads(value.s).value.items else r == [])
    ensures !(value.JNull? || value.JArr? || value.JStr?) ==> r == []
  {
    match value
    case JArr(items) => items
    case JStr(s) =>
      (match loads(s)
       case Some(JArr(items)) => items
       case _ => [])
    case _ => []
  }

  /** Parsing what the parser returned gives it back: the list form is a
      fixed point. */
  lemma ParseQuotesValueIdempotent(value: Json, loads: string -> Option<Json>)
    ensures ParseQuotesValue(JArr(ParseQuotesValue(value, loads)), loads) == ParseQuotesValue(value, loads)
  {
  }

  /** `data.get("project", {}) or {}` followed by `.get`: a falsy or
      missing project reads as an empty object, an object as its fields,
      and anything else raises at `.get` (None). */
  function ProjectOf(data: map<string, Json>): (r: Option<map<string, Json>>)
    ensures r.None? <==> "project" in data && Truthy(data["project"]) && !data["project"].JObj?
    ensures r.Some? && "project" in data && data["project"].JObj? ==> r.value == data["project"].fields
  {
    var p := Get(JObj(data), "project");
    if !Truthy(p) then Some(map[])
    else if p.JObj? then Some(p.fields)
    else None
  }

  /** `data.get("projectNumber") or project.get("projectNumber") or ""`. */
  function ProjectNumber(data: map<string, Json>, project: map<string, Json>): Json {
    JOr(JOr(Get(JObj(data), "projectNumber"), Get(JObj(project), "projectNumber")), JStr(""))
  }

  /** The uid an upsert uses: `data.get("id") or f"{project_number or
      'quote'}-{user_id}"`. */
  function UidOf(data: map<string, Json>, userId: string, show: Json -> string): string
    requires ProjectOf(data).Some?
  {
    var id := Get(JObj(data), "id");
    if Truthy(id) then PyStr(id, show)
    else PyStr(JOr(ProjectNumber(data, ProjectOf(data).value), JStr("quote")), show) + "-" + userId
  }

  /** The uid the pruning list is built with, written out separately in the
      service: the project is looked up again and "quote" is the only
      fallback. */
  function PruneUid(data: map<string, Json>, userId: string, show: Json -> string): string {
    var id := Get(JObj(data), "id");
    if Truthy(id) then PyStr(id, show)
    else
      var project := JOr(Get(JObj(data), "project"), JObj(map[]));
      PyStr(JOr(JOr(Get(JObj(data), "projectNumber"), Get(project, "projectNumber")), JStr("quote")), show)
        + "-" + userId
  }

  /** The two derivations agree whenever the upsert loop got past the
      quote. */
  lemma PruneUidMatches(data: map<string, Json>, userId: string, show: Json -> string)
    requires ProjectOf(data).Some?
    ensures PruneUid(data, userId, show) == UidOf(data, userId, show)
  {
  }

  /** A truthy id is the uid. Without one the uid is the project number
      (the payload's, else the project's) or "quote", then `-` and the
      user id. */
  lemma UidOfSpec(data: map<string, Json>, userId: string, show: Json -> string)
    requires ValidQuoteDump(data) && ProjectOf(data).Some?
    ensures var id := data["id"];
      Truthy(id) ==> UidOf(data, userId, show) == id.s
    ensures var num := data["projectNumber"];
      !Truthy(data["id"]) && Truthy(num) ==> UidOf(data, userId, show) == num.s + "-" + userId
    ensures var pnum := Get(JObj(ProjectOf(data).value), "projectNumber");
      !Truthy(data["id"]) && !Truthy(data["projectNumber"]) && !Truthy(pnum)
      ==> UidOf(data, userId, show) == "quote-" + userId
    ensures var pnum := Get(JObj(ProjectOf(data).value), "projectNumber");
      !Truthy(data["id"]) && !Truthy(data["projectNumber"]) && Truthy(pnum)
      ==> UidOf(data, userId, show) == PyStr(pnum, show) + "-" + userId
    ensures !Truthy(data["id"]) ==> EndsWith(UidOf(data, userId, show), "-" + userId)
  {
    assert "id" in StringFields && "projectNumber" in StringFields;
    var u := UidOf(data, userId, show);
    if !Truthy(data["id"]) {
      var lead := PyStr(JOr(ProjectNumber(data, ProjectOf(data).value), JStr("quote")), show);
      assert u == lead + ("-" + userId);
      assert u[|u| - |"-" + userId|..] == "-" + userId;
    }
  }

  /** The columns one quote is saved with. */
  function QuoteRowOf(data: map<string, Json>, userId: string, show: Json -> string): (r: QuoteRow)
    requires ProjectOf(data).Some?
    ensures r.quoteUid == UidOf(data, userId, show)
    ensures r.createdBy == userId && r.updatedBy == userId
    ensures r.fullQuote == JObj(data)
  {
    var d := JObj(data);
    var p := JObj(ProjectOf(data).value);
    QuoteRow(
      quoteUid := UidOf(data, userId, show),
      projectNumber := ProjectNumber(data, ProjectOf(data).value),
      clientName := JOr(Get(d, "clientName"), JStr("")),
      clientCategory := JOr(JOr(Get(p, "clientCategory"), Get(d, "clientCategory")), JStr("")),
      brand := JOr(Get(d, "brand"), JStr("")),
      projectName := JOr(Get(d, "projectName"), JStr("")),
      briefDate := NormalizeDate(JOr(Get(p, "briefDate"), Get(d, "briefDate")), show),
      inMarketDate := NormalizeDate(JOr(Get(p, "inMarketDate"), Get(d, "inMarketDate")), show),
      projectCompletionDate := NormalizeDate(JOr(Get(p, "projectCompletionDate"), Get(d, "projectCompletionDate")), show),
      totalProgramBudget := JOr(Get(p, "totalProgramBudget"), Get(d, "totalRevenue")),
      rateCard := JOr(Get(p, "rateCard"), Get(d, "rateCard")),
      currency := JOr(JOr(Get(d, "currency"), Get(p, "currency")), JStr("CAD")),
      phases := JOr(Get(p, "phases"), JArr([])),
      phaseSettings := JOr(Get(p, "phaseSettings"), JObj(map[])),
      status := JOr(Get(d, "status"), JStr("draft")),
      createdBy := userId,
      updatedBy := userId,
      fullQuote := d)
  }

  /** The currency is never empty: the payload's wins over the project's,
      and "CAD" is the last resort. */
  lemma QuoteCurrency(data: map<string, Json>, userId: string, show: Json -> string)
    requires ProjectOf(data).Some?
    ensures var r := QuoteRowOf(data, userId, show);
      var p := JObj(ProjectOf(data).value);
      && Truthy(r.currency)
      && (Truthy(Get(JObj(data), "currency")) ==> r.currency == Get(JObj(data), "currency"))
      && (!Truthy(Get(JObj(data), "currency")) && Truthy(Get(p, "currency")) ==> r.currency == Get(p, "currency"))
      && (!Truthy(Get(JObj(data), "currency")) && !Truthy(Get(p, "currency")) ==> r.currency == JStr("CAD"))
  {
  }

  /** The status is the payload's when given and "draft" otherwise; it is
      never empty. */
  lemma QuoteStatus(data: map<string, Json>, userId: string, show: Json -> string)
    requires ProjectOf(data).Some?
    ensures var r := QuoteRowOf(data, userId, show);
      && Truthy(r.status)
      && (r.status == Get(JObj(data), "status") || r.status == JStr("draft"))
      && (Truthy(Get(JObj(data), "status")) <==> r.status == Get(JObj(data), "status"))
  {
  }

  /** The phases and phase settings come from the project alone, falling
      back to an empty list and an empty object. */
  lemma QuotePhases(data: map<string, Json>, userId: string, show: Json -> string)
    requires ProjectOf(data).Some?
    ensures var r := QuoteRowOf(data, userId, show);
      var p := JObj(ProjectOf(data).value);
      && (r.phases == Get(p, "phases") || r.phases == JArr([]))
      && (Truthy(r.phases) <==> Truthy(Get(p, "phases")))
      && (r.phaseSettings == Get(p, "phaseSettings") || r.phaseSettings == JObj(map[]))
      && (Truthy(r.phaseSettings) <==> Truthy(Get(p, "phaseSettings")))
  {
  }

  /** The client category and the dates prefer the project's values over
      the payload's top-level ones; the stored dates are normalized. */
  lemma QuoteProjectFirst(data: map<string, Json>, userId: string, show: Json -> string)
    requires ProjectOf(data).Some?
    ensures var r := QuoteRowOf(data, userId, show);
      var p := JObj(ProjectOf(data).value);
      && (Truthy(Get(p, "clientCategory")) ==> r.clientCategory == Get(p, "clientCategory"))
      && (!Truthy(Get(p, "clientCategory")) ==> r.clientCategory == JOr(Get(JObj(data), "clientCategory"), JStr("")))
      && (Truthy(Get(p, "briefDate")) ==> r.briefDate == NormalizeDate(Get(p, "briefDate"), show))
      && (!Truthy(Get(p, "briefDate")) ==> r.briefDate == NormalizeDate(Get(JObj(data), "briefDate"), show))
      && (Truthy(Get(p, "totalProgramBudget")) ==> r.totalProgramBudget == Get(p, "totalProgramBudget"))
      && (!Truthy(Get(p, "totalProgramBudget")) ==> r.totalProgramBudget == Get(JObj(data), "totalRevenue"))
  {
  }

  /** `r.get("full_quote") or {}`. */
  function FullQuoteOr(j: Json): (r: Json)
    ensures r.JObj? || r == j
    ensures Truthy(j) ==> r == j
  {
    if Truthy(j) then j else JObj(map[])
  }

  /** The listing returns a saved payload exactly as it was dumped: a
      dump is never empty, since every declared field is in it. */
  lemma SavedQuoteListedVerbatim(data: map<string, Json>, userId: string, show: Json -> string)
    requires ValidQuoteDump(data) && ProjectOf(data).Some?
    ensures FullQuoteOr(QuoteRowOf(data, userId, show).fullQuote) == JObj(data)
  {
    assert "id" in StringFields;
    assert "id" in data;
  }

  // ---------------------------------------------------------------------
  // Table operations

  /** `INSERT ... ON CONFLICT (quote_uid) DO UPDATE`: every column but the
      creator and the creation time is overwritten. */
  function UpsertedQuote(prev: Option<StoredQuote>, row: QuoteRow, now: string): StoredQuote {
    match prev
    case None => StoredQuote(row, now, now)
    case Some(prior) => StoredQuote(row.(createdBy := prior.row.createdBy), prior.createdAt, now)
  }

  function LookupQuote(rows: map<string, StoredQuote>, uid: string): Option<StoredQuote> {
    if uid in rows then Some(rows[uid]) else None
  }

  function UpsertQuote(rows: map<string, StoredQuote>, row: QuoteRow, now: string): map<string, StoredQuote> {
    rows[row.quoteUid := UpsertedQuote(LookupQuote(rows, row.quoteUid), row, now)]
  }

  function UidsOf(rs: seq<QuoteRow>): set<string> {
    set k | 0 <= k < |rs| :: rs[k].quoteUid
  }

  function UpsertQuotes(rows: map<string, StoredQuote>, rs: seq<QuoteRow>, now: string): (r: map<string, StoredQuote>)
    ensures r.Keys == rows.Keys + UidsOf(rs)
  {
    if |rs| == 0 then rows
    else
      var prev := UpsertQuotes(rows, rs[..|rs| - 1], now);
      assert UidsOf(rs) == UidsOf(rs[..|rs| - 1]) + {rs[|rs| - 1].quoteUid} by {
        assert forall k :: 0 <= k < |rs| - 1 ==> rs[..|rs| - 1][k] == rs[k];
      }
      UpsertQuote(prev, rs[|rs| - 1], now)
  }

  /** `DELETE ... WHERE created_by = user AND quote_uid NOT IN ids`. */
  function PruneQuotes(rows: map<string, StoredQuote>, userId: string, keep: set<string>): map<string, StoredQuote> {
    map u | u in rows && !(rows[u].row.createdBy == userId && u !in keep) :: rows[u]
  }

  /** `DELETE ... WHERE created_by = user`. */
  function DeleteQuotesOf(rows: map<string, StoredQuote>, userId: string): map<string, StoredQuote> {
    map u | u in rows && rows[u].row.createdBy != userId :: rows[u]
  }

  /** One `INSERT ... ON CONFLICT (quote_uid) DO UPDATE`: the uid is present
      afterwards and no other quote changes; a new uid is inserted as written
      at `now`; an existing uid keeps its creator and creation time and takes
      every other column from the new row. */
  lemma UpsertQuoteEffect(rows: map<string, StoredQuote>, row: QuoteRow, now: string)
    ensures UpsertQuote(rows, row, now).Keys == rows.Keys + {row.quoteUid}
    ensures forall u :: u in rows && u != row.quoteUid ==> UpsertQuote(rows, row, now)[u] == rows[u]
    ensures row.quoteUid !in rows ==> UpsertQuote(rows, row, now)[row.quoteUid] == StoredQuote(row, now, now)
    ensures row.quoteUid in rows ==>
      var prior := rows[row.quoteUid];
      UpsertQuote(rows, row, now)[row.quoteUid] == StoredQuote(row.(createdBy := prior.row.createdBy), prior.createdAt, now)
  {
  }

  /** `DELETE ... WHERE created_by = user AND quote_uid NOT IN keep`, and the
      plain `DELETE ... WHERE created_by = user`: which quotes survive, all of
      them unchanged. */
  lemma PruneQuotesSpec(rows: map<string, StoredQuote>, userId: string, keep: set<string>)
    ensures forall u :: u in PruneQuotes(rows, userId, keep) <==>
      u in rows && (rows[u].row.createdBy != userId || u in keep)
    ensures forall u :: u in PruneQuotes(rows, userId, keep) ==> PruneQuotes(rows, userId, keep)[u] == rows[u]
    ensures forall u :: u in DeleteQuotesOf(rows, userId) <==> u in rows && rows[u].row.createdBy != userId
    ensures forall u :: u in DeleteQuotesOf(rows, userId) ==> DeleteQuotesOf(rows, userId)[u] == rows[u]
  {
  }

  lemma DeleteQuotesOfIsPruneNothing(rows: map<string, StoredQuote>, userId: string)
    ensures DeleteQuotesOf(rows, userId) == PruneQuotes(rows, userId, {})
  {
  }

  /** The index of the first quote whose project the loop cannot read, or
      the length. */
  function ProjectPrefix(quotes: seq<map<string, Json>>): (k: nat)
    ensures k <= |quotes|
    ensures forall j :: 0 <= j < k ==> ProjectOf(quotes[j]).Some?
    ensures k < |quotes| ==> ProjectOf(quotes[k]).None?
  {
    if |quotes| == 0 || ProjectOf(quotes[0]).None? then 0 else 1 + ProjectPrefix(quotes[1..])
  }

  lemma {:induction false} ProjectPrefixAt(quotes: seq<map<string, Json>>, i: int)
    requires 0 <= i <= |quotes|
    requires forall j :: 0 <= j < i ==> ProjectOf(quotes[j]).Some?
    requires i < |quotes| ==> ProjectOf(quotes[i]).None?
    ensures ProjectPrefix(quotes) == i
  {
    if i > 0 {
      assert ProjectOf(quotes[0]).Some?;
      ProjectPrefixAt(quotes[1..], i - 1);
    }
  }

  function QuoteRowsOf(userId: string, quotes: seq<map<string, Json>>, show: Json -> string): (rs: seq<QuoteRow>)
    requires forall j :: 0 <= j < |quotes| ==> ProjectOf(quotes[j]).Some?
    ensures |rs| == |quotes|
    ensures forall j :: 0 <= j < |rs| ==> rs[j] == QuoteRowOf(quotes[j], userId, show)
  {
    seq(|quotes|, j requires 0 <= j < |quotes| && ProjectOf(quotes[j]).Some? => QuoteRowOf(quotes[j], userId, show))
  }

  /** The uids `replace_quotes` keeps, in the form the pruning list has. */
  function PruneIds(userId: string, quotes: seq<map<string, Json>>, show: Json -> string): (ids: seq<string>)
    ensures |ids| == |quotes|
  {
    seq(|quotes|, j requires 0 <= j < |quotes| => PruneUid(quotes[j], userId, show))
  }

  /** The pruning list names exactly the uids the loop upserted. */
  lemma PruneIdsAreUpserted(userId: string, quotes: seq<map<string, Json>>, show: Json -> string)
    requires forall j :: 0 <= j < |quotes| ==> ProjectOf(quotes[j]).Some?
    ensures (set u | u in PruneIds(userId, quotes, show)) == UidsOf(QuoteRowsOf(userId, quotes, show))
  {
    var ids := PruneIds(userId, quotes, show);
    var rs := QuoteRowsOf(userId, quotes, show);
    forall j | 0 <= j < |quotes| ensures ids[j] == rs[j].quoteUid {
      PruneUidMatches(quotes[j], userId, show);
    }
  }

  /** The whole effect on the table of a successful `replace_quotes`. */
  function QuotesReplaced(rows: map<string, StoredQuote>, userId: string, quotes: seq<map<string, Json>>,
                          now: string, show: Json -> string): map<string, StoredQuote>
    requires forall j :: 0 <= j < |quotes| ==> ProjectOf(quotes[j]).Some?
  {
    var rs := QuoteRowsOf(userId, quotes, show);
    PruneQuotes(UpsertQuotes(rows, rs, now), userId, UidsOf(rs))
  }

  /** Replacing with nothing deletes exactly the caller's rows. */
  lemma QuotesReplacedEmpty(rows: map<string, StoredQuote>, userId: string, now: string, show: Json -> string)
    ensures QuotesReplaced(rows, userId, [], now, show) == DeleteQuotesOf(rows, userId)
  {
    assert QuoteRowsOf(userId, [], show) == [];
    assert UidsOf([]) == {};
  }

  /** What a sequence of upserts by one user leaves under one uid. */
  lemma {:induction false} UpsertQuotesAt(rows: map<string, StoredQuote>, rs: seq<QuoteRow>, userId: string, now: string, u: string)
    requires forall k :: 0 <= k < |rs| ==> rs[k].createdBy == userId && rs[k].updatedBy == userId
    ensures u !in UidsOf(rs) && u in rows ==> UpsertQuotes(rows, rs, now)[u] == rows[u]
    ensures u in UidsOf(rs) ==>
      var r := UpsertQuotes(rows, rs, now)[u];
      && r.row.createdBy == (if u in rows then rows[u].row.createdBy else userId)
      && r.row.updatedBy == userId
      && r.createdAt == (if u in rows then rows[u].createdAt else now)
      && r.updatedAt == now
  {
    if |rs| > 0 {
      var init := rs[..|rs| - 1];
      assert forall k :: 0 <= k < |init| ==> init[k] == rs[k];
      UpsertQuotesAt(rows, init, userId, now, u);
      assert UidsOf(rs) == UidsOf(init) + {rs[|rs| - 1].quoteUid};
    }
  }

  /** The last upsert under a uid decides what it holds. */
  lemma {:induction false} UpsertQuotesLastWins(rows: map<string, StoredQuote>, rs: seq<QuoteRow>, userId: string, now: string, j: int)
    requires forall k :: 0 <= k < |rs| ==> rs[k].createdBy == userId && rs[k].updatedBy == userId
    requires 0 <= j < |rs|
    requires forall k :: j < k < |rs| ==> rs[k].quoteUid != rs[j].quoteUid
    ensures UpsertQuotes(rows, rs, now)[rs[j].quoteUid] == UpsertedQuote(LookupQuote(rows, rs[j].quoteUid), rs[j], now)
  {
    var n := |rs| - 1;
    var init := rs[..n];
    if j < n {
      forall k | 0 <= k < |init| ensures init[k].createdBy == userId && init[k].updatedBy == userId {
        assert init[k] == rs[k];
      }
      forall k | j < k < |init| ensures init[k].quoteUid != init[j].quoteUid {
        assert init[k] == rs[k] && init[j] == rs[j];
      }
      UpsertQuotesLastWins(rows, init, userId, now, j);
      assert init[j] == rs[j];
      assert rs[j].quoteUid in UidsOf(init);
      UpsertQuotesOther(rows, rs, now, rs[j].quoteUid);
    } else {
      UpsertQuotesLast(rows, rs, userId, now);
    }
  }

  /** The last upsert does not touch other uids. */
  lemma UpsertQuotesOther(rows: map<string, StoredQuote>, rs: seq<QuoteRow>, now: string, u: string)
    requires |rs| > 0 && rs[|rs| - 1].quoteUid != u
    ensures u in UpsertQuotes(rows, rs[..|rs| - 1], now) ==>
      UpsertQuotes(rows, rs, now)[u] == UpsertQuotes(rows, rs[..|rs| - 1], now)[u]
  {
  }

  /** The last upsert of the caller's rows decides its own uid. */
  lemma UpsertQuotesLast(rows: map<string, StoredQuote>, rs: seq<QuoteRow>, userId: string, now: string)
    requires forall k :: 0 <= k < |rs| ==> rs[k].createdBy == userId && rs[k].updatedBy == userId
    requires |rs| > 0
    ensures var last := rs[|rs| - 1];
      UpsertQuotes(rows, rs, now)[last.quoteUid] == UpsertedQuote(LookupQuote(rows, last.quoteUid), last, now)
  {
    var init := rs[..|rs| - 1];
    assert forall k :: 0 <= k < |init| ==> init[k] == rs[k];
    UpsertQuotesAt(rows, init, userId, now, rs[|rs| - 1].quoteUid);
  }

  lemma QuoteRowsOfFacts(userId: string, quotes: seq<map<string, Json>>, show: Json -> string)
    requires forall j :: 0 <= j < |quotes| ==> ProjectOf(quotes[j]).Some?
    ensures forall k :: 0 <= k < |quotes| ==>
      QuoteRowsOf(userId, quotes, show)[k].createdBy == userId && QuoteRowsOf(userId, quotes, show)[k].updatedBy == userId
  {
  }

  /** After the replace, a row is the caller's exactly when its uid was
      submitted and was either new or already the caller's. */
  lemma QuotesReplacedOwnership(rows: map<string, StoredQuote>, userId: string, quotes: seq<map<string, Json>>,
                                now: string, show: Json -> string, u: string)
    requires forall j :: 0 <= j < |quotes| ==> ProjectOf(quotes[j]).Some?
    ensures var r := QuotesReplaced(rows, userId, quotes, now, show);
      (u in r && r[u].row.createdBy == userId)
      <==> (u in UidsOf(QuoteRowsOf(userId, quotes, show)) && (u !in rows || rows[u].row.createdBy == userId))
  {
    QuoteRowsOfFacts(userId, quotes, show);
    UpsertQuotesAt(rows, QuoteRowsOf(userId, quotes, show), userId, now, u);
  }

  /** Every submitted uid is present afterwards and last updated by the
      caller, so the caller's listing shows it. */
  lemma QuotesReplacedVisible(rows: map<string, StoredQuote>, userId: string, quotes: seq<map<string, Json>>,
                              now: string, show: Json -> string, j: int)
    requires forall i :: 0 <= i < |quotes| ==> ProjectOf(quotes[i]).Some?
    requires 0 <= j < |quotes|
    ensures var u := UidOf(quotes[j], userId, show);
      var r := QuotesReplaced(rows, userId, quotes, now, show);
      u in r && r[u].row.updatedBy == userId && r[u].updatedAt == now
  {
    var rs := QuoteRowsOf(userId, quotes, show);
    var u := UidOf(quotes[j], userId, show);
    assert rs[j].quoteUid == u;
    assert u in UidsOf(rs);
    QuoteRowsOfFacts(userId, quotes, show);
    UpsertQuotesAt(rows, rs, userId, now, u);
  }

  /** Rows created by anyone else survive, and those not resubmitted are
      untouched. */
  lemma QuotesReplacedKeepsOthers(rows: map<string, StoredQuote>, userId: string, quotes: seq<map<string, Json>>,
                                  now: string, show: Json -> string, u: string)
    requires forall j :: 0 <= j < |quotes| ==> ProjectOf(quotes[j]).Some?
    requires u in rows && rows[u].row.createdBy != userId
    ensures var r := QuotesReplaced(rows, userId, quotes, now, show);
      u in r && (u !in UidsOf(QuoteRowsOf(userId, quotes, show)) ==> r[u] == rows[u])
  {
    QuoteRowsOfFacts(userId, quotes, show);
    UpsertQuotesAt(rows, QuoteRowsOf(userId, quotes, show), userId, now, u);
  }

  /** The row under a submitted uid carries the columns of the last quote
      with that uid. */
  lemma QuotesReplacedLastWins(rows: map<string, StoredQuote>, userId: string, quotes: seq<map<string, Json>>,
                               now: string, show: Json -> string, j: nat)
    requires forall i :: 0 <= i < |quotes| ==> ProjectOf(quotes[i]).Some?
    requires j < |quotes|
    requires forall k :: j < k < |quotes| ==> UidOf(quotes[k], userId, show) != UidOf(quotes[j], userId, show)
    ensures var u := UidOf(quotes[j], userId, show);
            var r := QuotesReplaced(rows, userId, quotes, now, show);
            u in r && r[u] == UpsertedQuote(LookupQuote(rows, u), QuoteRowOf(quotes[j], userId, show), now)
  {
    QuoteRowsOfFacts(userId, quotes, show);
    var rs := QuoteRowsOf(userId, quotes, show);
    var u := UidOf(quotes[j], userId, show);
    assert rs[j].quoteUid == u;
    assert u in UidsOf(rs);
    UpsertQuotesLastWins(rows, rs, userId, now, j);
  }

  lemma QuoteRowsOfSnoc(userId: string, quotes: seq<map<string, Json>>, show: Json -> string, i: int)
    requires 0 <= i < |quotes|
    requires forall j :: 0 <= j <= i ==> ProjectOf(quotes[j]).Some?
    ensures QuoteRowsOf(userId, quotes[..i + 1], show) == QuoteRowsOf(userId, quotes[..i], show) + [QuoteRowOf(quotes[i], userId, show)]
  {
    var a := QuoteRowsOf(userId, quotes[..i + 1], show);
    var b := QuoteRowsOf(userId, quotes[..i], show) + [QuoteRowOf(quotes[i], userId, show)];
    assert |a| == |b|;
    forall k | 0 <= k < |a| ensures a[k] == b[k] {
      assert quotes[..i + 1][k] == quotes[k];
      if k < i {
        assert quotes[..i][k] == quotes[k];
      }
    }
  }

  lemma UpsertQuoteConsistent(rows: map<string, StoredQuote>, row: QuoteRow, now: string)
    requires QuoteKeysConsistent(rows)
    ensures QuoteKeysConsistent(UpsertQuote(rows, row, now))
  {
  }

  lemma PruneQuotesConsistent(rows: map<string, StoredQuote>, userId: string, keep: set<string>)
    requires QuoteKeysConsistent(rows)
    ensures QuoteKeysConsistent(PruneQuotes(rows, userId, keep)) && QuoteKeysConsistent(DeleteQuotesOf(rows, userId))
  {
  }

  // ---------------------------------------------------------------------
  // The service operations

  /** The upsert loop of `replace_quotes`, stopping (by raising) at the
      first quote whose project is not an object; its index is returned,
      the length when there is none. */
  method UpsertQuotesEach(db: Db, userId: string, quotes: seq<map<string, Json>>, now: string, show: Json -> string)
    returns (k: nat)
    requires db.Valid()
    modifies db`quotes
    ensures db.Valid()
    ensures k == ProjectPrefix(quotes)
    ensures db.quotes == UpsertQuotes(old(db.quotes), QuoteRowsOf(userId, quotes[..k], show), now)
  {
    var i := 0;
    while i < |quotes|
      invariant 0 <= i <= |quotes|
      invariant forall j :: 0 <= j < i ==> ProjectOf(quotes[j]).Some?
      invariant db.quotes == UpsertQuotes(old(db.quotes), QuoteRowsOf(userId, quotes[..i], show), now)
      invariant db.Valid()
    {
      if ProjectOf(quotes[i]).None? {
        ProjectPrefixAt(quotes, i);
        return i;
      }
      UpsertQuoteNext(db, old(db.quotes), QuoteRowsOf(userId, quotes[..i], show), QuoteRowOf(quotes[i], userId, show), now);
      QuoteRowsOfSnoc(userId, quotes, show, i);
      i := i + 1;
    }
    ProjectPrefixAt(quotes, i);
    k := i;
  }

  /** One statement of the upsert loop. */
  method UpsertQuoteNext(db: Db, ghost rows: map<string, StoredQuote>, ghost rs: seq<QuoteRow>, row: QuoteRow, now: string)
    requires db.Valid()
    requires db.quotes == UpsertQuotes(rows, rs, now)
    modifies db`quotes
    ensures db.Valid()
    ensures db.quotes == UpsertQuotes(rows, rs + [row], now)
  {
    UpsertQuotesSnoc(rows, rs, row, now);
    UpsertQuoteConsistent(db.quotes, row, now);
    db.quotes := UpsertQuote(db.quotes, row, now);
  }

  lemma UpsertQuotesSnoc(rows: map<string, StoredQuote>, rs: seq<QuoteRow>, row: QuoteRow, now: string)
    ensures UpsertQuotes(rows, rs + [row], now) == UpsertQuote(UpsertQuotes(rows, rs, now), row, now)
  {
    assert (rs + [row])[..|rs|] == rs;
  }

  /** The deletion that ends `replace_quotes`, with the pruning list built
      from the payloads a second time. */
  method PruneUnsubmittedQuotes(db: Db, userId: string, quotes: seq<map<string, Json>>, show: Json -> string)
    requires db.Valid()
    requires forall j :: 0 <= j < |quotes| ==> ProjectOf(quotes[j]).Some?
    modifies db`quotes
    ensures db.Valid()
    ensures db.quotes == PruneQuotes(old(db.quotes), userId, UidsOf(QuoteRowsOf(userId, quotes, show)))
  {
    var ids := PruneIds(userId, quotes, show);
    PruneIdsAreUpserted(userId, quotes, show);
    var keep := set u | u in ids;
    PruneQuotesConsistent(db.quotes, userId, keep);
    if |ids| > 0 {
      db.quotes := PruneQuotes(db.quotes, userId, keep);
    } else {
      DeleteQuotesOfIsPruneNothing(db.quotes, userId);
      db.quotes := DeleteQuotesOf(db.quotes, userId);
    }
  }

  /** `replace_quotes(user_id, quotes, email)`: `quotes` are the dumped
      payloads. A quote whose `project` is truthy but not an object raises
      after the earlier upserts took effect and before any deletion. */
  method ReplaceQuotes(db: Db, userId: string, quotes: seq<map<string, Json>>, email: Option<string>,
                       now: string, show: Json -> string)
    returns (err: Option<string>)
    requires db.Valid()
    requires forall j :: 0 <= j < |quotes| ==> ValidQuoteDump(quotes[j])
    modifies db`quotes, db`users
    ensures db.Valid()
    ensures db.users == EnsuredUsers(old(db.users), userId, email)
    ensures err.None? <==> ProjectPrefix(quotes) == |quotes|
    ensures err.Some? ==> err.value == "AttributeError"
    ensures err.None? ==> db.quotes == QuotesReplaced(old(db.quotes), userId, quotes, now, show)
    ensures err.Some? ==> db.quotes == UpsertQuotes(old(db.quotes), QuoteRowsOf(userId, quotes[..ProjectPrefix(quotes)], show), now)
  {
    EnsureUser(db, userId, email);
    var k := UpsertQuotesEach(db, userId, quotes, now, show);
    if k < |quotes| {
      return Some("AttributeError");
    }
    assert quotes[..k] == quotes;
    PruneUnsubmittedQuotes(db, userId, quotes, show);
    err := None;
  }

  /** The rows a user sees: those they created or last updated. */
  predicate QuoteVisible(s: StoredQuote, userId: string) {
    s.row.createdBy == userId || s.row.updatedBy == userId
  }

  function UpdatedKey(rows: map<string, StoredQuote>): string -> seq<string> {
    u => if u in rows then [rows[u].updatedAt] else []
  }

  /** `uids` lists rows most recently updated first. */
  ghost predicate NewestFirst(rows: map<string, StoredQuote>, uids: seq<string>) {
    forall i, j :: 0 <= i < j < |uids| && uids[i] in rows && uids[j] in rows ==>
      LexLe(rows[uids[j]].updatedAt, rows[uids[i]].updatedAt)
  }

  /** Sorting by the update time, descending, lists the same uids newest
      first. */
  lemma SortNewestFirst(rows: map<string, StoredQuote>, keys: seq<string>)
    ensures var sorted := SortBy(keys, UpdatedKey(rows), true);
      && |sorted| == |keys|
      && (forall u :: u in sorted <==> u in keys)
      && NewestFirst(rows, sorted)
  {
    var key := UpdatedKey(rows);
    var sorted := SortBy(keys, key, true);
    SortBySpec(keys, key, true);
    forall u ensures u in sorted <==> u in keys {
      assert u in sorted <==> u in multiset(sorted);
      assert u in keys <==> u in multiset(keys);
    }
    forall i, j | 0 <= i < j < |sorted| && sorted[i] in rows && sorted[j] in rows
      ensures LexLe(rows[sorted[j]].updatedAt, rows[sorted[i]].updatedAt)
    {
      assert InOrder(key(sorted[i]), key(sorted[j]), true);
      KeyLeSingle(rows[sorted[j]].updatedAt, rows[sorted[i]].updatedAt);
    }
  }

  /** `quotes` holds the saved payload (or `{}`) of every row `userId`
      created or last updated, once each, in the order of `uids`: most
      recently updated first. */
  ghost predicate QuotesListing(rows: map<string, StoredQuote>, userId: string, uids: seq<string>, quotes: seq<Json>) {
    && (forall u :: u in uids <==> u in rows && QuoteVisible(rows[u], userId))
    && |uids| == |set u | u in rows && QuoteVisible(rows[u], userId)|
    && NewestFirst(rows, uids)
    && |quotes| == |uids|
    && (forall i :: 0 <= i < |uids| ==> quotes[i] == FullQuoteOr(rows[uids[i]].row.fullQuote))
  }

  /** `get_quotes_for_user(user_id)`: the `full_quote` (or `{}`) of every
      row the user created or last updated, most recently updated first
      (`uids` is that order; equal timestamps are listed by uid). */
  method GetQuotesForUser(db: Db, userId: string) returns (quotes: seq<Json>, ghost uids: seq<string>)
    requires db.Valid()
    ensures QuotesListing(db.quotes, userId, uids, quotes)
  {
    var table := db.quotes;
    var mine := map u | u in table && QuoteVisible(table[u], userId) :: table[u];
    var keys := SortedKeys(mine);
    var sorted := SortBy(keys, UpdatedKey(table), true);
    SortNewestFirst(table, keys);
    assert mine.Keys == set u | u in table && QuoteVisible(table[u], userId);
    uids := sorted;
    forall i | 0 <= i < |sorted| ensures sorted[i] in table {
      assert sorted[i] in keys;
    }
    quotes := seq(|sorted|, i requires 0 <= i < |sorted| && sorted[i] in table => FullQuoteOr(table[sorted[i]].row.fullQuote));
  }
}
