/** The `/pipeline` routes: the request body is unwrapped and validated
    into an entry, creation assigns the next project code when none is
    given, update insists on one, delete takes a code from the body, and the
    listing adds the derived changelog. Every route except
    `GET /pipeline/next-code` runs after the authentication dependency, and
    the authenticated caller is a parameter; the next-code route has no
    dependency, so `NextCodeResponse` takes no caller.
    Entry validation (`PipelineEntry.model_validate`) is a parameter: it
    either yields an entry or fails. */
module PipelineRouter {
  import opened Common
  import opened PyStrings
  import opened Calendar
  import opened Sorting
  import opened Database
  import opened PipelineService
  import opened Auth

  const EntryRequired: HttpError := HttpError(400, "entry is required")
  const CodeRequired: HttpError := HttpError(400, "projectCode is required")
  const InvalidEntry: HttpError := HttpError(500, "ValidationError")

  /** The response of a successful delete, `{"ok": true}`. */
  const DeletedResponse: Json := JObj(map["ok" := JBool(true)])

  /** The entry in a request body: the `entry` member when it is truthy,
      otherwise the whole body; an empty body has none. */
  function EntryData(payload: map<string, Json>): (r: Result<Json, HttpError>)
    ensures r.Err? <==> payload == map[]
    ensures r.Err? ==> r.error == EntryRequired
    ensures "entry" in payload && Truthy(payload["entry"]) ==> r == Ok(payload["entry"])
    ensures !("entry" in payload && Truthy(payload["entry"])) && payload != map[] ==> r == Ok(JObj(payload))
  {
    var data := JOr(Get(JObj(payload), "entry"), JObj(payload));
    if !Truthy(data) then Err(EntryRequired) else Ok(data)
  }

  /** The validated entry of a request body. */
  function RequestEntry(payload: map<string, Json>, validate: Json -> Option<PipelineEntry>): (r: Result<PipelineEntry, HttpError>)
    ensures EntryData(payload).Err? ==> r == Err(EntryRequired)
    ensures EntryData(payload).Ok? && validate(EntryData(payload).value).None? ==> r == Err(InvalidEntry)
    ensures r.Ok? <==> EntryData(payload).Ok? && validate(EntryData(payload).value).Some?
    ensures r.Ok? ==> r.value == validate(EntryData(payload).value).value
  {
    match EntryData(payload)
    case Err(e) => Err(e)
    case Ok(data) =>
      match validate(data)
      case None => Err(InvalidEntry)
      case Some(entry) => Ok(entry)
  }

  /** `strftime("%y")`: the year within its century, in two digits. */
  function YearSuffix(year: nat): (r: string)
    ensures |r| == 2 && IsDigits(r) && DigitsValue(r) == year % 100
  {
    var n := year % 100;
    ZFillNat(n, 2);
    assert |NatToString(n)| <= 2 by {
      if n >= 10 {
        assert NatToString(n) == NatToString(n / 10) + [DigitChar(n % 10)];
      }
    }
    Pad(n, 2)
  }

  /** `POST /pipeline`: an entry without a project code is given the next
      free-looking code for the current year; the entry is then upserted on
      behalf of the caller. */
  method CreatePipelineEntry(db: Db, user: AuthenticatedUser, payload: map<string, Json>,
                             validate: Json -> Option<PipelineEntry>, utcYear: nat, now: string)
    returns (r: Result<PipelineEntry, HttpError>)
    requires db.Valid()
    modifies db`pipeline, db`users
    ensures db.Valid()
    ensures RequestEntry(payload, validate).Err? ==>
      r == RequestEntry(payload, validate) && db.pipeline == old(db.pipeline) && db.users == old(db.users)
    ensures RequestEntry(payload, validate).Ok? ==>
      var entry := RequestEntry(payload, validate).value;
      && r.Ok? && r.value.projectCode.Some?
      && var code := r.value.projectCode.value;
      && (HasCode(entry) ==> r.value.projectCode == entry.projectCode)
      && (!HasCode(entry) ==> IsNextCode(old(db.pipeline), YearSuffix(utcYear), code))
      && (!HasCode(entry) ==> StartsWith(code, "P") && EndsWith(code, "-" + YearSuffix(utcYear)))
      && db.users == EnsuredUsers(old(db.users), user.uid, user.email)
      && db.pipeline == UpsertRow(old(db.pipeline), ToDbRow(user.uid, entry.(projectCode := Some(code))).value, now)
      && code in db.pipeline && r.value == FromDbRow(db.pipeline[code], None, None)
  {
    var req := RequestEntry(payload, validate);
    if req.Err? {
      return Err(req.error);
    }
    var entry := req.value;
    if !HasCode(entry) {
      var code, _ := NextProjectCode(db, YearSuffix(utcYear));
      entry := entry.(projectCode := Some(code));
    } else {
      assert entry.(projectCode := entry.projectCode) == entry;
    }
    var saved := UpsertPipelineEntry(db, user.uid, entry, user.email, now);
    r := Ok(saved.value);
  }

  /** `PUT /pipeline`: the entry must carry a project code; it is upserted
      whether or not that code exists yet. */
  method UpdatePipelineEntry(db: Db, user: AuthenticatedUser, payload: map<string, Json>,
                             validate: Json -> Option<PipelineEntry>, now: string)
    returns (r: Result<PipelineEntry, HttpError>)
    requires db.Valid()
    modifies db`pipeline, db`users
    ensures db.Valid()
    ensures r.Err? ==> db.pipeline == old(db.pipeline) && db.users == old(db.users)
    ensures RequestEntry(payload, validate).Err? ==> r == RequestEntry(payload, validate)
    ensures RequestEntry(payload, validate).Ok? && !HasCode(RequestEntry(payload, validate).value) ==>
      r == Err(CodeRequired)
    ensures r.Ok? <==> RequestEntry(payload, validate).Ok? && HasCode(RequestEntry(payload, validate).value)
    ensures r.Ok? ==>
      var entry := RequestEntry(payload, validate).value;
      var code := entry.projectCode.value;
      && db.users == EnsuredUsers(old(db.users), user.uid, user.email)
      && db.pipeline == UpsertRow(old(db.pipeline), ToDbRow(user.uid, entry).value, now)
      && code in db.pipeline && r.value == FromDbRow(db.pipeline[code], None, None)
      && r.value.projectCode == entry.projectCode
  {
    var req := RequestEntry(payload, validate);
    if req.Err? {
      return Err(req.error);
    }
    if !HasCode(req.value) {
      return Err(CodeRequired);
    }
    var saved := UpsertPipelineEntry(db, user.uid, req.value, user.email, now);
    r := Ok(saved.value);
  }

  /** `DELETE /pipeline`: the body must hold a truthy `projectCode`. A code
      that is not a string cannot be compared with the text column, which is
      an internal error. */
  method RemovePipelineEntry(db: Db, payload: map<string, Json>) returns (r: Result<Json, HttpError>)
    requires db.Valid()
    modifies db`pipeline
    ensures db.Valid()
    ensures var code := Get(JObj(payload), "projectCode");
      && (!Truthy(code) ==> r == Err(CodeRequired))
      && (Truthy(code) && code.JStr? ==> r == Ok(DeletedResponse) && db.pipeline == old(db.pipeline) - {code.s})
      && (Truthy(code) && !code.JStr? ==> r.Err? && r.error.status == 500)
      && (r.Err? ==> db.pipeline == old(db.pipeline))
  {
    var code := Get(JObj(payload), "projectCode");
    if !Truthy(code) {
      return Err(CodeRequired);
    }
    if !code.JStr? {
      return Err(HttpError(500, "operator does not exist"));
    }
    DeletePipelineEntry(db, code.s);
    r := Ok(DeletedResponse);
  }

  /** `GET /pipeline`: every entry, ordered by project code, and the
      changelog derived from them for the caller (their e-mail, or their uid
      when they have none). */
  method ListPipeline(db: Db, user: AuthenticatedUser, now: string)
    returns (entries: seq<PipelineEntry>, changelog: seq<PipelineChange>, ghost codes: seq<string>)
    requires db.Valid()
    ensures PipelineListing(db.pipeline, db.users, codes, entries)
    ensures changelog == SortBy(Additions(entries, OrElse(user.email, user.uid), now), DateKey, true)
    ensures |changelog| == |entries|
    ensures SortedBy(changelog, DateKey, true)
  {
    entries, codes := GetPipelineEntries(db);
    changelog := BuildChangelog(entries, OrElse(user.email, user.uid), now);
  }

  /** `GET /pipeline/next-code?year=…`: the response `{"projectCode": …}`.
      The year is the query text, passed on unchecked; the model compares
      it as plain text, not as a `LIKE` pattern. */
  method NextCodeResponse(db: Db, year: string) returns (r: Json)
    ensures r.JObj? && r.fields.Keys == {"projectCode"} && r.fields["projectCode"].JStr?
    ensures IsNextCode(db.pipeline, year, r.fields["projectCode"].s)
  {
    var code, _ := NextProjectCode(db, year);
    r := JObj(map["projectCode" := JStr(code)]);
  }
}
