/** The key/value storage facade: a generic `(user id, key)` to value table
    with two reserved keys redirected to the pipeline and quotes tables,
    and a listing that always adds three synthesized keys. */
module StorageService {
  import opened Common
  import opened Sorting
  import opened Database
  import opened PipelineService
  import opened QuotesService

  const PipelineKey: string := "pipeline-entries"
  const QuotesKey: string := "saltxc-all-quotes"
  const ChangelogKey: string := "pipeline-changelog"

  /** The three keys are distinct, so the changelog key is not one of the
      two that get, set and delete redirect. */
  lemma ReservedKeysDistinct()
    ensures PipelineKey != QuotesKey && ChangelogKey != PipelineKey && ChangelogKey != QuotesKey
  {
    assert PipelineKey[0] == 'p' && QuotesKey[0] == 's';
    assert PipelineKey[9] == 'e' && ChangelogKey[9] == 'c';
  }

  /** The foreign decoders and encoders the facade relies on: `json.loads`
      (None for a `JSONDecodeError`), `PipelineEntry.model_validate` (None
      for any exception), `str()` of a non-string JSON value, and
      `json.dumps`. */
  datatype Codec = Codec(
    loads: string -> Option<Json>,
    validateEntry: Json -> Option<PipelineEntry>,
    show: Json -> string,
    dumps: Json -> string)

  /** A value handed back by the facade. `json.dumps` is kept symbolic: a
      dumped value records what was serialized. */
  datatype Value =
    | NoValue
    | Raw(text: string)
    | Dumped(json: Json)
    | EntriesDump(entries: seq<PipelineEntry>)
    | QuotesDump(quotes: seq<Json>)
    | ChangesDump(changes: seq<PipelineChange>)

  /** A stored JSONB value as get and list return it: None stays None, a
      string is returned as it is, anything else is serialized. */
  function Shown(v: Json): (r: Value)
    ensures v.JNull? <==> r.NoValue?
    ensures v.JStr? <==> r.Raw?
    ensures v.JStr? ==> r == Raw(v.s)
    ensures !v.JNull? && !v.JStr? ==> r == Dumped(v)
  {
    if v.JNull? then NoValue else if v.JStr? then Raw(v.s) else Dumped(v)
  }

  // ---------------------------------------------------------------------
  // Parsing a pipeline value

  /** The entries that validate, in order; the others are dropped. */
  function ValidEntries(items: seq<Json>, validate: Json -> Option<PipelineEntry>): (r: seq<PipelineEntry>)
    ensures |r| <= |items|
  {
    if |items| == 0 then []
    else
      var last := items[|items| - 1];
      ValidEntries(items[..|items| - 1], validate) + (if validate(last).Some? then [validate(last).value] else [])
  }

  /** Every entry kept is the validation of some item. */
  lemma {:induction false} ValidEntriesFrom(items: seq<Json>, validate: Json -> Option<PipelineEntry>)
    ensures forall e :: e in ValidEntries(items, validate) ==> exists i :: 0 <= i < |items| && validate(items[i]) == Some(e)
  {
    if |items| > 0 {
      var init := items[..|items| - 1];
      ValidEntriesFrom(init, validate);
      forall e | e in ValidEntries(items, validate)
        ensures exists i :: 0 <= i < |items| && validate(items[i]) == Some(e)
      {
        if e in ValidEntries(init, validate) {
          var i :| 0 <= i < |init| && validate(init[i]) == Some(e);
          assert items[i] == init[i];
        } else {
          assert validate(items[|items| - 1]) == Some(e);
        }
      }
    }
  }

  /** Validation works item by item: the entries of two lists in a row are
      the entries of the first followed by those of the second. */
  lemma {:induction false} ValidEntriesAppend(a: seq<Json>, b: seq<Json>, validate: Json -> Option<PipelineEntry>)
    ensures ValidEntries(a + b, validate) == ValidEntries(a, validate) + ValidEntries(b, validate)
    decreases |b|
  {
    if |b| == 0 {
      assert a + b == a;
    } else {
      var init := b[..|b| - 1];
      ValidEntriesAppend(a, init, validate);
      assert (a + b)[..|a + b| - 1] == a + init;
      assert (a + b)[|a + b| - 1] == b[|b| - 1];
    }
  }

  /** Every item that validates is kept. */
  lemma ValidEntriesKeepsValid(items: seq<Json>, validate: Json -> Option<PipelineEntry>, i: int)
    requires 0 <= i < |items| && validate(items[i]).Some?
    ensures validate(items[i]).value in ValidEntries(items, validate)
  {
    var x := items[i];
    assert items == items[..i] + ([x] + items[i + 1..]);
    ValidEntriesAppend(items[..i], [x] + items[i + 1..], validate);
    ValidEntriesAppend([x], items[i + 1..], validate);
    assert [x][..0] == [];
    assert ValidEntries([x], validate) == [validate(x).value];
  }

  /** When every item validates nothing is dropped and the order is kept. */
  lemma {:induction false} ValidEntriesAllValid(items: seq<Json>, validate: Json -> Option<PipelineEntry>)
    requires forall i :: 0 <= i < |items| ==> validate(items[i]).Some?
    ensures |ValidEntries(items, validate)| == |items|
    ensures forall i :: 0 <= i < |items| ==> ValidEntries(items, validate)[i] == validate(items[i]).value
  {
    if |items| > 0 {
      var init := items[..|items| - 1];
      ValidEntriesAllValid(init, validate);
    }
  }

  /** When no item validates the result is empty. */
  lemma {:induction false} ValidEntriesNoneValid(items: seq<Json>, validate: Json -> Option<PipelineEntry>)
    requires forall i :: 0 <= i < |items| ==> validate(items[i]).None?
    ensures ValidEntries(items, validate) == []
  {
    if |items| > 0 {
      ValidEntriesNoneValid(items[..|items| - 1], validate);
    }
  }

  /** `_parse_pipeline_value(value)`: the list decoded as
      `parse_quotes_value` decodes it, keeping each item that validates as
      a `PipelineEntry`. */
  method ParsePipelineValue(value: Json, codec: Codec) returns (entries: seq<PipelineEntry>)
    ensures entries == ValidEntries(ParseQuotesValue(value, codec.loads), codec.validateEntry)
  {
    var data := ParseQuotesValue(value, codec.loads);
    entries := [];
    var i := 0;
    while i < |data|
      invariant 0 <= i <= |data|
      invariant entries == ValidEntries(data[..i], codec.validateEntry)
    {
      assert data[..i + 1][..i] == data[..i];
      var parsed := codec.validateEntry(data[i]);
      if parsed.Some? {
        entries := entries + [parsed.value];
      }
      i := i + 1;
    }
    assert data[..i] == data;
  }

  // ---------------------------------------------------------------------
  // Get, set, delete

  /** What a generic get returns: None for a missing row. */
  function GenericValue(storage: map<(string, string), Json>, userId: string, key: string): (r: Value)
    ensures (userId, key) !in storage ==> r.NoValue?
    ensures (userId, key) in storage ==> r == Shown(storage[(userId, key)])
  {
    if (userId, key) in storage then Shown(storage[(userId, key)]) else NoValue
  }

  /** `get_storage_value(user_id, key)`. The pipeline key lists every
      entry, whoever created it; the quotes key lists the caller's quotes;
      neither reads the generic table. `order` is the order of the listed
      project codes or quote uids. */
  method GetStorageValue(db: Db, userId: string, key: string) returns (r: Value, ghost order: seq<string>)
    requires db.Valid()
    ensures key == PipelineKey ==> r.EntriesDump? && PipelineListing(db.pipeline, db.users, order, r.entries)
    ensures key == QuotesKey ==> r.QuotesDump? && QuotesListing(db.quotes, userId, order, r.quotes)
    ensures key != PipelineKey && key != QuotesKey ==> r == GenericValue(db.userStorage, userId, key)
  {
    ReservedKeysDistinct();
    if key == PipelineKey {
      var entries, codes := GetPipelineEntries(db);
      return EntriesDump(entries), codes;
    }
    if key == QuotesKey {
      var quotes, uids := GetQuotesForUser(db, userId);
      return QuotesDump(quotes), uids;
    }
    order := [];
    if (userId, key) in db.userStorage {
      r := Shown(db.userStorage[(userId, key)]);
    } else {
      r := NoValue;
    }
  }

  /** The payloads `QuotePayload.model_validate` is applied to all
      validate. */
  predicate AllQuotesValid(raw: seq<Json>) {
    forall i :: 0 <= i < |raw| ==> ValidateQuote(raw[i]).Some?
  }

  function QuoteDumps(raw: seq<Json>): (d: seq<map<string, Json>>)
    requires AllQuotesValid(raw)
    ensures |d| == |raw|
    ensures forall i :: 0 <= i < |d| ==> d[i] == ValidateQuote(raw[i]).value && ValidQuoteDump(d[i])
  {
    seq(|raw|, i requires 0 <= i < |raw| && ValidateQuote(raw[i]).Some? => ValidateQuote(raw[i]).value)
  }

  /** The reserved-key branches of `set_storage_value`: the pipeline key
      replaces the pipeline with the entries that validate; the quotes key
      replaces the caller's quotes when every item validates and changes
      nothing otherwise. Both hand the input back. */
  method SetReserved(db: Db, userId: string, key: string, value: Json, email: Option<string>, now: string, codec: Codec)
    returns (r: Result<Json, string>)
    requires db.Valid()
    requires key == PipelineKey || key == QuotesKey
    modifies db`pipeline, db`quotes, db`users
    ensures db.Valid()
    ensures r.Ok? ==> r.value == value
    ensures key == PipelineKey ==>
      var entries := ValidEntries(ParseQuotesValue(value, codec.loads), codec.validateEntry);
      && db.quotes == old(db.quotes)
      && db.users == EnsuredUsers(old(db.users), userId, email)
      && (r.Ok? <==> CodedPrefix(entries) == |entries|)
      && (r.Ok? ==> db.pipeline == Replaced(old(db.pipeline), userId, entries, now))
      && (r.Err? ==> r.error == "projectCode is required"
                     && db.pipeline == UpsertRows(old(db.pipeline), RowsOf(userId, entries[..CodedPrefix(entries)]), now))
    ensures key == QuotesKey ==>
      var raw := ParseQuotesValue(value, codec.loads);
      && db.pipeline == old(db.pipeline)
      && (!AllQuotesValid(raw) ==> r == Err("ValidationError") && db.quotes == old(db.quotes) && db.users == old(db.users))
      && (AllQuotesValid(raw) ==>
            && db.users == EnsuredUsers(old(db.users), userId, email)
            && (r.Ok? <==> ProjectPrefix(QuoteDumps(raw)) == |raw|)
            && (r.Ok? ==> db.quotes == QuotesReplaced(old(db.quotes), userId, QuoteDumps(raw), now, codec.show))
            && (r.Err? ==> r.error == "AttributeError"
                           && db.quotes == UpsertQuotes(old(db.quotes),
                                QuoteRowsOf(userId, QuoteDumps(raw)[..ProjectPrefix(QuoteDumps(raw))], codec.show), now)))
  {
    if key == PipelineKey {
      r := SetPipelineValue(db, userId, value, email, now, codec);
    } else {
      r := SetQuotesValue(db, userId, value, email, now, codec);
    }
  }

  /** The pipeline key of `set_storage_value`: the entries that validate
      replace the caller's pipeline. */
  method SetPipelineValue(db: Db, userId: string, value: Json, email: Option<string>, now: string, codec: Codec)
    returns (r: Result<Json, string>)
    requires db.Valid()
    modifies db`pipeline, db`users
    ensures db.Valid()
    ensures r.Ok? ==> r.value == value
    ensures var entries := ValidEntries(ParseQuotesValue(value, codec.loads), codec.validateEntry);
      && db.users == EnsuredUsers(old(db.users), userId, email)
      && (r.Ok? <==> CodedPrefix(entries) == |entries|)
      && (r.Ok? ==> db.pipeline == Replaced(old(db.pipeline), userId, entries, now))
      && (r.Err? ==> r.error == "projectCode is required"
                     && db.pipeline == UpsertRows(old(db.pipeline), RowsOf(userId, entries[..CodedPrefix(entries)]), now))
  {
    var entries := ParsePipelineValue(value, codec);
    var err := ReplacePipelineEntries(db, userId, entries, email, now);
    if err.Some? {
      return Err(err.value);
    }
    return Ok(value);
  }

  /** The quotes key of `set_storage_value`: every item must validate
      before the caller's quotes are replaced. */
  method SetQuotesValue(db: Db, userId: string, value: Json, email: Option<string>, now: string, codec: Codec)
    returns (r: Result<Json, string>)
    requires db.Valid()
    modifies db`quotes, db`users
    ensures db.Valid()
    ensures r.Ok? ==> r.value == value
    ensures var raw := ParseQuotesValue(value, codec.loads);
      && (!AllQuotesValid(raw) ==> r == Err("ValidationError") && db.quotes == old(db.quotes) && db.users == old(db.users))
      && (AllQuotesValid(raw) ==>
            && db.users == EnsuredUsers(old(db.users), userId, email)
            && (r.Ok? <==> ProjectPrefix(QuoteDumps(raw)) == |raw|)
            && (r.Ok? ==> db.quotes == QuotesReplaced(old(db.quotes), userId, QuoteDumps(raw), now, codec.show))
            && (r.Err? ==> r.error == "AttributeError"
                           && db.quotes == UpsertQuotes(old(db.quotes),
                                QuoteRowsOf(userId, QuoteDumps(raw)[..ProjectPrefix(QuoteDumps(raw))], codec.show), now)))
  {
    var raw := ParseQuotesValue(value, codec.loads);
    var i := 0;
    while i < |raw|
      invariant 0 <= i <= |raw|
      invariant forall j :: 0 <= j < i ==> ValidateQuote(raw[j]).Some?
    {
      if ValidateQuote(raw[i]).None? {
        return Err("ValidationError");
      }
      i := i + 1;
    }
    var dumps := QuoteDumps(raw);
    var err := ReplaceQuotes(db, userId, dumps, email, now, codec.show);
    if err.Some? {
      return Err(err.value);
    }
    r := Ok(value);
  }

  /** `set_storage_value(user_id, key, value, email)` for any other key,
      the changelog key included: one row per `(user, key)`, inserted or
      overwritten. A None value breaks the column's NOT NULL constraint. */
  method SetGeneric(db: Db, userId: string, key: string, value: Json) returns (r: Result<Json, string>)
    modifies db`userStorage
    ensures value.JNull? ==> r.Err? && db.userStorage == old(db.userStorage)
    ensures !value.JNull? ==> r == Ok(value) && db.userStorage == old(db.userStorage)[(userId, key) := value]
  {
    if value.JNull? {
      return Err("NotNullViolation");
    }
    db.userStorage := db.userStorage[(userId, key) := value];
    r := Ok(value);
  }

  /** A generic set touches only its own `(user, key)` row: every other
      user's and every other key's value is as before. */
  lemma SetGenericFrame(storage: map<(string, string), Json>, userId: string, key: string, value: Json, u: string, k: string)
    requires !value.JNull? && (u, k) != (userId, key)
    ensures GenericValue(storage[(userId, key) := value], u, k) == GenericValue(storage, u, k)
    ensures GenericValue(storage[(userId, key) := value], userId, key) == Shown(value)
  {
  }

  /** `set_storage_value(user_id, key, value, email)`. */
  method SetStorageValue(db: Db, userId: string, key: string, value: Json, email: Option<string>, now: string, codec: Codec)
    returns (r: Result<Json, string>)
    requires db.Valid()
    modifies db`pipeline, db`quotes, db`users, db`userStorage
    ensures db.Valid()
    ensures key == PipelineKey || key == QuotesKey ==> db.userStorage == old(db.userStorage)
    ensures key != PipelineKey && key != QuotesKey ==>
      && db.pipeline == old(db.pipeline) && db.quotes == old(db.quotes) && db.users == old(db.users)
      && (value.JNull? ==> r.Err? && db.userStorage == old(db.userStorage))
      && (!value.JNull? ==> r == Ok(value) && db.userStorage == old(db.userStorage)[(userId, key) := value])
    ensures r.Ok? ==> r.value == value
    ensures key == PipelineKey ==>
      var entries := ValidEntries(ParseQuotesValue(value, codec.loads), codec.validateEntry);
      && db.quotes == old(db.quotes)
      && db.users == EnsuredUsers(old(db.users), userId, email)
      && (r.Ok? <==> CodedPrefix(entries) == |entries|)
      && (r.Ok? ==> db.pipeline == Replaced(old(db.pipeline), userId, entries, now))
      && (r.Err? ==> r.error == "projectCode is required"
                     && db.pipeline == UpsertRows(old(db.pipeline), RowsOf(userId, entries[..CodedPrefix(entries)]), now))
    ensures key == QuotesKey ==>
      var raw := ParseQuotesValue(value, codec.loads);
      && db.pipeline == old(db.pipeline)
      && (!AllQuotesValid(raw) ==> r == Err("ValidationError") && db.quotes == old(db.quotes) && db.users == old(db.users))
      && (AllQuotesValid(raw) ==>
            && db.users == EnsuredUsers(old(db.users), userId, email)
            && (r.Ok? <==> ProjectPrefix(QuoteDumps(raw)) == |raw|)
            && (r.Ok? ==> db.quotes == QuotesReplaced(old(db.quotes), userId, QuoteDumps(raw), now, codec.show))
            && (r.Err? ==> r.error == "AttributeError"
                           && db.quotes == UpsertQuotes(old(db.quotes),
                                QuoteRowsOf(userId, QuoteDumps(raw)[..ProjectPrefix(QuoteDumps(raw))], codec.show), now)))
  {
    if key == PipelineKey || key == QuotesKey {
      r := SetReserved(db, userId, key, value, email, now, codec);
    } else {
      r := SetGeneric(db, userId, key, value);
    }
  }

  /** `delete_storage_value(user_id, key)`: a reserved key replaces the
      caller's set with nothing, which also registers the caller with a
      placeholder e-mail when unknown; any other key removes just the
      `(user, key)` row. */
  method DeleteStorageValue(db: Db, userId: string, key: string, now: string, codec: Codec)
    requires db.Valid()
    modifies db`pipeline, db`quotes, db`users, db`userStorage
    ensures db.Valid()
    ensures key == PipelineKey ==>
      && db.pipeline == DeleteOwned(old(db.pipeline), userId)
      && db.users == EnsuredUsers(old(db.users), userId, None)
      && db.quotes == old(db.quotes) && db.userStorage == old(db.userStorage)
    ensures key == QuotesKey ==>
      && db.quotes == DeleteQuotesOf(old(db.quotes), userId)
      && db.users == EnsuredUsers(old(db.users), userId, None)
      && db.pipeline == old(db.pipeline) && db.userStorage == old(db.userStorage)
    ensures key != PipelineKey && key != QuotesKey ==>
      && db.userStorage == old(db.userStorage) - {(userId, key)}
      && db.pipeline == old(db.pipeline) && db.quotes == old(db.quotes) && db.users == old(db.users)
  {
    ReservedKeysDistinct();
    if key == PipelineKey {
      ReplacedEmpty(db.pipeline, userId, now);
      var err := ReplacePipelineEntries(db, userId, [], None, now);
      return;
    }
    if key == QuotesKey {
      QuotesReplacedEmpty(db.quotes, userId, now, codec.show);
      var err := ReplaceQuotes(db, userId, [], None, now, codec.show);
      return;
    }
    db.userStorage := db.userStorage - {(userId, key)};
  }

  // ---------------------------------------------------------------------
  // Listing

  function GenericKeys(storage: map<(string, string), Json>, userId: string): set<string> {
    set p | p in storage && p.0 == userId :: p.1
  }

  /** The generic values of one user, as the listing's first loop fills
      them in. */
  method GenericValues(storage: map<(string, string), Json>, userId: string) returns (values: map<string, Value>)
    ensures values.Keys == GenericKeys(storage, userId)
    ensures forall k :: k in values ==> (userId, k) in storage && values[k] == Shown(storage[(userId, k)])
  {
    var remaining := set p | p in storage && p.0 == userId;
    values := map[];
    while remaining != {}
      invariant remaining <= storage.Keys
      invariant forall p :: p in remaining ==> p.0 == userId
      invariant forall k :: k in values <==> (userId, k) in storage && (userId, k) !in remaining
      invariant forall k :: k in values ==> values[k] == Shown(storage[(userId, k)])
      decreases remaining
    {
      var p :| p in remaining;
      values := values[p.1 := Shown(storage[p])];
      remaining := remaining - {p};
    }
    forall k ensures k in values <==> k in GenericKeys(storage, userId) {
      if k in values {
        assert (userId, k) in storage && (userId, k).1 == k;
      }
    }
  }

  /** `values.get("email") or user_id`, read from the listing's values. */
  function ChangelogUserOf(values: map<string, Value>, userId: string, dumps: Json -> string): string {
    if "email" !in values then userId
    else
      match values["email"]
      case Raw(s) => if s != "" then s else userId
      case Dumped(j) => if dumps(j) != "" then dumps(j) else userId
      case _ => userId
  }

  /** The changelog's fallback user: the user's generic "email" value when
      it is a non-empty string, the text of its serialization when it is
      some other JSON value, and the user id otherwise. */
  function ChangelogUser(storage: map<(string, string), Json>, userId: string, dumps: Json -> string): (u: string)
    ensures (userId, "email") !in storage ==> u == userId
    ensures (userId, "email") in storage && storage[(userId, "email")].JStr? && storage[(userId, "email")].s != ""
            ==> u == storage[(userId, "email")].s
    ensures u != ""  || userId == ""
  {
    if (userId, "email") !in storage then userId
    else
      var v := storage[(userId, "email")];
      if v.JStr? then (if v.s != "" then v.s else userId)
      else if v.JNull? then userId
      else if dumps(v) != "" then dumps(v) else userId
  }

  lemma ChangelogUserAfterOverrides(storage: map<(string, string), Json>, userId: string, dumps: Json -> string,
                                    generic: map<string, Value>, entries: seq<PipelineEntry>, quotes: seq<Json>)
    requires generic.Keys == GenericKeys(storage, userId)
    requires forall k :: k in generic ==> (userId, k) in storage && generic[k] == Shown(storage[(userId, k)])
    ensures ChangelogUserOf(generic[PipelineKey := EntriesDump(entries)][QuotesKey := QuotesDump(quotes)], userId, dumps)
            == ChangelogUser(storage, userId, dumps)
  {
    ReservedKeysDistinct();
    assert "email" != PipelineKey && "email" != QuotesKey by {
      assert |"email"| == 5;
    }
    if (userId, "email") in storage {
      assert "email" in GenericKeys(storage, userId);
    }
  }

  /** `list_storage_values(user_id)`: every generic key of the caller, and
      always the three synthesized keys, whose values override generic rows
      of the same name. `codes` and `uids` are the orders of the listed
      pipeline entries and quotes. */
  method ListStorageValues(db: Db, userId: string, now: string, codec: Codec)
    returns (values: map<string, Value>, ghost codes: seq<string>, ghost uids: seq<string>)
    requires db.Valid()
    ensures values.Keys == GenericKeys(db.userStorage, userId) + {PipelineKey, QuotesKey, ChangelogKey}
    ensures forall k :: k in values && k != PipelineKey && k != QuotesKey && k != ChangelogKey ==>
      (userId, k) in db.userStorage && values[k] == Shown(db.userStorage[(userId, k)])
    ensures values[PipelineKey].EntriesDump? && PipelineListing(db.pipeline, db.users, codes, values[PipelineKey].entries)
    ensures values[QuotesKey].QuotesDump? && QuotesListing(db.quotes, userId, uids, values[QuotesKey].quotes)
    ensures var entries := values[PipelineKey].entries;
      && (forall i :: 0 <= i < |entries| ==> entries[i].projectCode.Some?)
      && values[ChangelogKey] == ChangesDump(SortBy(Additions(entries, ChangelogUser(db.userStorage, userId, codec.dumps), now), DateKey, true))
  {
    var base, entries;
    base, entries, codes, uids := ListTables(db, userId, codec.dumps);
    var changelog := ChangelogValue(entries, ChangelogUserOf(base, userId, codec.dumps), now);
    values := base[ChangelogKey := changelog];
    ListingWithChangelog(db.userStorage, db.pipeline, db.users, db.quotes, userId, now, codec.dumps,
                         base, entries, codes, uids, changelog);
  }

  /** Adding the changelog to the tables' listing gives the whole listing. */
  lemma ListingWithChangelog(storage: map<(string, string), Json>, rows: map<string, StoredRow>,
                             users: map<string, string>, quoteRows: map<string, StoredQuote>,
                             userId: string, now: string, dumps: Json -> string,
                             base: map<string, Value>, entries: seq<PipelineEntry>,
                             codes: seq<string>, uids: seq<string>, changelog: Value)
    requires PipelineKeysConsistent(rows)
    requires base.Keys == GenericKeys(storage, userId) + {PipelineKey, QuotesKey}
    requires forall k :: k in base && k != PipelineKey && k != QuotesKey ==>
      (userId, k) in storage && base[k] == Shown(storage[(userId, k)])
    requires base[PipelineKey] == EntriesDump(entries) && PipelineListing(rows, users, codes, entries)
    requires base[QuotesKey].QuotesDump? && QuotesListing(quoteRows, userId, uids, base[QuotesKey].quotes)
    requires ChangelogUserOf(base, userId, dumps) == ChangelogUser(storage, userId, dumps)
    requires changelog == ChangesDump(SortBy(Additions(entries, ChangelogUserOf(base, userId, dumps), now), DateKey, true))
    ensures var values := base[ChangelogKey := changelog];
      && values.Keys == GenericKeys(storage, userId) + {PipelineKey, QuotesKey, ChangelogKey}
      && (forall k :: k in values && k != PipelineKey && k != QuotesKey && k != ChangelogKey ==>
          (userId, k) in storage && values[k] == Shown(storage[(userId, k)]))
      && values[PipelineKey].EntriesDump? && PipelineListing(rows, users, codes, values[PipelineKey].entries)
      && values[QuotesKey].QuotesDump? && QuotesListing(quoteRows, userId, uids, values[QuotesKey].quotes)
      && var listed := values[PipelineKey].entries;
      && (forall i :: 0 <= i < |listed| ==> listed[i].projectCode.Some?)
      && values[ChangelogKey] == ChangesDump(SortBy(Additions(listed, ChangelogUser(storage, userId, dumps), now), DateKey, true))
  {
    ReservedKeysDistinct();
  }

  /** The synthesized changelog value of the listing. */
  method ChangelogValue(entries: seq<PipelineEntry>, user: string, now: string) returns (v: Value)
    requires forall i :: 0 <= i < |entries| ==> entries[i].projectCode.Some?
    ensures v == ChangesDump(SortBy(Additions(entries, user, now), DateKey, true))
  {
    var changes := BuildChangelog(entries, user, now);
    v := ChangesDump(changes);
  }

  /** The listing before the changelog is added: the generic values with
      the pipeline entries and the quotes laid over them. */
  method ListTables(db: Db, userId: string, dumps: Json -> string)
    returns (values: map<string, Value>, entries: seq<PipelineEntry>, ghost codes: seq<string>, ghost uids: seq<string>)
    requires db.Valid()
    ensures values.Keys == GenericKeys(db.userStorage, userId) + {PipelineKey, QuotesKey}
    ensures forall k :: k in values && k != PipelineKey && k != QuotesKey ==>
      (userId, k) in db.userStorage && values[k] == Shown(db.userStorage[(userId, k)])
    ensures values[PipelineKey] == EntriesDump(entries) && PipelineListing(db.pipeline, db.users, codes, entries)
    ensures values[QuotesKey].QuotesDump? && QuotesListing(db.quotes, userId, uids, values[QuotesKey].quotes)
    ensures ChangelogUserOf(values, userId, dumps) == ChangelogUser(db.userStorage, userId, dumps)
  {
    ReservedKeysDistinct();
    var generic := GenericValues(db.userStorage, userId);
    var quotes;
    entries, codes := GetPipelineEntries(db);
    quotes, uids := GetQuotesForUser(db, userId);
    values := generic[PipelineKey := EntriesDump(entries)][QuotesKey := QuotesDump(quotes)];
    ChangelogUserAfterOverrides(db.userStorage, userId, dumps, generic, entries, quotes);
  }
}
