/** Application settings: the database connection URL assembled from the
    individual settings, and the comma-separated CORS origin list read from
    the environment. */
module Config {
  import opened Common
  import opened PyStrings

  /** The settings that take part in the database URL. */
  datatype DbSettings = DbSettings(
    databaseUrl: Option<string>,
    postgresHost: Option<string>,
    postgresPort: Option<int>,
    postgresUser: Option<string>,
    postgresPassword: Option<string>,
    postgresDb: Option<string>,
    cloudSqlConnectionName: Option<string>)

  /** The `cors_origins` setting when the environment does not set it. */
  const UnsetCorsOrigins: seq<string> := ["*"]

  const DefaultHost: string := "127.0.0.1"
  const DefaultPort: int := 5432
  const UrlScheme: string := "postgresql://"

  // ---------------------------------------------------------------------
  // Database URL

  /** The host part: a Cloud SQL socket directory when a connection name is
      set, otherwise the configured host, otherwise the loopback address. */
  function DbHost(s: DbSettings): (h: string)
    ensures !IsEmpty(s.cloudSqlConnectionName) ==> h == "/cloudsql/" + s.cloudSqlConnectionName.value
    ensures IsEmpty(s.cloudSqlConnectionName) && !IsEmpty(s.postgresHost) ==> h == s.postgresHost.value
    ensures IsEmpty(s.cloudSqlConnectionName) && IsEmpty(s.postgresHost) ==> h == DefaultHost
  {
    if !IsEmpty(s.cloudSqlConnectionName) then "/cloudsql/" + s.cloudSqlConnectionName.value
    else OrElse(s.postgresHost, DefaultHost)
  }

  /** The port: a missing port and port 0 (which is falsy) both give the
      PostgreSQL default. */
  function DbPort(s: DbSettings): (p: int)
    ensures s.postgresPort.Some? && s.postgresPort.value != 0 ==> p == s.postgresPort.value
    ensures s.postgresPort.None? || s.postgresPort.value == 0 ==> p == DefaultPort
    ensures p != 0
  {
    if s.postgresPort.Some? && s.postgresPort.value != 0 then s.postgresPort.value else DefaultPort
  }

  /** The user-info part of the URL; missing credentials are empty. */
  function UserInfo(s: DbSettings): string {
    OrElse(s.postgresUser, "") + ":" + OrElse(s.postgresPassword, "")
  }

  /** `build_db_url`: an explicit URL wins; without a database name there is
      no URL; otherwise the URL is assembled from its parts, none of which is
      escaped. */
  function BuildDbUrl(s: DbSettings): (r: Option<string>)
    ensures !IsEmpty(s.databaseUrl) ==> r == s.databaseUrl
    ensures IsEmpty(s.databaseUrl) ==> (r.None? <==> IsEmpty(s.postgresDb))
  {
    if !IsEmpty(s.databaseUrl) then s.databaseUrl
    else if IsEmpty(s.postgresDb) then None
    else Some(UrlScheme + UserInfo(s) + "@" + DbHost(s) + ":" + IntToString(DbPort(s)) + "/" + s.postgresDb.value)
  }

  /** An assembled URL starts with the scheme, the credentials and the host,
      and ends with the port and the database name. */
  lemma DbUrlShape(s: DbSettings)
    requires IsEmpty(s.databaseUrl) && !IsEmpty(s.postgresDb)
    ensures StartsWith(BuildDbUrl(s).value, UrlScheme + UserInfo(s) + "@" + DbHost(s) + ":")
    ensures EndsWith(BuildDbUrl(s).value, ":" + IntToString(DbPort(s)) + "/" + s.postgresDb.value)
  {
    UrlEnds(UrlScheme + UserInfo(s) + "@" + DbHost(s), IntToString(DbPort(s)), s.postgresDb.value);
  }

  lemma UrlEnds(head: string, port: string, db: string)
    ensures StartsWith(head + ":" + port + "/" + db, head + ":")
    ensures EndsWith(head + ":" + port + "/" + db, ":" + port + "/" + db)
  {
    var url := head + ":" + port + "/" + db;
    assert url == (head + ":") + (port + "/" + db);
    assert url == head + (":" + port + "/" + db);
    assert url[..|head + ":"|] == head + ":";
    assert url[|head|..] == ":" + port + "/" + db;
  }

  /** When neither the user name nor the password holds `:` or `@`, both can
      be read back from the assembled URL: the text up to the first `@` after
      the scheme, split at `:`. */
  lemma UserInfoRecoverable(s: DbSettings)
    requires IsEmpty(s.databaseUrl) && !IsEmpty(s.postgresDb)
    requires var u := OrElse(s.postgresUser, ""); ':' !in u && '@' !in u
    requires var p := OrElse(s.postgresPassword, ""); ':' !in p && '@' !in p
    ensures var url := BuildDbUrl(s).value;
      StartsWith(url, UrlScheme) &&
      var info := SplitOn(url[|UrlScheme|..], '@')[0];
      SplitOn(info, ':') == [OrElse(s.postgresUser, ""), OrElse(s.postgresPassword, "")]
  {
    var rest := DbHost(s) + ":" + IntToString(DbPort(s)) + "/" + s.postgresDb.value;
    var after := UserInfo(s) + "@" + rest;
    var url := BuildDbUrl(s).value;
    UrlRegroup(UrlScheme, UserInfo(s), DbHost(s), IntToString(DbPort(s)), s.postgresDb.value);
    assert url[..|UrlScheme|] == UrlScheme;
    assert url[|UrlScheme|..] == after;
    CredentialsSplit(OrElse(s.postgresUser, ""), OrElse(s.postgresPassword, ""), rest);
  }

  lemma UrlRegroup(scheme: string, info: string, host: string, port: string, db: string)
    ensures scheme + info + "@" + host + ":" + port + "/" + db == scheme + (info + "@" + (host + ":" + port + "/" + db))
  {
  }

  /** `user:password@rest` splits back into the user and the password when
      neither holds a separator. */
  lemma CredentialsSplit(u: string, p: string, rest: string)
    requires ':' !in u && '@' !in u && ':' !in p && '@' !in p
    ensures SplitOn(SplitOn(u + ":" + p + "@" + rest, '@')[0], ':') == [u, p]
  {
    assert u + ":" + p + "@" + rest == (u + ":" + p) + ['@'] + rest;
    assert '@' !in u + ":" + p;
    SplitOnPiece(u + ":" + p, '@', rest);
    SplitOnPiece(u, ':', p);
    SplitOnNone(p, ':');
    assert u + ":" + p == u + [':'] + p;
  }

  // ---------------------------------------------------------------------
  // CORS origins from the environment

  /** A non-empty text with no surrounding whitespace. */
  predicate Clean(o: string) {
    o != [] && !IsSpace(o[0]) && !IsSpace(o[|o| - 1])
  }

  /** Every piece stripped, with the pieces that strip to nothing dropped. */
  function StrippedNonEmpty(parts: seq<string>): (r: seq<string>)
    ensures |r| <= |parts|
  {
    if |parts| == 0 then []
    else
      var p := Strip(parts[0]);
      if p == [] then StrippedNonEmpty(parts[1..]) else [p] + StrippedNonEmpty(parts[1..])
  }

  /** Every kept piece is stripped and non-empty. */
  lemma StrippedNonEmptyAllClean(parts: seq<string>)
    ensures forall i :: 0 <= i < |StrippedNonEmpty(parts)| ==> Clean(StrippedNonEmpty(parts)[i])
  {
    forall i | 0 <= i < |StrippedNonEmpty(parts)| ensures Clean(StrippedNonEmpty(parts)[i]) {
      StrippedNonEmptyCleanAt(parts, i);
    }
  }

  lemma {:induction false} StrippedNonEmptyCleanAt(parts: seq<string>, i: int)
    requires 0 <= i < |StrippedNonEmpty(parts)|
    ensures Clean(StrippedNonEmpty(parts)[i])
  {
    if Strip(parts[0]) == [] {
      StrippedNonEmptySkip(parts);
      StrippedNonEmptyCleanAt(parts[1..], i);
    } else if i > 0 {
      StrippedNonEmptyKeep(parts);
      StrippedNonEmptyCleanAt(parts[1..], i - 1);
    } else {
      StrippedNonEmptyKeep(parts);
    }
  }

  lemma StrippedNonEmptySkip(parts: seq<string>)
    requires |parts| > 0 && Strip(parts[0]) == []
    ensures StrippedNonEmpty(parts) == StrippedNonEmpty(parts[1..])
  {
  }

  lemma StrippedNonEmptyKeep(parts: seq<string>)
    requires |parts| > 0 && Strip(parts[0]) != []
    ensures StrippedNonEmpty(parts) == [Strip(parts[0])] + StrippedNonEmpty(parts[1..])
  {
  }

  /** A character that no piece holds is in no stripped piece. */
  lemma {:induction false} StrippedNonEmptyKeepsOut(parts: seq<string>, c: char)
    requires forall j :: 0 <= j < |parts| ==> c !in parts[j]
    ensures forall i :: 0 <= i < |StrippedNonEmpty(parts)| ==> c !in StrippedNonEmpty(parts)[i]
  {
    if |parts| > 0 {
      StripKeepsOut(parts[0], c);
      StrippedNonEmptyKeepsOut(parts[1..], c);
    }
  }

  /** Pieces that are already stripped and non-empty are kept as they are. */
  lemma {:induction false} StrippedNonEmptyClean(parts: seq<string>)
    requires forall i :: 0 <= i < |parts| ==>
      Clean(parts[i])
    ensures StrippedNonEmpty(parts) == parts
  {
    if |parts| > 0 {
      StripUnchanged(parts[0]);
      StrippedNonEmptyKeep(parts);
      StrippedNonEmptyClean(parts[1..]);
      assert [parts[0]] + parts[1..] == parts;
    }
  }

  /** A comma-separated origin list from the environment: each origin is
      non-empty, carries no surrounding whitespace and no comma. */
  function CorsOrigins(val: string): (r: seq<string>)
    ensures forall i :: 0 <= i < |r| ==> Clean(r[i])
    ensures forall i :: 0 <= i < |r| ==> ',' !in r[i]
  {
    StrippedNonEmptyKeepsOut(SplitOn(val, ','), ',');
    StrippedNonEmptyAllClean(SplitOn(val, ','));
    StrippedNonEmpty(SplitOn(val, ','))
  }

  /** Joining clean origins with commas and reading them back gives the same
      list. */
  lemma CorsOriginsRoundTrip(origins: seq<string>)
    requires forall i :: 0 <= i < |origins| ==>
      Clean(origins[i])
    requires forall i :: 0 <= i < |origins| ==> ',' !in origins[i]
    ensures CorsOrigins(Join(origins, ',')) == origins
  {
    if |origins| == 0 {
      NoOriginsText();
    } else {
      SplitOnJoin(origins, ',');
      StrippedNonEmptyClean(origins);
    }
  }

  /** An empty setting gives no origins. */
  lemma NoOriginsText()
    ensures CorsOrigins("") == []
  {
    assert SplitOn("", ',') == [""];
    assert Strip("") == [];
  }

  /** The environment hook: a string `cors_origins` value is replaced by its
      origin list; any other value, and every other setting, is kept. */
  function ParseEnv(data: map<string, Json>): (r: map<string, Json>)
    ensures r.Keys == data.Keys
    ensures forall k :: k in data && k != "cors_origins" ==> r[k] == data[k]
    ensures "cors_origins" in data && data["cors_origins"].JStr? ==>
      var origins := CorsOrigins(data["cors_origins"].s);
      r["cors_origins"].JArr? && |r["cors_origins"].items| == |origins| &&
      forall i :: 0 <= i < |origins| ==> r["cors_origins"].items[i] == JStr(origins[i])
    ensures "cors_origins" in data && !data["cors_origins"].JStr? ==> r == data
  {
    if "cors_origins" in data && data["cors_origins"].JStr? then
      var origins := CorsOrigins(data["cors_origins"].s);
      data["cors_origins" := JArr(seq(|origins|, i requires 0 <= i < |origins| => JStr(origins[i])))]
    else data
  }
}
