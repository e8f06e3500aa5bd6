/** The PostgreSQL tables the services share, as maps keyed by their
    primary or unique keys. Each SQL statement of a service is modelled as
    one atomic update of these maps. */
module Database {
  import opened Common

  /** The fee columns of `pipeline_opportunities`. */
  datatype FeeColumns = FeeColumns(
    accountsFees: real, creativeFees: real, designFees: real, strategicPlanningFees: real,
    mediaFees: real, creatorFees: real, socialFees: real, omniFees: real,
    digitalFees: real, financeFees: real)

  /** The columns of `pipeline_opportunities` the services write. */
  datatype PipelineRow = PipelineRow(
    projectCode: string,
    owner: string,
    client: string,
    programName: string,
    programType: string,
    region: string,
    startDate: Option<string>,
    endDate: Option<string>,
    startMonth: Option<string>,
    endMonth: Option<string>,
    revenue: real,
    totalFees: real,
    status: string,
    columns: FeeColumns,
    createdBy: string,
    updatedBy: string)

  /** A pipeline row as stored, with the timestamps the database maintains. */
  datatype StoredRow = StoredRow(row: PipelineRow, createdAt: string, updatedAt: string)

  /** The columns of `quotes` the services write. JSON-valued columns hold
      whatever the payload carried. */
  datatype QuoteRow = QuoteRow(
    quoteUid: string,
    projectNumber: Json,
    clientName: Json,
    clientCategory: Json,
    brand: Json,
    projectName: Json,
    briefDate: Option<string>,
    inMarketDate: Option<string>,
    projectCompletionDate: Option<string>,
    totalProgramBudget: Json,
    rateCard: Json,
    currency: Json,
    phases: Json,
    phaseSettings: Json,
    status: Json,
    createdBy: string,
    updatedBy: string,
    fullQuote: Json)

  datatype StoredQuote = StoredQuote(row: QuoteRow, createdAt: string, updatedAt: string)

  /** A row of `overhead_employees`. */
  datatype OverheadRow = OverheadRow(
    id: string,
    userId: string,
    department: string,
    employeeName: string,
    role: string,
    location: Option<string>,
    annualSalary: real,
    allocationPercent: real,
    startDate: Option<string>,
    endDate: Option<string>,
    monthlyAllocations: map<string, real>,
    createdAt: string,
    updatedAt: string,
    createdBy: Option<string>,
    updatedBy: Option<string>)

  predicate PipelineKeysConsistent(rows: map<string, StoredRow>) {
    forall c :: c in rows ==> rows[c].row.projectCode == c
  }

  predicate QuoteKeysConsistent(rows: map<string, StoredQuote>) {
    forall u :: u in rows ==> rows[u].row.quoteUid == u
  }

  predicate OverheadKeysConsistent(rows: map<string, OverheadRow>) {
    forall i :: i in rows ==> rows[i].id == i
  }

  /** `INSERT INTO users ... ON CONFLICT (id) DO NOTHING` with the given or a
      placeholder e-mail address: an existing user is left alone. */
  function EnsuredUsers(users: map<string, string>, userId: string, email: Option<string>): (r: map<string, string>)
    ensures userId in r
    ensures forall u :: u in users ==> u in r && r[u] == users[u]
    ensures forall u :: u in r ==> u in users || u == userId
    ensures userId !in users ==> r[userId] == OrElse(email, userId + "@placeholder.local")
  {
    if userId in users then users else users[userId := OrElse(email, userId + "@placeholder.local")]
  }

  /** The e-mail column a `LEFT JOIN users` yields for a user id. */
  function EmailOf(users: map<string, string>, id: string): Option<string> {
    if id in users then Some(users[id]) else None
  }

  /** The database: `users` (id to e-mail), `pipeline_opportunities` keyed by
      project code, `quotes` keyed by quote uid, `user_storage` keyed by
      (user id, storage key), and `overhead_employees` keyed by id. */
  class Db {
    var users: map<string, string>
    var pipeline: map<string, StoredRow>
    var quotes: map<string, StoredQuote>
    var userStorage: map<(string, string), Json>
    var overhead: map<string, OverheadRow>

    /** Every row sits under its own key. */
    ghost predicate Valid()
      reads this
    {
      PipelineKeysConsistent(pipeline) && QuoteKeysConsistent(quotes) && OverheadKeysConsistent(overhead)
    }

    constructor ()
      ensures Valid()
      ensures users == map[] && pipeline == map[] && quotes == map[]
      ensures userStorage == map[] && overhead == map[]
    {
      users := map[];
      pipeline := map[];
      quotes := map[];
      userStorage := map[];
      overhead := map[];
    }
  }

  /** `_ensure_user(user_id, email)`, as both the pipeline and the quotes
      service define it. */
  method EnsureUser(db: Db, userId: string, email: Option<string>)
    modifies db`users
    ensures db.users == EnsuredUsers(old(db.users), userId, email)
  {
    if userId !in db.users {
      db.users := db.users[userId := OrElse(email, userId + "@placeholder.local")];
    }
  }
}
