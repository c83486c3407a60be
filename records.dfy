/** The rows the store returns, the responses the handlers send, and the
    queries they hand to the database. A handler that calls the database
    is modelled as a step: it either responds at once or issues a query,
    and the database's answer is the input of the next step. */
module Records {
  import opened JsValues
  import opened Dates

  /** A row of the `exercises` table as `SELECT id, description, duration, date` returns it.
      `date` holds the `toDateString` text of a valid day, given here by its day number. */
  datatype Exercise = Exercise(id: int, description: string, duration: int, date: int)

  /** One element of the `log` array in a logs response. */
  datatype LogEntry = LogEntry(description: string, duration: int, date: DateText)

  /** A value bound to a `?` placeholder. */
  datatype Param = Text(text: string) | Number(number: JsInt) | DateValue(date: DateText)

  /** The JSON body of a response. */
  datatype Body =
    | Error(message: string)
    | UserCreated(username: string, id: int)
    | ExerciseAdded(userId: string, username: string, description: string, duration: JsInt, date: DateText)
    | Log(userId: string, username: string, count: int, log: seq<LogEntry>)

  datatype Response = Response(status: int, body: Body)

  /** What a handler does next: answer the request, or run a query and wait for its callback. */
  datatype Step = Respond(response: Response) | Query(sql: string, params: seq<Param>)

  /** The outcome of a database call: the callback's `err`, or its result. */
  datatype DbResult<T> = DbError | DbOk(value: T)

  const DatabaseError := "Database error"
  const UserNotFound := "User not found"
  const UserQuery := "SELECT username FROM users WHERE id = ?"

  /** The placeholder, and the rows query of both logs handlers, kept in short pieces so that
      the placeholders of each piece can be counted on its own. */
  const Mark := "?"
  const SelectPart := "SELECT id, description, "
  const ColumnsPart := "duration, date FROM "
  const WherePart := "exercises WHERE user_id = "
  const ExerciseRowsQuery := SelectPart + ColumnsPart + WherePart + Mark

  function ServerError(): Response { Response(500, Error(DatabaseError)) }

  /** The callback of `db.get(UserQuery, [userId])` shared by the exercise and logs handlers:
      a database error is 500, no row is 404, and a row lets the handler go on with `next`. */
  function OnUserLookup(user: DbResult<Option<string>>, next: Step): (step: Step)
    ensures user.DbError? ==> step == Respond(ServerError())
    ensures user == DbOk(None) ==> step == Respond(Response(404, Error(UserNotFound)))
    ensures user.DbOk? && user.value.Some? ==> step == next
  {
    match user
    case DbError => Respond(ServerError())
    case DbOk(None) => Respond(Response(404, Error(UserNotFound)))
    case DbOk(Some(_)) => next
  }

  function ToEntry(e: Exercise): LogEntry {
    LogEntry(e.description, e.duration, DayText(e.date))
  }

  /** `rows.map(e => ({description, duration, date}))`. */
  function Project(rows: seq<Exercise>): (log: seq<LogEntry>)
    ensures |log| == |rows|
    ensures forall i :: 0 <= i < |rows| ==>
      log[i].description == rows[i].description &&
      log[i].duration == rows[i].duration &&
      log[i].date == DayText(rows[i].date)
  {
    if rows == [] then [] else [ToEntry(rows[0])] + Project(rows[1..])
  }

  /** Projecting a prefix is the prefix of the projection: capping before or after the map agrees. */
  lemma {:induction false} ProjectPrefix(rows: seq<Exercise>, k: nat)
    requires k <= |rows|
    ensures Project(rows[..k]) == Project(rows)[..k]
  {
    var a, b := Project(rows[..k]), Project(rows)[..k];
    assert |a| == |b|;
    forall i | 0 <= i < k ensures a[i] == b[i] {
      assert rows[..k][i] == rows[i];
    }
  }
}
