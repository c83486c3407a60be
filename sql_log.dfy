/** `GET /api/users/:_id/logs` as index.js writes it (and, in the same words,
    the router in middlewares/validation.js): the date window and the cap are
    pushed into the SQL text, one clause and one parameter at a time, and the
    response counts the rows the query returned. */
module SqlLog {
  import opened JsValues
  import opened Dates
  import opened Records
  import MemoryLog

  const FromClause := " AND date >= " + Mark
  const ToClause := " AND date <= " + Mark
  const OrderClause := " ORDER BY date DESC"
  const LimitClause := " LIMIT " + Mark

  /** The number of `?` placeholders in a query text. */
  function Placeholders(q: string): nat { multiset(q)['?'] }

  lemma PlaceholdersAppend(a: string, b: string)
    ensures Placeholders(a + b) == Placeholders(a) + Placeholders(b)
  {
    assert multiset(a + b) == multiset(a) + multiset(b);
  }

  lemma NoPlaceholder(s: string)
    requires '?' !in s
    ensures Placeholders(s) == 0
  {
  }

  lemma MarkPlaceholder()
    ensures Placeholders(Mark) == 1
  {
  }

  lemma SelectPartPlaceholders()
    ensures Placeholders(SelectPart) == 0
  {
    assert '?' !in SelectPart;
    NoPlaceholder(SelectPart);
  }

  lemma ColumnsPartPlaceholders()
    ensures Placeholders(ColumnsPart) == 0
  {
    assert '?' !in ColumnsPart;
    NoPlaceholder(ColumnsPart);
  }

  lemma WherePartPlaceholders()
    ensures Placeholders(WherePart) == 0
  {
    assert '?' !in WherePart;
    NoPlaceholder(WherePart);
  }

  /** The base query has one placeholder, for the user id. */
  lemma RowsQueryPlaceholders()
    ensures Placeholders(ExerciseRowsQuery) == 1
  {
    assert ExerciseRowsQuery == SelectPart + ColumnsPart + WherePart + Mark;
    SelectPartPlaceholders();
    ColumnsPartPlaceholders();
    WherePartPlaceholders();
    MarkPlaceholder();
    FourPiecePlaceholders(ExerciseRowsQuery, SelectPart, ColumnsPart, WherePart, Mark);
  }

  lemma FourPiecePlaceholders(q: string, a: string, b: string, c: string, d: string)
    requires q == a + b + c + d
    requires Placeholders(a) == 0 && Placeholders(b) == 0 && Placeholders(c) == 0 && Placeholders(d) == 1
    ensures Placeholders(q) == 1
  {
    PlaceholdersAppend(a, b);
    PlaceholdersAppend(a + b, c);
    PlaceholdersAppend(a + b + c, d);
  }

  lemma FromClausePlaceholders()
    ensures Placeholders(FromClause) == 1
  {
    assert '?' !in " AND date >= ";
    NoPlaceholder(" AND date >= ");
    MarkPlaceholder();
    PlaceholdersAppend(" AND date >= ", Mark);
  }

  lemma ToClausePlaceholders()
    ensures Placeholders(ToClause) == 1
  {
    assert '?' !in " AND date <= ";
    NoPlaceholder(" AND date <= ");
    MarkPlaceholder();
    PlaceholdersAppend(" AND date <= ", Mark);
  }

  lemma OrderClausePlaceholders()
    ensures Placeholders(OrderClause) == 0
  {
    assert '?' !in OrderClause;
    NoPlaceholder(OrderClause);
  }

  lemma LimitClausePlaceholders()
    ensures Placeholders(LimitClause) == 1
  {
    assert '?' !in " LIMIT ";
    NoPlaceholder(" LIMIT ");
    MarkPlaceholder();
    PlaceholdersAppend(" LIMIT ", Mark);
  }

  /** Each optional clause adds one placeholder; the ORDER BY clause adds none. */
  lemma ClausePlaceholders()
    ensures Placeholders(FromClause) == 1 && Placeholders(ToClause) == 1
    ensures Placeholders(OrderClause) == 0 && Placeholders(LimitClause) == 1
  {
    FromClausePlaceholders();
    ToClausePlaceholders();
    OrderClausePlaceholders();
    LimitClausePlaceholders();
  }

  /** `if (present) query += clause`. */
  function AddIf(present: bool, query: string, clause: string): string {
    if present then query + clause else query
  }

  /** `if (present) params.push(x)`. */
  function PushIf(present: bool, params: seq<Param>, x: Param): seq<Param> {
    if present then params + [x] else params
  }

  /** The query any pieces assemble to, clause by clause, as the builder appends them. */
  function Assemble(base: string, fromClause: string, toClause: string, orderClause: string, limitClause: string,
                    hasFrom: bool, hasTo: bool, hasLimit: bool): string {
    AddIf(hasLimit, AddIf(hasTo, AddIf(hasFrom, base, fromClause), toClause) + orderClause, limitClause)
  }

  /** The query the builder ends with. */
  function LogQuery(from: DateParam, to: DateParam, limit: LimitParam): string {
    Assemble(ExerciseRowsQuery, FromClause, ToClause, OrderClause, LimitClause, Truthy(from), Truthy(to), limit.Limit?)
  }

  /** The parameter list the builder ends with. */
  function LogParams(userId: string, from: DateParam, to: DateParam, limit: LimitParam): seq<Param> {
    var withFrom := PushIf(Truthy(from), [Text(userId)], DateValue(ToDateString(NewDate(from))));
    var withTo := PushIf(Truthy(to), withFrom, DateValue(ToDateString(NewDate(to))));
    if limit.Limit? then withTo + [Number(limit.parsed)] else withTo
  }

  function Flag(b: bool): nat { if b then 1 else 0 }

  /** The builder: `let query = ...; const params = [userId];` followed by the conditional
      `query += ...` and `params.push(...)` steps. */
  method BuildLogQuery(userId: string, from: DateParam, to: DateParam, limit: LimitParam)
    returns (query: string, params: seq<Param>)
    ensures query == LogQuery(from, to, limit)
    ensures params == LogParams(userId, from, to, limit)
    ensures Placeholders(query) == |params|
  {
    query := ExerciseRowsQuery;
    params := [Text(userId)];
    ghost var base := query;
    if Truthy(from) {
      query := query + FromClause;
      params := params + [DateValue(ToDateString(NewDate(from)))];
    }
    ghost var withFrom := query;
    assert withFrom == AddIf(Truthy(from), base, FromClause);
    if Truthy(to) {
      query := query + ToClause;
      params := params + [DateValue(ToDateString(NewDate(to)))];
    }
    assert query == AddIf(Truthy(to), withFrom, ToClause);
    query := query + OrderClause;
    ghost var ordered := query;
    if limit.Limit? {
      query := query + LimitClause;
      params := params + [Number(limit.parsed)];
    }
    assert query == AddIf(limit.Limit?, ordered, LimitClause);
    PlaceholdersMatchParams(userId, from, to, limit);
  }

  /** Appending a clause that holds one placeholder adds one placeholder when the clause is present. */
  lemma AddIfPlaceholders(present: bool, query: string, clause: string)
    requires Placeholders(clause) == 1
    ensures Placeholders(AddIf(present, query, clause)) == Placeholders(query) + Flag(present)
  {
    PlaceholdersAppend(query, clause);
  }

  /** The count of placeholders in any query assembled the way the builder does, whatever the
      texts of its pieces, as long as each holds as many placeholders as the real ones. */
  lemma AssembledPlaceholders(base: string, fromClause: string, toClause: string, orderClause: string,
                              limitClause: string, hasFrom: bool, hasTo: bool, hasLimit: bool)
    requires Placeholders(base) == 1 && Placeholders(fromClause) == 1 && Placeholders(toClause) == 1
    requires Placeholders(orderClause) == 0 && Placeholders(limitClause) == 1
    ensures Placeholders(Assemble(base, fromClause, toClause, orderClause, limitClause, hasFrom, hasTo, hasLimit))
      == 1 + Flag(hasFrom) + Flag(hasTo) + Flag(hasLimit)
  {
    var q1 := AddIf(hasFrom, base, fromClause);
    var q2 := AddIf(hasTo, q1, toClause);
    AddIfPlaceholders(hasFrom, base, fromClause);
    AddIfPlaceholders(hasTo, q1, toClause);
    PlaceholdersAppend(q2, orderClause);
    AddIfPlaceholders(hasLimit, q2 + orderClause, limitClause);
  }

  /** The log query is the base query with the three optional clauses and the ordering assembled onto it. */
  lemma LogQueryIsAssembled(from: DateParam, to: DateParam, limit: LimitParam)
    ensures LogQuery(from, to, limit) ==
      Assemble(ExerciseRowsQuery, FromClause, ToClause, OrderClause, LimitClause, Truthy(from), Truthy(to), limit.Limit?)
  {
  }

  /** The final query holds one placeholder for the user, and one per truthy `from`, `to` and `limit`. */
  lemma QueryPlaceholders(from: DateParam, to: DateParam, limit: LimitParam)
    ensures Placeholders(LogQuery(from, to, limit)) == 1 + Flag(Truthy(from)) + Flag(Truthy(to)) + Flag(limit.Limit?)
  {
    LogQueryIsAssembled(from, to, limit);
    RowsQueryPlaceholders();
    ClausePlaceholders();
    AssembledPlaceholders(ExerciseRowsQuery, FromClause, ToClause, OrderClause, LimitClause,
                          Truthy(from), Truthy(to), limit.Limit?);
  }

  /** The placeholders in the final query match the parameters bound to them. */
  lemma PlaceholdersMatchParams(userId: string, from: DateParam, to: DateParam, limit: LimitParam)
    ensures Placeholders(LogQuery(from, to, limit)) == |LogParams(userId, from, to, limit)|
  {
    QueryPlaceholders(from, to, limit);
    LogParamsLength(userId, from, to, limit);
  }

  lemma LogParamsLength(userId: string, from: DateParam, to: DateParam, limit: LimitParam)
    ensures |LogParams(userId, from, to, limit)| == 1 + Flag(Truthy(from)) + Flag(Truthy(to)) + Flag(limit.Limit?)
  {
  }

  /** The parameters start with the user id; the `from` text follows it when `from` is truthy,
      the `to` text comes next when `to` is, and the parsed limit is last when `limit` is. */
  lemma ParamsOrder(userId: string, from: DateParam, to: DateParam, limit: LimitParam)
    ensures var p := LogParams(userId, from, to, limit);
      && p[0] == Text(userId)
      && (Truthy(from) ==> p[1] == DateValue(ToDateString(NewDate(from))))
      && (Truthy(to) ==> p[1 + Flag(Truthy(from))] == DateValue(ToDateString(NewDate(to))))
      && (limit.Limit? ==> p[|p| - 1] == Number(limit.parsed))
  {
  }

  predicate EndsWith(s: string, suffix: string) {
    |suffix| <= |s| && s[|s| - |suffix|..] == suffix
  }

  lemma AddIfExtends(present: bool, query: string, clause: string)
    ensures StartsWith(AddIf(present, query, clause), query)
  {
    if present {
      assert (query + clause)[..|query|] == query;
    } else {
      assert query[..|query|] == query;
    }
  }

  lemma StartsWithTrans(a: string, b: string, c: string)
    requires StartsWith(a, b) && StartsWith(b, c)
    ensures StartsWith(a, c)
  {
    assert a[..|c|] == a[..|b|][..|c|];
  }

  lemma StartsWithAt(q: string, p: string, i: nat)
    requires StartsWith(q, p) && i < |p|
    ensures q[i] == p[i]
  {
    assert q[..|p|][i] == q[i];
  }

  lemma DifferAt(q: string, p: string, i: nat)
    requires i < |p| && i < |q| && q[i] != p[i]
    ensures !StartsWith(q, p)
  {
    if StartsWith(q, p) {
      StartsWithAt(q, p, i);
    }
  }

  /** Whatever the pieces, as long as the optional clauses can be told apart by one character,
      each filter clause appears in its place exactly when it was added. */
  lemma AssembledClauses(base: string, fromClause: string, toClause: string, orderClause: string,
                         limitClause: string, hasFrom: bool, hasTo: bool, hasLimit: bool)
    requires |fromClause| > 10 && |toClause| > 10 && |orderClause| > 1
    requires fromClause[10] != toClause[10] && fromClause[1] != orderClause[1] && toClause[1] != orderClause[1]
    ensures var q := Assemble(base, fromClause, toClause, orderClause, limitClause, hasFrom, hasTo, hasLimit);
      && StartsWith(q, base)
      && (hasFrom <==> StartsWith(q, base + fromClause))
      && (hasTo <==> StartsWith(q, AddIf(hasFrom, base, fromClause) + toClause))
  {
    var q1 := AddIf(hasFrom, base, fromClause);
    var q2 := AddIf(hasTo, q1, toClause);
    var q3 := q2 + orderClause;
    var q := AddIf(hasLimit, q3, limitClause);
    AddIfExtends(hasFrom, base, fromClause);
    AddIfExtends(hasTo, q1, toClause);
    AddIfExtends(true, q2, orderClause);
    AddIfExtends(hasLimit, q3, limitClause);
    StartsWithTrans(q, q3, q2);
    StartsWithTrans(q, q2, q1);
    StartsWithTrans(q, q1, base);
    if !hasFrom {
      var k := if hasTo then 10 else 1;
      StartsWithAt(q, q3, |base| + k);
      DifferAt(q, base + fromClause, |base| + k);
    }
    if !hasTo {
      StartsWithAt(q, q3, |q1| + 1);
      DifferAt(q, q1 + toClause, |q1| + 1);
    }
  }

  /** Whatever the pieces, as long as the ORDER BY and LIMIT clauses end in different characters,
      the query ends with the LIMIT clause exactly when it was added, and with ORDER BY otherwise. */
  lemma AssembledEnding(base: string, fromClause: string, toClause: string, orderClause: string,
                        limitClause: string, hasFrom: bool, hasTo: bool, hasLimit: bool)
    requires |orderClause| > 0 && |limitClause| > 0
    requires orderClause[|orderClause| - 1] != limitClause[|limitClause| - 1]
    ensures var filtered := AddIf(hasTo, AddIf(hasFrom, base, fromClause), toClause);
      var q := Assemble(base, fromClause, toClause, orderClause, limitClause, hasFrom, hasTo, hasLimit);
      && StartsWith(q, filtered + orderClause)
      && (!hasLimit ==> q == filtered + orderClause)
      && (hasLimit <==> EndsWith(q, limitClause))
  {
    var q3 := AddIf(hasTo, AddIf(hasFrom, base, fromClause), toClause) + orderClause;
    var q := AddIf(hasLimit, q3, limitClause);
    AddIfExtends(hasLimit, q3, limitClause);
    if hasLimit {
      assert q[|q| - |limitClause|..] == limitClause;
    }
  }

  /** The characters that tell the clauses apart. */
  lemma ClauseCharacters()
    ensures |FromClause| > 10 && |ToClause| > 10 && |OrderClause| > 1 && |LimitClause| > 0
    ensures FromClause[10] == '>' && ToClause[10] == '<'
    ensures FromClause[1] == 'A' && ToClause[1] == 'A' && OrderClause[1] == 'O'
    ensures OrderClause[|OrderClause| - 1] == 'C' && LimitClause[|LimitClause| - 1] == '?'
  {
  }

  /** The query starts with the base query; the `>=` clause follows it exactly when `from` is
      truthy, and the `<=` clause comes next exactly when `to` is. */
  lemma QueryClauses(from: DateParam, to: DateParam, limit: LimitParam)
    ensures StartsWith(LogQuery(from, to, limit), ExerciseRowsQuery)
    ensures Truthy(from) <==> StartsWith(LogQuery(from, to, limit), ExerciseRowsQuery + FromClause)
    ensures Truthy(to) <==>
      StartsWith(LogQuery(from, to, limit), AddIf(Truthy(from), ExerciseRowsQuery, FromClause) + ToClause)
  {
    ClauseCharacters();
    AssembledClauses(ExerciseRowsQuery, FromClause, ToClause, OrderClause, LimitClause,
                     Truthy(from), Truthy(to), limit.Limit?);
  }

  /** ORDER BY always follows the filter clauses; the query ends with it when there is no limit,
      and with ` LIMIT ?` exactly when there is one. */
  lemma QueryEnding(from: DateParam, to: DateParam, limit: LimitParam)
    ensures var filtered := AddIf(Truthy(to), AddIf(Truthy(from), ExerciseRowsQuery, FromClause), ToClause);
      var q := LogQuery(from, to, limit);
      && StartsWith(q, filtered + OrderClause)
      && (limit.NoLimit? ==> q == filtered + OrderClause)
      && (limit.Limit? <==> EndsWith(q, LimitClause))
  {
    ClauseCharacters();
    AssembledEnding(ExerciseRowsQuery, FromClause, ToClause, OrderClause, LimitClause,
                    Truthy(from), Truthy(to), limit.Limit?);
  }

  /** The first callback: 500 or 404 without a rows query, otherwise the built query. */
  method LogsOnUser(userId: string, user: DbResult<Option<string>>,
                    from: DateParam, to: DateParam, limit: LimitParam) returns (step: Step)
    ensures step == OnUserLookup(user, Query(LogQuery(from, to, limit), LogParams(userId, from, to, limit)))
    ensures step.Query? ==> Placeholders(step.sql) == |step.params|
  {
    match user
    case DbError =>
      step := Respond(ServerError());
    case DbOk(None) =>
      step := Respond(Response(404, Error(UserNotFound)));
    case DbOk(Some(_)) =>
      var query, params := BuildLogQuery(userId, from, to, limit);
      step := Query(query, params);
  }

  /** The second callback: the rows the query returned, counted after the LIMIT and projected. */
  function LogsOnRows(userId: string, username: string, fetched: DbResult<seq<Exercise>>): (r: Response)
    ensures fetched.DbError? ==> r == ServerError()
    ensures fetched.DbOk? ==> r.status == 200 && r.body.Log?
    ensures fetched.DbOk? ==> r.body.userId == userId && r.body.username == username
    ensures fetched.DbOk? ==> r.body.count == |r.body.log| == |fetched.value|
    ensures fetched.DbOk? ==> forall i :: 0 <= i < |fetched.value| ==>
      r.body.log[i] == LogEntry(fetched.value[i].description, fetched.value[i].duration, DayText(fetched.value[i].date))
  {
    match fetched
    case DbError => ServerError()
    case DbOk(logs) => Response(200, Log(userId, username, |logs|, Project(logs)))
  }

  /** The two handlers disagree on `count` whenever the limit cuts the window: the in-memory one
      reports the size of the window, the SQL one the length of the log, whatever rows it got. */
  lemma CountSemanticsDiffer(userId: string, username: string, rows: seq<Exercise>, sqlRows: seq<Exercise>,
                             from: DateParam, to: DateParam, n: nat)
    requires n < |MemoryLog.Windowed(rows, from, to)|
    ensures var m := MemoryLog.LogBody(userId, username, rows, from, to, Limit(Int(n)));
      m.count == |MemoryLog.Windowed(rows, from, to)| && |m.log| == n && m.count > |m.log|
    ensures var s := LogsOnRows(userId, username, DbOk(sqlRows)).body;
      s.count == |s.log|
  {
    MemoryLog.CountIsBeforeCap(userId, username, rows, from, to, Limit(Int(n)), NoLimit);
  }
}
