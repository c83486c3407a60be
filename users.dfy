/** `POST /api/users`: the callback of `INSERT INTO users (username) VALUES (?)`.
    The same branches appear in all three route files. */
module Users {
  import opened JsValues
  import opened Records

  const InsertUser := "INSERT INTO users (username) VALUES (?)"
  const UniqueMarker := "UNIQUE"
  const NotUnique := "Username must be unique"

  /** The response once the insert has called back with `err` (its message, if any) and,
      on success, the row id the store assigned. */
  function OnUserInsert(username: string, err: Option<string>, newId: int): (r: Response)
    ensures err.None? ==> r == Response(200, UserCreated(username, newId))
    ensures err.Some? ==> r.body.Error?
    ensures r.status == 400 <==> err.Some? && exists i :: OccursAt(err.value, UniqueMarker, i)
    ensures r.status == 400 ==> r.body == Error(NotUnique)
    ensures r.status == 500 <==> err.Some? && !exists i :: OccursAt(err.value, UniqueMarker, i)
    ensures r.status == 500 ==> r.body == Error(DatabaseError)
  {
    match err
    case None => Response(200, UserCreated(username, newId))
    case Some(message) =>
      IncludesIff(message, UniqueMarker);
      if Includes(message, UniqueMarker) then Response(400, Error(NotUnique))
      else Response(500, Error(DatabaseError))
  }

  /** The message SQLite gives when the `UNIQUE` constraint on `users.username` rejects an insert. */
  const ConstraintPrefix := "SQLITE_CONSTRAINT: "
  const DuplicateUsernameMessage := ConstraintPrefix + UniqueMarker + " constraint failed: users.username"

  /** Registering a taken username answers 400, as the test suite expects. */
  lemma DuplicateUsernameIsRejected(username: string, newId: int)
    ensures OnUserInsert(username, Some(DuplicateUsernameMessage), newId) == Response(400, Error(NotUnique))
  {
    var k := |ConstraintPrefix|;
    assert DuplicateUsernameMessage[k..k + |UniqueMarker|] == UniqueMarker;
    assert OccursAt(DuplicateUsernameMessage, UniqueMarker, k);
  }
}
