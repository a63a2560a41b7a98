/**
 The location store: one `users` table keyed by user id, modelled as a map
 from user id to row. The connection, commit and close mechanics are not
 modelled; the clock is a parameter. Storage errors are not absorbed: a
 missing table or a user id SQLite cannot bind is returned as an error.
 */
module LocationStore {
  import opened Wrappers

  /** A row of the `users` table. `city` and `address` are nullable columns. */
  datatype Row = Row(lat: real, lon: real, city: Option<string>, address: Option<string>, updatedAt: int)

  /** The database file: either the `users` table has not been created, or it holds these rows. */
  datatype Database = NoTable | Table(rows: map<int, Row>)

  /** What a lookup returns: `(lat, lon, city, address)`. */
  datatype Location = Location(lat: real, lon: real, city: string, address: string)

  /** Errors that propagate to the caller. */
  datatype StoreError =
    | NoSuchTable       // the statement names a table that does not exist
    | IntegerOverflow   // the user id does not fit SQLite's signed 64-bit INTEGER

  /** Whether an integer can be bound as an SQLite INTEGER. */
  predicate IsInt64(n: int) {
    -0x8000_0000_0000_0000 <= n < 0x8000_0000_0000_0000
  }

  /** Creates the table if it does not exist; an existing table and its rows are left alone. */
  function InitDb(db: Database): (db': Database)
    ensures db'.Table?
    ensures db.Table? ==> db' == db
    ensures db.NoTable? ==> db'.rows == map[]
  {
    if db.Table? then db else Table(map[])
  }

  /**
   Inserts or fully replaces the row of `userId`, stamping it with `now`.
   Only that user's row changes, and there is still at most one row per user.
   */
  function Save(db: Database, userId: int, lat: real, lon: real, city: string, address: string, now: int)
    : (r: Result<Database, StoreError>)
    ensures db.NoTable? ==> r == Failure(NoSuchTable)
    ensures db.Table? && !IsInt64(userId) ==> r == Failure(IntegerOverflow)
    ensures db.Table? && IsInt64(userId) ==> r.Success? && r.value.Table?
    ensures r.Success? ==> r.value.rows.Keys == db.rows.Keys + {userId}
    ensures r.Success? ==> r.value.rows[userId] == Row(lat, lon, Some(city), Some(address), now)
    ensures r.Success? ==> forall u :: u in db.rows && u != userId ==> r.value.rows[u] == db.rows[u]
  {
    if db.NoTable? then Failure(NoSuchTable)
    else if !IsInt64(userId) then Failure(IntegerOverflow)
    else Success(Table(db.rows[userId := Row(lat, lon, Some(city), Some(address), now)]))
  }

  /** The stored location of `userId`, with a null city or address read as the empty string. */
  function Get(db: Database, userId: int): (r: Result<Option<Location>, StoreError>)
    ensures db.NoTable? ==> r == Failure(NoSuchTable)
    ensures db.Table? && !IsInt64(userId) ==> r == Failure(IntegerOverflow)
    ensures db.Table? && IsInt64(userId) && userId !in db.rows ==> r == Success(None)
    ensures db.Table? && IsInt64(userId) && userId in db.rows ==> r.Success? && r.value.Some?
    ensures r.Success? && r.value.Some? ==>
      && userId in db.rows
      && r.value.value.lat == db.rows[userId].lat
      && r.value.value.lon == db.rows[userId].lon
      && r.value.value.city == db.rows[userId].city.GetOr("")
      && r.value.value.address == db.rows[userId].address.GetOr("")
  {
    if db.NoTable? then Failure(NoSuchTable)
    else if !IsInt64(userId) then Failure(IntegerOverflow)
    else if userId in db.rows then
      var row := db.rows[userId];
      Success(Some(Location(row.lat, row.lon, row.city.GetOr(""), row.address.GetOr(""))))
    else Success(None)
  }

  /** `InitDb` is idempotent. */
  lemma InitDbIdempotent(db: Database)
    ensures InitDb(InitDb(db)) == InitDb(db)
  {
  }

  /** On a fresh store every lookup finds nothing, and it is not an error. */
  lemma GetOnFreshStore(userId: int)
    requires IsInt64(userId)
    ensures Get(InitDb(NoTable), userId) == Success(None)
  {
  }

  /** Reading back what was saved returns exactly the saved tuple. */
  lemma SaveThenGet(db: Database, userId: int, lat: real, lon: real, city: string, address: string, now: int)
    requires Save(db, userId, lat, lon, city, address, now).Success?
    ensures Get(Save(db, userId, lat, lon, city, address, now).value, userId)
         == Success(Some(Location(lat, lon, city, address)))
  {
  }

  /** A second save for the same user fully replaces the first: the store is as if only the second happened. */
  lemma SaveReplaces(db: Database, userId: int,
                     lat1: real, lon1: real, city1: string, address1: string, now1: int,
                     lat2: real, lon2: real, city2: string, address2: string, now2: int)
    requires Save(db, userId, lat1, lon1, city1, address1, now1).Success?
    ensures Save(Save(db, userId, lat1, lon1, city1, address1, now1).value, userId, lat2, lon2, city2, address2, now2)
         == Save(db, userId, lat2, lon2, city2, address2, now2)
  {
    var m1 := Save(db, userId, lat1, lon1, city1, address1, now1).value.rows;
    var m2 := Save(db, userId, lat2, lon2, city2, address2, now2).value.rows;
    var m12 := Save(Table(m1), userId, lat2, lon2, city2, address2, now2).value.rows;
    assert m12 == m2;
  }

  /** A save changes what no other user reads. */
  lemma SaveLeavesOthersAlone(db: Database, userId: int, lat: real, lon: real, city: string, address: string, now: int,
                              other: int)
    requires Save(db, userId, lat, lon, city, address, now).Success?
    requires other != userId
    ensures Get(Save(db, userId, lat, lon, city, address, now).value, other) == Get(db, other)
  {
  }

  /** A save adds a row exactly when the user had none. */
  lemma SaveRowCount(db: Database, userId: int, lat: real, lon: real, city: string, address: string, now: int)
    requires Save(db, userId, lat, lon, city, address, now).Success?
    ensures |Save(db, userId, lat, lon, city, address, now).value.rows| == |db.rows| + (if userId in db.rows then 0 else 1)
  {
    var rows' := Save(db, userId, lat, lon, city, address, now).value.rows;
    if userId in db.rows {
      assert rows'.Keys == db.rows.Keys;
    } else {
      assert rows'.Keys == db.rows.Keys + {userId};
    }
  }

  /** The arguments of one call to `Save`. */
  datatype SaveCall = SaveCall(userId: int, lat: real, lon: real, city: string, address: string, now: int)

  /** Runs saves in order; the first error stops the run and is returned. */
  function Replay(db: Database, calls: seq<SaveCall>): (r: Result<Database, StoreError>)
    decreases |calls|
  {
    if calls == [] then Success(db)
    else
      var c := calls[|calls| - 1];
      match Replay(db, calls[..|calls| - 1])
      case Failure(e) => Failure(e)
      case Success(d) => Save(d, c.userId, c.lat, c.lon, c.city, c.address, c.now)
  }

  /** The last call in `calls` that saved `userId`, if any. */
  function LastSaveFor(calls: seq<SaveCall>, userId: int): (r: Option<SaveCall>)
    ensures r.Some? ==> r.value in calls && r.value.userId == userId
    decreases |calls|
  {
    if calls == [] then None
    else if calls[|calls| - 1].userId == userId then Some(calls[|calls| - 1])
    else LastSaveFor(calls[..|calls| - 1], userId)
  }

  /**
   After any run of saves that succeeds, a lookup sees the most recent save for
   that user, or, if the run never saved that user, what it saw before the run.
   */
  lemma {:induction false} ReplayGet(db: Database, calls: seq<SaveCall>, userId: int)
    requires Replay(db, calls).Success?
    ensures Get(Replay(db, calls).value, userId) ==
      match LastSaveFor(calls, userId)
      case Some(c) => Success(Some(Location(c.lat, c.lon, c.city, c.address)))
      case None => Get(db, userId)
    decreases |calls|
  {
    if calls != [] {
      var c := calls[|calls| - 1];
      var before := calls[..|calls| - 1];
      ReplayGet(db, before, userId);
      var d := Replay(db, before).value;
      if c.userId == userId {
        SaveThenGet(d, userId, c.lat, c.lon, c.city, c.address, c.now);
      } else {
        SaveLeavesOthersAlone(d, c.userId, c.lat, c.lon, c.city, c.address, c.now, userId);
      }
    }
  }
}
