/**
 * A point-in-time snapshot of the tables the queries read, the ways a database
 * call can fail, and the `for rows.Next()` scanning loop every list query shares.
 */
module Db {
  import opened Wrappers

  type Id = string

  /** A row of `users`; the scoring queries read only the key and the name. */
  datatype User = User(id: Id, name: string)

  /** A row of `publications`. */
  datatype Publication = Publication(
    id: Id, courseId: Id, title: string, description: string, tags: string,
    imageId: Id, fileId: Id, contributorId: Id, status: string)

  /** A row of `likes` or of `downloads`: an accumulated `count` that a user put on a publication. */
  datatype Counter = Counter(id: Id, publicationId: Id, contributorId: Id, count: real)

  datatype Snapshot = Snapshot(
    users: seq<User>, publications: seq<Publication>, likes: seq<Counter>, downloads: seq<Counter>)

  predicate DistinctUserIds(users: seq<User>) {
    forall i, j :: 0 <= i < j < |users| ==> users[i].id != users[j].id
  }

  predicate DistinctPublicationIds(pubs: seq<Publication>) {
    forall i, j :: 0 <= i < j < |pubs| ==> pubs[i].id != pubs[j].id
  }

  /** The primary keys the schema guarantees. */
  predicate Valid(db: Snapshot) {
    DistinctUserIds(db.users) && DistinctPublicationIds(db.publications)
  }

  predicate HasUser(users: seq<User>, uid: Id) {
    exists k :: 0 <= k < |users| && users[k].id == uid
  }

  /** Why a `QueryRow(...).Scan(...)` failed: no row came back, or the call itself failed. */
  datatype DbError = NoRows | Failed(msg: string)

  function ErrorText(e: DbError): string {
    match e
    case NoRows => "no rows in result set"
    case Failed(m) => m
  }

  /**
   * `QueryRow(...).Scan(...)`: the first row the statement yields, no-rows when
   * it yields none; a failed call (`fault`) or a statement that fails while it
   * is evaluated (`answer` is a Failure) reports that failure instead.
   */
  function QueryRow<T>(answer: Result<seq<T>, string>, fault: Option<string>): (r: Result<T, DbError>)
    ensures r.Success? <==> fault.None? && answer.Success? && answer.value != []
    ensures r.Success? ==> r.value == answer.value[0]
    ensures r == Failure(NoRows) <==> fault.None? && answer == Success([])
  {
    if fault.Some? then Failure(Failed(fault.value))
    else match answer
      case Failure(m) => Failure(Failed(m))
      case Success(rows) => if rows == [] then Failure(NoRows) else Success(rows[0])
  }

  /**
   * Where a `Query` followed by a scanning loop can fail: sending the query,
   * the scan of one row, or the server while the rows are being read. The
   * last one makes `rows.Next()` report that the rows ran out; only
   * `rows.Err()` would tell, and the loops never call it.
   */
  datatype Fault = NoFault | QueryFails(msg: string) | ScanFails(row: nat, msg: string) | StreamFails(row: nat, msg: string)

  /**
   * The `for rows.Next() { Scan; append }` loop: every row in order, or the
   * first scan error and nothing collected so far. A failure while reading
   * ends the loop early and returns the rows read so far as a success.
   */
  method ScanRows<T>(rows: seq<T>, fault: Fault) returns (r: Result<seq<T>, string>)
    requires !fault.QueryFails?
    ensures r.Success? <==> !(fault.ScanFails? && fault.row < |rows|)
    ensures r.Success? ==> r.value <= rows
    ensures r.Success? && !fault.StreamFails? ==> r.value == rows
    ensures r.Success? && fault.StreamFails? ==> |r.value| == if fault.row < |rows| then fault.row else |rows|
    ensures r.Failure? ==> r.error == fault.msg
  {
    var acc: seq<T> := [];
    var i := 0;
    while i < |rows|
      invariant 0 <= i <= |rows|
      invariant acc == rows[..i]
      invariant fault.ScanFails? || fault.StreamFails? ==> fault.row >= i
    {
      if fault.StreamFails? && fault.row == i {
        return Success(acc);
      }
      if fault.ScanFails? && fault.row == i {
        return Failure(fault.msg);
      }
      acc := acc + [rows[i]];
      i := i + 1;
    }
    assert rows[..i] == rows;
    return Success(acc);
  }

  // Reading `count` columns.

  function Sum(vals: seq<real>): real {
    if vals == [] then 0.0 else vals[0] + Sum(vals[1..])
  }

  /** The `count` of every like or download row on publication `pid`. */
  function CountsOn(rows: seq<Counter>, pid: Id): seq<real> {
    if rows == [] then []
    else (if rows[0].publicationId == pid then [rows[0].count] else []) + CountsOn(rows[1..], pid)
  }

  /** The `count` of every row the user made (`WHERE contributor_id = uid`). */
  function CountsBy(rows: seq<Counter>, uid: Id): seq<real> {
    if rows == [] then []
    else (if rows[0].contributorId == uid then [rows[0].count] else []) + CountsBy(rows[1..], uid)
  }

  /** The database error for a scalar sub-select over several rows, as pgx words a server error. */
  const TooManyRows := "ERROR: more than one row returned by a subquery used as an expression (SQLSTATE 21000)"

  /**
   * A scalar sub-select `(SELECT count FROM ... WHERE ...)` read into a
   * nullable float: no row is NULL and reads as 0, one row gives its value,
   * more than one row is an error. Where it succeeds it agrees with SUM.
   */
  function ScalarSubquery(vals: seq<real>): (r: Result<real, string>)
    ensures r.Success? <==> |vals| <= 1
    ensures r.Success? ==> r.value == Sum(vals)
    ensures r.Failure? ==> r.error == TooManyRows
  {
    if |vals| == 0 then Success(0.0)
    else if |vals| == 1 then Success(vals[0])
    else Failure(TooManyRows)
  }
}
