/**
 * The user endpoints (api/handler/user.go): each checks its input, calls the
 * repository and maps the outcome to an HTTP status. `isUuid` stands for
 * the UUID syntax check; repository calls the user repository model does not
 * cover are inputs (their results, or a function of the id they are given).
 */
module UserHandler {
  import opened Wrappers
  import opened Db
  import opened Text
  import UserStore

  datatype Body<T> = Value(value: T) | Message(text: string) | Empty

  /** What `handlerResponse` writes: the status, a description and the data. */
  datatype Response<T> = Response(status: int, description: string, data: Body<T>)

  // ---------------------------------------------------------------------------
  // GetByIdUser, UpdateUser, DeleteUser
  // ---------------------------------------------------------------------------

  /** GetByIdUser: `lookup` is the repository's GetByID on an id. */
  function GetByIdUser<T>(id: string, isUuid: string -> bool, lookup: string -> Result<T, string>): (r: Response<T>)
    ensures !isUuid(id) <==> r == Response(400, "is valid uuid", Message("invalid id"))
    ensures r.status == 200 <==> isUuid(id) && lookup(id).Success?
    ensures r.status == 200 ==> r.data == Value(lookup(id).value)
    ensures isUuid(id) && lookup(id).Failure? ==> r == Response(500, "storage.User.getById", Message(lookup(id).error))
  {
    if !isUuid(id) then Response(400, "is valid uuid", Message("invalid id"))
    else match lookup(id)
      case Failure(e) => Response(500, "storage.User.getById", Message(e))
      case Success(user) => Response(200, "get by id User resposne", Value(user))
  }

  /**
   * UpdateUser: `body` is the parsed request, `update` the number of rows the
   * UPDATE affected (or its error), `reread` the GetByID that follows it.
   */
  function UpdateUser<B, T>(id: string, isUuid: string -> bool, body: Result<B, string>,
                            update: B -> Result<int, string>, reread: string -> Result<T, string>): (r: Response<T>)
    ensures !isUuid(id) <==> r == Response(400, "is valid uuid", Message("invalid id"))
    ensures r.status == 202 <==>
      isUuid(id) && body.Success? && update(body.value).Success? && update(body.value).value > 0 && reread(id).Success?
    ensures r.status == 202 ==> r.data == Value(reread(id).value)
    ensures r.status in {202, 400, 500}
  {
    if !isUuid(id) then Response(400, "is valid uuid", Message("invalid id"))
    else if body.Failure? then Response(400, "error User should bind json", Message(body.error))
    else match update(body.value)
      case Failure(e) => Response(500, "storage.User.update", Message(e))
      case Success(rowsAffected) =>
        if rowsAffected <= 0 then Response(400, "storage.User.update", Message("now rows affected"))
        else match reread(id)
          case Failure(e) => Response(500, "storage.User.getById", Message(e))
          case Success(user) => Response(202, "create User resposne", Value(user))
  }

  /** DeleteUser: `delete` is the repository's Delete on an id (None: no error). */
  function DeleteUser(id: string, isUuid: string -> bool, delete: string -> Option<string>): (r: Response<()>)
    ensures !isUuid(id) <==> r == Response(400, "is valid uuid", Message("invalid id"))
    ensures r.status == 204 <==> isUuid(id) && delete(id).None?
    ensures r.status == 204 ==> r.data == Empty
    ensures isUuid(id) && delete(id).Some? ==> r == Response(500, "storage.User.delete", Message(delete(id).value))
  {
    if !isUuid(id) then Response(400, "is valid uuid", Message("invalid id"))
    else match delete(id)
      case Some(e) => Response(500, "storage.User.delete", Message(e))
      case None => Response(204, "create User resposne", Empty)
  }

  /** An id that is not a UUID is refused before the repository is called: the outcome does not depend on it. */
  lemma NonUuidNoStorage<B, T>(id: string, isUuid: string -> bool, body: Result<B, string>,
                               lookup1: string -> Result<T, string>, lookup2: string -> Result<T, string>,
                               update1: B -> Result<int, string>, update2: B -> Result<int, string>,
                               delete1: string -> Option<string>, delete2: string -> Option<string>)
    requires !isUuid(id)
    ensures GetByIdUser(id, isUuid, lookup1) == GetByIdUser(id, isUuid, lookup2)
    ensures UpdateUser(id, isUuid, body, update1, lookup1) == UpdateUser(id, isUuid, body, update2, lookup2)
    ensures DeleteUser(id, isUuid, delete1) == DeleteUser(id, isUuid, delete2)
  {
  }

  /** An update that touched no row is a 400, and the user is not read back. */
  lemma NoRowsAffectedNoReread<B, T>(id: string, isUuid: string -> bool, b: B, update: B -> Result<int, string>,
                                     reread1: string -> Result<T, string>, reread2: string -> Result<T, string>)
    requires isUuid(id) && update(b).Success? && update(b).value <= 0
    ensures UpdateUser(id, isUuid, Success(b), update, reread1) == Response(400, "storage.User.update", Message("now rows affected"))
    ensures UpdateUser(id, isUuid, Success(b), update, reread1) == UpdateUser(id, isUuid, Success(b), update, reread2)
  {
  }

  // ---------------------------------------------------------------------------
  // GetUserActivityCounts
  // ---------------------------------------------------------------------------

  /** GetUserActivityCounts: a present, UUID-shaped user_id, then the repository query. */
  function GetUserActivityCounts(db: Snapshot, userId: string, isUuid: string -> bool, fault: Option<string>)
    : (r: Response<UserStore.ActivityCounts>)
    ensures userId == "" ==> r == Response(400, "get list GetUserActivityCounts by userID", Message("user_id is required"))
    ensures userId != "" && !isUuid(userId) ==>
      r == Response(400, "invalid user ID", Message("user ID must be a valid UUID"))
    ensures r.status == 200 <==> userId != "" && isUuid(userId) && UserStore.GetUserActivityCounts(db, userId, fault).Success?
    ensures r.status == 200 ==> r.data == Value(UserStore.GetUserActivityCounts(db, userId, fault).value)
    ensures r.status in {200, 400, 500}
  {
    if userId == "" then Response(400, "get list GetUserActivityCounts by userID", Message("user_id is required"))
    else if !isUuid(userId) then Response(400, "invalid user ID", Message("user ID must be a valid UUID"))
    else match UserStore.GetUserActivityCounts(db, userId, fault)
      case Failure(e) => Response(500, "failed to get user activity counts", Message(e))
      case Success(counts) => Response(200, "user activity counts retrieved successfully", Value(counts))
  }

  /**
   * A valid user id with at most one like row and one download row is
   * answered 200 with the number of their publications; two like rows make
   * the scalar sub-select fail, which is a 500.
   */
  lemma ActivityCountsStatus(db: Snapshot, userId: string, isUuid: string -> bool)
    requires userId != "" && isUuid(userId)
    ensures var r := GetUserActivityCounts(db, userId, isUuid, None);
      && (|CountsBy(db.likes, userId)| <= 1 && |CountsBy(db.downloads, userId)| <= 1 ==>
            r.status == 200 && r.data.value.publicationCount == |UserStore.PublicationsOf(db.publications, userId)|)
      && (|CountsBy(db.likes, userId)| > 1 ==>
            r == Response(500, "failed to get user activity counts", Message("failed to get user activity counts: " + TooManyRows)))
  {
  }

  // ---------------------------------------------------------------------------
  // GetTopContributors, GetUserScores
  // ---------------------------------------------------------------------------

  /** GetTopContributors: no input; the repository's list, or a 500 with its error. */
  method GetTopContributors(db: Snapshot, answer: seq<UserStore.ContributorCount>, fault: Fault)
    returns (r: Response<seq<UserStore.ContributorCount>>)
    requires UserStore.IsContributorsAnswer(db, answer)
    ensures r.status == 200 <==> !fault.QueryFails? && !(fault.ScanFails? && fault.row < |answer|)
    ensures r.status == 200 ==> r.data.Value? && r.data.value <= answer
    ensures r.status == 200 && !fault.StreamFails? ==> UserStore.IsContributorsAnswer(db, r.data.value)
    ensures r.status != 200 ==> r == Response(500, "storage.User.get_top_contributors", Message(fault.msg))
  {
    var contributors := UserStore.GetTopContributors(db, answer, fault);
    if contributors.Failure? {
      return Response(500, "storage.User.get_top_contributors", Message(contributors.error));
    }
    return Response(200, "top contributors response", Value(contributors.value));
  }

  /** GetUserScores: no input; the repository's list, or a 500 with its error. */
  method GetUserScores(db: Snapshot, round: real -> int, answer: seq<UserStore.UserScore>, fault: Fault)
    returns (r: Response<seq<UserStore.UserScore>>)
    requires UserStore.IsScoresAnswer(db, round, answer)
    ensures r.status == 200 <==> !fault.QueryFails? && !(fault.ScanFails? && fault.row < |answer|)
    ensures r.status == 200 ==> r.data.Value? && r.data.value <= answer
    ensures r.status == 200 && !fault.StreamFails? ==> UserStore.IsScoresAnswer(db, round, r.data.value)
    ensures r.status != 200 ==>
      r == Response(500, "failed to get user scores",
                    Message(if fault.QueryFails? then "failed to get user scores: " + fault.msg else fault.msg))
  {
    var scores := UserStore.GetUserScores(db, round, answer, fault);
    if scores.Failure? {
      return Response(500, "failed to get user scores", Message(scores.error));
    }
    return Response(200, "user scores retrieved successfully", Value(scores.value));
  }

  // ---------------------------------------------------------------------------
  // GetUserRank
  // ---------------------------------------------------------------------------

  /** GetUserRank: no check of user_id at all; an error mentioning "user not found" is a 404, any other a 500. */
  function GetUserRank(db: Snapshot, userId: string, fault: Option<string>): (r: Response<UserStore.UserRank>)
    ensures r.status == 200 <==> fault.None?
    ensures r.status == 200 ==> r.data == Value(UserStore.GetUserRank(db, userId, None).value)
    ensures fault.Some? ==> r.data == Message("failed to get user rank: " + fault.value)
    ensures fault.Some? ==> (r.status == 404 <==> Contains("failed to get user rank: " + fault.value, "user not found"))
    ensures r.status in {200, 404, 500}
  {
    match UserStore.GetUserRank(db, userId, fault)
    case Failure(e) =>
      if Contains(e, "user not found") then Response(404, "user not found", Message(e))
      else Response(500, "failed to get user rank", Message(e))
    case Success(rank) => Response(200, "user rank retrieved successfully", Value(rank))
  }

  lemma ContainsInSuffix(prefix: string, s: string, t: string)
    requires Contains(s, t)
    ensures Contains(prefix + s, t)
  {
    var i :| 0 <= i <= |s| - |t| && MatchAt(s, t, i);
    assert (prefix + s)[|prefix| + i..|prefix| + i + |t|] == s[i..i + |t|];
    assert MatchAt(prefix + s, t, |prefix| + i);
  }

  /**
   * The repository never reports "user not found" itself (the rank query
   * always yields its row), so a 404 comes only from a failed call whose
   * message happens to mention it.
   */
  lemma RankNotFoundOnlyFromFault(db: Snapshot, userId: string, m: string)
    requires Contains(m, "user not found")
    ensures GetUserRank(db, userId, Some(m)).status == 404
  {
    ContainsInSuffix("failed to get user rank: ", m, "user not found");
  }

  /** An id no user has is answered 200, ranked as a score of 0. */
  lemma UnknownUserRanked(db: Snapshot, userId: string)
    requires Valid(db) && !HasUser(db.users, userId)
    ensures GetUserRank(db, userId, None)
      == Response(200, "user rank retrieved successfully",
                  Value(UserStore.UserRank(|db.users|, 1 + UserStore.AboveCount(db, db.users, 0.0))))
  {
    UserStore.UnknownUserRank(db, userId);
  }

  // ---------------------------------------------------------------------------
  // GetUserStatistics
  // ---------------------------------------------------------------------------

  /**
   * GetUserStatistics: only an empty user_id is refused (400); every
   * repository error, an unknown user included, is a 500.
   */
  method GetUserStatistics(db: Snapshot, userId: string, statsFault: Option<string>, rankFault: Option<string>)
    returns (r: Response<UserStore.UserStatistics>)
    ensures userId == "" <==> r == Response(400, "user_id is required", Message("please provide a user_id"))
    ensures r.status == 200 <==>
      userId != "" && statsFault.None? && HasUser(db.users, userId) && UserStore.IntegralSums(db, userId) && rankFault.None?
    ensures r.status == 200 ==>
      && r.data.Value? && r.data.value.userId == userId
      && r.data.value.rank == UserStore.GetUserRank(db, userId, None).value.userRank
    ensures r.status == 200 && Valid(db) ==>
      var rows := UserStore.UserRows(db, userId);
      && r.data.value.publicationsCount == UserStore.CountPub(rows)
      && r.data.value.likesCount as real == UserStore.SumLikes(rows)
      && r.data.value.downloadsCount as real == UserStore.SumDownloads(rows)
    ensures userId != "" && statsFault.Some? ==>
      r == Response(500, "failed to get user statistics", Message("failed to get user statistics: " + statsFault.value))
    ensures userId != "" && statsFault.None? && !HasUser(db.users, userId) ==>
      r == Response(500, "failed to get user statistics", Message("failed to get user statistics: " + ErrorText(NoRows)))
    ensures userId != "" && statsFault.None? && HasUser(db.users, userId) && !UserStore.IntegralSums(db, userId) ==>
      r == Response(500, "failed to get user statistics",
                    Message("failed to get user statistics: " + UserStore.NonIntegralScan))
    ensures userId != "" && statsFault.None? && HasUser(db.users, userId) && UserStore.IntegralSums(db, userId)
            && rankFault.Some? ==>
      r == Response(500, "failed to get user statistics",
                    Message("failed to calculate user rank: " + ("failed to get user rank: " + rankFault.value)))
    ensures r.status in {200, 400, 500}
  {
    if userId == "" {
      return Response(400, "user_id is required", Message("please provide a user_id"));
    }
    var stats := UserStore.GetUserStatistics(db, userId, statsFault, rankFault);
    if stats.Failure? {
      return Response(500, "failed to get user statistics", Message(stats.error));
    }
    return Response(200, "user statistics retrieved successfully", Value(stats.value));
  }
}
