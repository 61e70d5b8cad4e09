/**
 * The scoring and ranking queries of the user repository
 * (storage/postgres/user.go), evaluated over a table snapshot exactly as the
 * SQL text states them, including the fan-out of joining likes and
 * downloads on the same publication.
 */
module UserStore {
  import opened Wrappers
  import opened Db
  import Sorting

  // ---------------------------------------------------------------------------
  // users u LEFT JOIN publications p LEFT JOIN likes l LEFT JOIN downloads d
  // ---------------------------------------------------------------------------

  /** One joined row, keeping the columns the aggregates read; None is SQL NULL. */
  datatype JoinedRow = JoinedRow(pub: Option<Id>, like: Option<real>, download: Option<real>)

  /** `publications WHERE contributor_id = uid`, in table order. */
  function PublicationsOf(pubs: seq<Publication>, uid: Id): seq<Publication> {
    if pubs == [] then []
    else (if pubs[0].contributorId == uid then [pubs[0]] else []) + PublicationsOf(pubs[1..], uid)
  }

  function Max1(n: nat): nat {
    if n == 0 then 1 else n
  }

  /** The right side of a LEFT JOIN: every match, or one NULL row when nothing matches. */
  function LeftSide(vals: seq<real>): (r: seq<Option<real>>)
    ensures |r| == Max1(|vals|)
  {
    if vals == [] then [None] else Somes(vals)
  }

  function Somes(vals: seq<real>): (r: seq<Option<real>>)
    ensures |r| == |vals|
  {
    if vals == [] then [] else [Some(vals[0])] + Somes(vals[1..])
  }

  /** One like value joined with every download value. */
  function Fan(pid: Id, l: Option<real>, ds: seq<Option<real>>): seq<JoinedRow> {
    if ds == [] then [] else [JoinedRow(Some(pid), l, ds[0])] + Fan(pid, l, ds[1..])
  }

  /** The product of the like side and the download side of one publication. */
  function Cross(pid: Id, ls: seq<Option<real>>, ds: seq<Option<real>>): seq<JoinedRow> {
    if ls == [] then [] else Fan(pid, ls[0], ds) + Cross(pid, ls[1..], ds)
  }

  function PublicationRows(db: Snapshot, p: Publication): seq<JoinedRow> {
    Cross(p.id, LeftSide(CountsOn(db.likes, p.id)), LeftSide(CountsOn(db.downloads, p.id)))
  }

  function RowsOf(db: Snapshot, ps: seq<Publication>): seq<JoinedRow> {
    if ps == [] then [] else PublicationRows(db, ps[0]) + RowsOf(db, ps[1..])
  }

  /** The joined rows of one user: a single all-NULL row when the user has no publication. */
  function UserRows(db: Snapshot, uid: Id): seq<JoinedRow> {
    var ps := PublicationsOf(db.publications, uid);
    if ps == [] then [JoinedRow(None, None, None)] else RowsOf(db, ps)
  }

  // ---------------------------------------------------------------------------
  // Aggregates: COUNT(p.id), COALESCE(SUM(l.count), 0), COALESCE(SUM(d.count), 0)
  // ---------------------------------------------------------------------------

  /** SUM over a nullable column with NULLs skipped; COALESCE makes an all-NULL sum 0. */
  function SumOpt(vals: seq<Option<real>>): real {
    if vals == [] then 0.0 else vals[0].GetOr(0.0) + SumOpt(vals[1..])
  }

  function CountPub(rows: seq<JoinedRow>): nat {
    if rows == [] then 0 else (if rows[0].pub.Some? then 1 else 0) + CountPub(rows[1..])
  }

  function SumLikes(rows: seq<JoinedRow>): real {
    if rows == [] then 0.0 else rows[0].like.GetOr(0.0) + SumLikes(rows[1..])
  }

  function SumDownloads(rows: seq<JoinedRow>): real {
    if rows == [] then 0.0 else rows[0].download.GetOr(0.0) + SumDownloads(rows[1..])
  }

  /** `CASE WHEN COUNT(p.id) = 0 THEN 1 ELSE COUNT(p.id) END`. */
  function Denominator(rows: seq<JoinedRow>): nat {
    Max1(CountPub(rows))
  }

  /** The unrounded score: `(likes + downloads) / denominator` over the joined rows. */
  function Quotient(rows: seq<JoinedRow>): real {
    (SumLikes(rows) + SumDownloads(rows)) / Denominator(rows) as real
  }

  lemma QuotientOf(rows: seq<JoinedRow>, total: real, d: nat)
    requires SumLikes(rows) + SumDownloads(rows) == total && Denominator(rows) == d
    ensures Quotient(rows) == total / d as real
  {
  }

  lemma {:induction false} AggregatesAppend(a: seq<JoinedRow>, b: seq<JoinedRow>)
    ensures CountPub(a + b) == CountPub(a) + CountPub(b)
    ensures SumLikes(a + b) == SumLikes(a) + SumLikes(b)
    ensures SumDownloads(a + b) == SumDownloads(a) + SumDownloads(b)
  {
    if a == [] {
      assert a + b == b;
    } else {
      assert (a + b)[1..] == a[1..] + b;
      AggregatesAppend(a[1..], b);
    }
  }

  /** `k` copies of `x` added up: how often a joined value is summed. */
  function Times(k: nat, x: real): real {
    if k == 0 then 0.0 else x + Times(k - 1, x)
  }

  lemma {:induction false} TimesIsProduct(k: nat, x: real)
    ensures Times(k, x) == k as real * x
  {
    if k > 0 {
      TimesIsProduct(k - 1, x);
      assert k as real * x == x + (k - 1) as real * x;
    }
  }

  lemma {:induction false} TimesDistributes(k: nat, a: real, b: real)
    ensures Times(k, a + b) == Times(k, a) + Times(k, b)
  {
    if k > 0 {
      TimesDistributes(k - 1, a, b);
    }
  }

  lemma {:induction false} FanAggregates(pid: Id, l: Option<real>, ds: seq<Option<real>>)
    ensures CountPub(Fan(pid, l, ds)) == |ds|
    ensures SumLikes(Fan(pid, l, ds)) == Times(|ds|, l.GetOr(0.0))
    ensures SumDownloads(Fan(pid, l, ds)) == SumOpt(ds)
  {
    if ds != [] {
      FanAggregates(pid, l, ds[1..]);
    }
  }

  lemma {:induction false} CrossCount(pid: Id, ls: seq<Option<real>>, ds: seq<Option<real>>)
    ensures CountPub(Cross(pid, ls, ds)) == |ls| * |ds|
  {
    if ls != [] {
      var f, c := Fan(pid, ls[0], ds), Cross(pid, ls[1..], ds);
      FanAggregates(pid, ls[0], ds);
      CrossCount(pid, ls[1..], ds);
      AggregatesAppend(f, c);
      assert CountPub(f + c) == |ds| + (|ls| - 1) * |ds|;
    }
  }

  lemma {:induction false} CrossLikes(pid: Id, ls: seq<Option<real>>, ds: seq<Option<real>>)
    ensures SumLikes(Cross(pid, ls, ds)) == Times(|ds|, SumOpt(ls))
  {
    if ls != [] {
      var f, c := Fan(pid, ls[0], ds), Cross(pid, ls[1..], ds);
      FanAggregates(pid, ls[0], ds);
      CrossLikes(pid, ls[1..], ds);
      AggregatesAppend(f, c);
      TimesDistributes(|ds|, ls[0].GetOr(0.0), SumOpt(ls[1..]));
    } else {
      TimesZero(|ds|);
    }
  }

  lemma {:induction false} TimesZero(k: nat)
    ensures Times(k, 0.0) == 0.0
  {
    if k > 0 {
      TimesZero(k - 1);
    }
  }

  lemma {:induction false} CrossDownloads(pid: Id, ls: seq<Option<real>>, ds: seq<Option<real>>)
    ensures SumDownloads(Cross(pid, ls, ds)) == Times(|ls|, SumOpt(ds))
  {
    if ls != [] {
      var f, c := Fan(pid, ls[0], ds), Cross(pid, ls[1..], ds);
      FanAggregates(pid, ls[0], ds);
      CrossDownloads(pid, ls[1..], ds);
      AggregatesAppend(f, c);
    }
  }

  lemma {:induction false} LeftSideSum(vals: seq<real>)
    ensures SumOpt(LeftSide(vals)) == Sum(vals)
  {
    if vals != [] {
      SomesSum(vals);
    }
  }

  lemma {:induction false} SomesSum(vals: seq<real>)
    ensures SumOpt(Somes(vals)) == Sum(vals)
  {
    if vals != [] {
      SomesSum(vals[1..]);
    }
  }

  /**
   * Join fan-out: a publication with L like rows and D download rows yields
   * max(1,L) * max(1,D) joined rows, so COUNT(p.id) counts joined rows, every
   * like is summed once per download row and every download once per like row.
   */
  lemma FanOut(db: Snapshot, p: Publication)
    ensures var ls, ds := CountsOn(db.likes, p.id), CountsOn(db.downloads, p.id);
      && CountPub(PublicationRows(db, p)) == Max1(|ls|) * Max1(|ds|)
      && SumLikes(PublicationRows(db, p)) == Times(Max1(|ds|), Sum(ls))
      && SumDownloads(PublicationRows(db, p)) == Times(Max1(|ls|), Sum(ds))
  {
    var ls, ds := CountsOn(db.likes, p.id), CountsOn(db.downloads, p.id);
    CrossCount(p.id, LeftSide(ls), LeftSide(ds));
    CrossLikes(p.id, LeftSide(ls), LeftSide(ds));
    CrossDownloads(p.id, LeftSide(ls), LeftSide(ds));
    LeftSideSum(ls);
    LeftSideSum(ds);
  }

  /** With at most one like row and one download row per publication there is no fan-out. */
  lemma {:induction false} NoFanOut(db: Snapshot, ps: seq<Publication>)
    requires forall k :: 0 <= k < |ps| ==>
      |CountsOn(db.likes, ps[k].id)| <= 1 && |CountsOn(db.downloads, ps[k].id)| <= 1
    ensures CountPub(RowsOf(db, ps)) == |ps|
    ensures SumLikes(RowsOf(db, ps)) == LikeTotal(db, ps)
    ensures SumDownloads(RowsOf(db, ps)) == DownloadTotal(db, ps)
  {
    if ps != [] {
      FanOut(db, ps[0]);
      NoFanOut(db, ps[1..]);
      AggregatesAppend(PublicationRows(db, ps[0]), RowsOf(db, ps[1..]));
    }
  }

  /** The likes the publications `ps` received, each like row counted once. */
  function LikeTotal(db: Snapshot, ps: seq<Publication>): real {
    if ps == [] then 0.0 else Sum(CountsOn(db.likes, ps[0].id)) + LikeTotal(db, ps[1..])
  }

  /** The downloads the publications `ps` received, each download row counted once. */
  function DownloadTotal(db: Snapshot, ps: seq<Publication>): real {
    if ps == [] then 0.0 else Sum(CountsOn(db.downloads, ps[0].id)) + DownloadTotal(db, ps[1..])
  }

  /**
   * Two likes (3 and 5) and two downloads (1 and 1) on a user's only
   * publication: the query divides 20 by 4 joined rows and yields 5, while
   * the received total per publication is 10.
   */
  lemma FanOutExample(db: Snapshot, uid: Id, p: Publication)
    requires PublicationsOf(db.publications, uid) == [p]
    requires CountsOn(db.likes, p.id) == [3.0, 5.0] && CountsOn(db.downloads, p.id) == [1.0, 1.0]
    ensures Quotient(UserRows(db, uid)) == 5.0
    ensures LikeTotal(db, [p]) + DownloadTotal(db, [p]) == 10.0
  {
    var rows := PublicationRows(db, p);
    FanOut(db, p);
    assert RowsOf(db, [p]) == rows + [];
    assert rows + [] == rows;
    assert UserRows(db, uid) == rows;
    assert Sum([3.0, 5.0]) == 8.0 && Sum([1.0, 1.0]) == 2.0;
    assert SumLikes(rows) == Times(2, 8.0) == 16.0;
    assert SumDownloads(rows) == Times(2, 2.0) == 4.0;
    QuotientOf(rows, 20.0, 4);
    assert 20.0 / 4.0 == 5.0;
    assert LikeTotal(db, [p]) == 8.0 + LikeTotal(db, []);
    assert DownloadTotal(db, [p]) == 2.0 + DownloadTotal(db, []);
  }

  // ---------------------------------------------------------------------------
  // The zero-publication guard
  // ---------------------------------------------------------------------------

  lemma {:induction false} RowsOfCount(db: Snapshot, ps: seq<Publication>)
    ensures CountPub(RowsOf(db, ps)) >= |ps|
  {
    if ps != [] {
      var ls, ds := CountsOn(db.likes, ps[0].id), CountsOn(db.downloads, ps[0].id);
      FanOut(db, ps[0]);
      assert Max1(|ls|) * Max1(|ds|) >= 1;
      RowsOfCount(db, ps[1..]);
      AggregatesAppend(PublicationRows(db, ps[0]), RowsOf(db, ps[1..]));
    }
  }

  /**
   * `COUNT(p.id)` is 0 exactly for a user without publications, and then the
   * denominator is 1 and the quotient 0: no division by zero, and a zero score.
   */
  lemma ZeroPublicationGuard(db: Snapshot, uid: Id)
    ensures CountPub(UserRows(db, uid)) == 0 <==> PublicationsOf(db.publications, uid) == []
    ensures PublicationsOf(db.publications, uid) == [] ==>
      Denominator(UserRows(db, uid)) == 1 && Quotient(UserRows(db, uid)) == 0.0
  {
    var ps := PublicationsOf(db.publications, uid);
    if ps != [] {
      RowsOfCount(db, ps);
    } else {
      var rows := UserRows(db, uid);
      assert rows == [JoinedRow(None, None, None)];
      assert CountPub(rows) == 0 && SumLikes(rows) == 0.0 && SumDownloads(rows) == 0.0;
    }
  }

  // ---------------------------------------------------------------------------
  // GetUserScores
  // ---------------------------------------------------------------------------

  /** ROUND to an integer with its tie rule left open: the result is within one half of its argument. */
  ghost predicate IsRounding(round: real -> int) {
    forall x: real :: x - 0.5 <= round(x) as real <= x + 0.5
  }

  datatype UserScore = UserScore(userId: Id, score: int)

  /** `ROUND(quotient)` over the joined rows of one user. */
  function Score(db: Snapshot, round: real -> int, uid: Id): int {
    round(Quotient(UserRows(db, uid)))
  }

  /** A user without publications scores 0, whatever the tie rule of ROUND. */
  lemma ZeroPublicationScore(db: Snapshot, round: real -> int, uid: Id)
    requires IsRounding(round)
    requires PublicationsOf(db.publications, uid) == []
    ensures Score(db, round, uid) == 0
  {
    ZeroPublicationGuard(db, uid);
    assert -0.5 <= round(0.0) as real <= 0.5;
  }

  /** The grouped rows `GROUP BY u.id` before ORDER BY: one per user row, in table order. */
  function ScoreRows(db: Snapshot, users: seq<User>, round: real -> int): (r: seq<UserScore>)
    ensures |r| == |users|
    ensures forall k :: 0 <= k < |users| ==> r[k] == UserScore(users[k].id, Score(db, round, users[k].id))
  {
    if users == [] then []
    else [UserScore(users[0].id, Score(db, round, users[0].id))] + ScoreRows(db, users[1..], round)
  }

  function ScoreOrder(a: UserScore, b: UserScore): bool {
    a.score >= b.score
  }

  /** A result set the database may send for `ORDER BY score DESC`: the grouped rows, ties in any order. */
  predicate IsScoresAnswer(db: Snapshot, round: real -> int, rows: seq<UserScore>) {
    multiset(rows) == multiset(ScoreRows(db, db.users, round)) && Sorting.SortedBy(rows, ScoreOrder)
  }

  /** The database always has such an answer: the grouped rows sorted by score. */
  lemma ScoresAnswerExists(db: Snapshot, round: real -> int)
    ensures IsScoresAnswer(db, round, Sorting.Sort(ScoreRows(db, db.users, round), ScoreOrder))
  {
    Sorting.SortSorted(ScoreRows(db, db.users, round), ScoreOrder);
  }

  /**
   * What a list cut short by a failure while reading still promises: its
   * entries are grouped score rows, each at most as often as the full answer
   * has it, still ordered by score.
   */
  lemma {:induction false} ScoresPrefix(db: Snapshot, round: real -> int, rows: seq<UserScore>, p: seq<UserScore>)
    requires IsScoresAnswer(db, round, rows) && p <= rows
    ensures multiset(p) <= multiset(ScoreRows(db, db.users, round))
    ensures Sorting.SortedBy(p, ScoreOrder)
  {
    assert rows == p + rows[|p|..];
  }

  /**
   * The `for rows.Next()` loop of GetUserScores; the query error is wrapped,
   * a scan error is not, and a failure while reading yields the rows read so
   * far as a success.
   */
  method GetUserScores(db: Snapshot, round: real -> int, answer: seq<UserScore>, fault: Fault)
    returns (r: Result<seq<UserScore>, string>)
    requires IsScoresAnswer(db, round, answer)
    ensures r.Success? <==> !fault.QueryFails? && !(fault.ScanFails? && fault.row < |answer|)
    ensures r.Success? ==> r.value <= answer
    ensures r.Success? && !fault.StreamFails? ==> IsScoresAnswer(db, round, r.value)
    ensures r.Success? && fault.StreamFails? ==> |r.value| == if fault.row < |answer| then fault.row else |answer|
    ensures fault.QueryFails? ==> r == Failure("failed to get user scores: " + fault.msg)
    ensures fault.ScanFails? && fault.row < |answer| ==> r == Failure(fault.msg)
  {
    if fault.QueryFails? {
      return Failure("failed to get user scores: " + fault.msg);
    }
    r := ScanRows(answer, fault);
  }

  lemma {:induction false} ScoreRowsOnce(db: Snapshot, users: seq<User>, round: real -> int, x: UserScore)
    requires DistinctUserIds(users)
    ensures multiset(ScoreRows(db, users, round))[x] <= 1
  {
    if users != [] {
      var rest := ScoreRows(db, users[1..], round);
      assert ScoreRows(db, users, round) == [ScoreRows(db, users, round)[0]] + rest;
      forall k | 0 <= k < |rest| ensures rest[k].userId != users[0].id {
        assert rest[k].userId == users[k + 1].id;
      }
      ScoreRowsOnce(db, users[1..], round, x);
    }
  }

  /**
   * Any answer to the scores query holds exactly one entry per user, every
   * entry is a user's rounded quotient, and entries are ordered by score
   * descending.
   */
  lemma ScoresAnswerProperties(db: Snapshot, round: real -> int, rows: seq<UserScore>)
    requires Valid(db) && IsScoresAnswer(db, round, rows)
    ensures |rows| == |db.users|
    ensures forall k :: 0 <= k < |db.users| ==>
      multiset(rows)[UserScore(db.users[k].id, Score(db, round, db.users[k].id))] == 1
    ensures forall i :: 0 <= i < |rows| ==>
      HasUser(db.users, rows[i].userId) && rows[i].score == Score(db, round, rows[i].userId)
    ensures forall i, j :: 0 <= i < j < |rows| ==> rows[i].score >= rows[j].score
  {
    var all := ScoreRows(db, db.users, round);
    assert |rows| == |multiset(rows)| == |multiset(all)| == |all|;
    forall k | 0 <= k < |db.users|
      ensures multiset(rows)[UserScore(db.users[k].id, Score(db, round, db.users[k].id))] == 1
    {
      ScoresAnswerOnce(db, round, rows, k);
    }
    forall i | 0 <= i < |rows|
      ensures HasUser(db.users, rows[i].userId) && rows[i].score == Score(db, round, rows[i].userId)
    {
      ScoresAnswerRow(db, round, rows, i);
    }
  }

  lemma ScoresAnswerOnce(db: Snapshot, round: real -> int, rows: seq<UserScore>, k: nat)
    requires Valid(db) && IsScoresAnswer(db, round, rows) && k < |db.users|
    ensures multiset(rows)[UserScore(db.users[k].id, Score(db, round, db.users[k].id))] == 1
  {
    var all := ScoreRows(db, db.users, round);
    ScoreRowsOnce(db, db.users, round, all[k]);
    assert all[k] in multiset(all);
  }

  lemma ScoresAnswerRow(db: Snapshot, round: real -> int, rows: seq<UserScore>, i: nat)
    requires Valid(db) && IsScoresAnswer(db, round, rows) && i < |rows|
    ensures HasUser(db.users, rows[i].userId) && rows[i].score == Score(db, round, rows[i].userId)
  {
    var all := ScoreRows(db, db.users, round);
    assert rows[i] in multiset(rows);
    assert rows[i] in all;
    var k :| 0 <= k < |all| && all[k] == rows[i];
    assert db.users[k].id == rows[i].userId;
  }

  // ---------------------------------------------------------------------------
  // GetTopContributors
  // ---------------------------------------------------------------------------

  datatype ContributorCount = ContributorCount(userId: Id, name: string, publicationCount: nat)

  function ContributorOf(db: Snapshot, u: User): ContributorCount {
    ContributorCount(u.id, u.name, |PublicationsOf(db.publications, u.id)|)
  }

  /** `publications p JOIN users u ... GROUP BY u.id`: a row per user with at least one publication. */
  function ContributorRows(db: Snapshot, users: seq<User>): seq<ContributorCount> {
    if users == [] then []
    else
      (if |PublicationsOf(db.publications, users[0].id)| > 0 then [ContributorOf(db, users[0])] else [])
      + ContributorRows(db, users[1..])
  }

  function CountOrder(a: ContributorCount, b: ContributorCount): bool {
    a.publicationCount >= b.publicationCount
  }

  /** A result set the database may send for `ORDER BY publication_count DESC`. */
  predicate IsContributorsAnswer(db: Snapshot, rows: seq<ContributorCount>) {
    multiset(rows) == multiset(ContributorRows(db, db.users)) && Sorting.SortedBy(rows, CountOrder)
  }

  /**
   * What a list cut short by a failure while reading still promises: its
   * entries are some of the grouped contributor rows, never repeated beyond
   * them, still ordered by count.
   */
  lemma {:induction false} ContributorsPrefix(db: Snapshot, rows: seq<ContributorCount>, p: seq<ContributorCount>)
    requires IsContributorsAnswer(db, rows) && p <= rows
    ensures multiset(p) <= multiset(ContributorRows(db, db.users))
    ensures Sorting.SortedBy(p, CountOrder)
  {
    assert rows == p + rows[|p|..];
  }

  lemma ContributorsAnswerExists(db: Snapshot)
    ensures IsContributorsAnswer(db, Sorting.Sort(ContributorRows(db, db.users), CountOrder))
  {
    Sorting.SortSorted(ContributorRows(db, db.users), CountOrder);
  }

  /**
   * The `for rows.Next()` loop of GetTopContributors; errors are returned
   * unwrapped, and a failure while reading yields the rows read so far as a
   * success.
   */
  method GetTopContributors(db: Snapshot, answer: seq<ContributorCount>, fault: Fault)
    returns (r: Result<seq<ContributorCount>, string>)
    requires IsContributorsAnswer(db, answer)
    ensures r.Success? <==> !fault.QueryFails? && !(fault.ScanFails? && fault.row < |answer|)
    ensures r.Success? ==> r.value <= answer
    ensures r.Success? && !fault.StreamFails? ==> IsContributorsAnswer(db, r.value)
    ensures r.Success? && fault.StreamFails? ==> |r.value| == if fault.row < |answer| then fault.row else |answer|
    ensures r.Failure? ==> r.error == fault.msg
  {
    if fault.QueryFails? {
      return Failure(fault.msg);
    }
    r := ScanRows(answer, fault);
  }

  lemma {:induction false} ContributorRowsMembers(db: Snapshot, users: seq<User>)
    ensures forall x :: x in ContributorRows(db, users) <==>
      (exists k :: 0 <= k < |users| && x == ContributorOf(db, users[k]) && x.publicationCount > 0)
  {
    if users != [] {
      ContributorRowsMembers(db, users[1..]);
      forall x | x in ContributorRows(db, users)
        ensures exists k :: 0 <= k < |users| && x == ContributorOf(db, users[k]) && x.publicationCount > 0
      {
        if x !in ContributorRows(db, users[1..]) {
          assert x == ContributorOf(db, users[0]);
        } else {
          var k :| 0 <= k < |users[1..]| && x == ContributorOf(db, users[1..][k]) && x.publicationCount > 0;
          assert users[1..][k] == users[k + 1];
        }
      }
      forall x | exists k :: 0 <= k < |users| && x == ContributorOf(db, users[k]) && x.publicationCount > 0
        ensures x in ContributorRows(db, users)
      {
        var k :| 0 <= k < |users| && x == ContributorOf(db, users[k]) && x.publicationCount > 0;
        if k > 0 {
          assert users[1..][k - 1] == users[k];
        }
      }
    }
  }

  lemma {:induction false} ContributorRowsOnce(db: Snapshot, users: seq<User>, x: ContributorCount)
    requires DistinctUserIds(users)
    ensures multiset(ContributorRows(db, users))[x] <= 1
  {
    if users != [] {
      var rest := ContributorRows(db, users[1..]);
      ContributorRowsMembers(db, users[1..]);
      ContributorRowsOnce(db, users[1..], x);
      if x in rest {
        var k :| 0 <= k < |users[1..]| && x == ContributorOf(db, users[1..][k]) && x.publicationCount > 0;
        assert x.userId == users[k + 1].id != users[0].id;
      }
    }
  }

  /**
   * Any answer to the top-contributors query lists exactly the users with at
   * least one publication, each once with their name and exact publication
   * count, and a larger count always comes first.
   */
  lemma ContributorsAnswerProperties(db: Snapshot, rows: seq<ContributorCount>)
    requires Valid(db) && IsContributorsAnswer(db, rows)
    ensures forall i :: 0 <= i < |rows| ==>
      (exists k :: 0 <= k < |db.users| && rows[i] == ContributorOf(db, db.users[k]))
      && rows[i].publicationCount >= 1
    ensures forall k :: 0 <= k < |db.users| && |PublicationsOf(db.publications, db.users[k].id)| > 0 ==>
      multiset(rows)[ContributorOf(db, db.users[k])] == 1
    ensures forall i, j :: 0 <= i < |rows| && 0 <= j < |rows| && rows[i].publicationCount > rows[j].publicationCount ==> i < j
  {
    forall i | 0 <= i < |rows|
      ensures (exists k :: 0 <= k < |db.users| && rows[i] == ContributorOf(db, db.users[k]))
        && rows[i].publicationCount >= 1
    {
      ContributorsAnswerRow(db, rows, i);
    }
    forall k | 0 <= k < |db.users| && |PublicationsOf(db.publications, db.users[k].id)| > 0
      ensures multiset(rows)[ContributorOf(db, db.users[k])] == 1
    {
      ContributorsAnswerOnce(db, rows, k);
    }
  }

  lemma ContributorsAnswerRow(db: Snapshot, rows: seq<ContributorCount>, i: nat)
    requires Valid(db) && IsContributorsAnswer(db, rows) && i < |rows|
    ensures exists k :: 0 <= k < |db.users| && rows[i] == ContributorOf(db, db.users[k])
    ensures rows[i].publicationCount >= 1
  {
    ContributorRowsMembers(db, db.users);
    assert rows[i] in multiset(rows);
    assert rows[i] in ContributorRows(db, db.users);
  }

  lemma ContributorsAnswerOnce(db: Snapshot, rows: seq<ContributorCount>, k: nat)
    requires Valid(db) && IsContributorsAnswer(db, rows) && k < |db.users|
    requires |PublicationsOf(db.publications, db.users[k].id)| > 0
    ensures multiset(rows)[ContributorOf(db, db.users[k])] == 1
  {
    var x := ContributorOf(db, db.users[k]);
    ContributorRowsMembers(db, db.users);
    assert x in ContributorRows(db, db.users);
    ContributorRowsOnce(db, db.users, x);
  }

  // ---------------------------------------------------------------------------
  // GetUserActivityCounts
  // ---------------------------------------------------------------------------

  datatype ActivityCounts = ActivityCounts(publicationCount: nat, downloadCount: real, likeCount: real)

  /**
   * What the user did: their publications, and the one like row and one
   * download row the scalar sub-selects read. More than one such row makes
   * the query fail.
   */
  function GetUserActivityCounts(db: Snapshot, uid: Id, fault: Option<string>): (r: Result<ActivityCounts, string>)
    ensures r.Success? <==> fault.None? && |CountsBy(db.downloads, uid)| <= 1 && |CountsBy(db.likes, uid)| <= 1
    ensures r.Success? ==> r.value == ActivityCounts(
      |PublicationsOf(db.publications, uid)|, Sum(CountsBy(db.downloads, uid)), Sum(CountsBy(db.likes, uid)))
    ensures fault.Some? ==> r == Failure("failed to get user activity counts: " + fault.value)
    ensures fault.None? && r.Failure? ==> r == Failure("failed to get user activity counts: " + TooManyRows)
  {
    var downloads := ScalarSubquery(CountsBy(db.downloads, uid));
    var likes := ScalarSubquery(CountsBy(db.likes, uid));
    var answer: Result<seq<ActivityCounts>, string> :=
      if downloads.Failure? then Failure(downloads.error)
      else if likes.Failure? then Failure(likes.error)
      else Success([ActivityCounts(|PublicationsOf(db.publications, uid)|, downloads.value, likes.value)]);
    match QueryRow(answer, fault)
    case Success(counts) => Success(counts)
    case Failure(e) => Failure("failed to get user activity counts: " + ErrorText(e))
  }

  // ---------------------------------------------------------------------------
  // GetUserRank
  // ---------------------------------------------------------------------------

  datatype UserRank = UserRank(userCount: int, userRank: int)

  /** `FROM users u LEFT JOIN ... WHERE u.id = $1` with no GROUP BY: the joined rows of every user row with that id. */
  function TargetRows(db: Snapshot, users: seq<User>, uid: Id): seq<JoinedRow> {
    if users == [] then []
    else (if users[0].id == uid then UserRows(db, uid) else []) + TargetRows(db, users[1..], uid)
  }

  /** The target's unrounded score: an aggregate without GROUP BY yields one row even for no input rows. */
  function TargetQuotient(db: Snapshot, uid: Id): real {
    Quotient(TargetRows(db, db.users, uid))
  }

  /** The unrounded score of every user row, in table order. */
  function Scores(db: Snapshot, users: seq<User>): (r: seq<real>)
    ensures |r| == |users|
    ensures forall k :: 0 <= k < |users| ==> r[k] == Quotient(UserRows(db, users[k].id))
  {
    seq(|users|, k requires 0 <= k < |users| => Quotient(UserRows(db, users[k].id)))
  }

  /** How many of the scores are strictly greater than `q`. */
  function CountAbove(scores: seq<real>, q: real): (r: nat)
    ensures r <= |scores|
  {
    if scores == [] then 0
    else (if scores[0] > q then 1 else 0) + CountAbove(scores[1..], q)
  }

  /** How many users' unrounded score is strictly greater than `q`. */
  function AboveCount(db: Snapshot, users: seq<User>, q: real): (r: nat)
    ensures r <= |users|
  {
    CountAbove(Scores(db, users), q)
  }

  /** The single row of the rank query. */
  function RankRow(db: Snapshot, uid: Id): UserRank {
    UserRank(|db.users|, 1 + AboveCount(db, db.users, TargetQuotient(db, uid)))
  }

  /**
   * The rank query always yields its one row, so only a failed call makes it
   * fail; the user count is the number of user rows. The code compares the
   * error with `sql.ErrNoRows`, which pgx never returns (its no-rows error is
   * `pgx.ErrNoRows`), so every failure is worded "failed to get user rank".
   */
  function GetUserRank(db: Snapshot, uid: Id, fault: Option<string>): (r: Result<UserRank, string>)
    ensures r.Success? <==> fault.None?
    ensures r.Success? ==> r.value.userCount == |db.users|
    ensures r.Success? ==> r.value.userRank == 1 + AboveCount(db, db.users, TargetQuotient(db, uid))
    ensures r.Failure? ==> r.error == "failed to get user rank: " + fault.value
  {
    match QueryRow(Success([RankRow(db, uid)]), fault)
    case Success(row) => Success(row)
    case Failure(e) => Failure("failed to get user rank: " + ErrorText(e))
  }

  lemma {:induction false} TargetRowsOfUser(db: Snapshot, users: seq<User>, uid: Id)
    requires DistinctUserIds(users)
    ensures HasUser(users, uid) ==> TargetRows(db, users, uid) == UserRows(db, uid)
    ensures !HasUser(users, uid) ==> TargetRows(db, users, uid) == []
  {
    if users != [] {
      var rest := users[1..];
      TargetRowsOfUser(db, rest, uid);
      if users[0].id == uid {
        forall j | 0 <= j < |rest| ensures rest[j].id != uid {
          assert rest[j] == users[j + 1];
        }
        assert TargetRows(db, users, uid) == UserRows(db, uid) + [];
      } else {
        if HasUser(users, uid) {
          var k :| 0 <= k < |users| && users[k].id == uid;
          assert rest[k - 1].id == uid;
        }
        if HasUser(rest, uid) {
          var k :| 0 <= k < |rest| && rest[k].id == uid;
          assert users[k + 1].id == uid;
        }
      }
    }
  }

  /** The target's score in the rank query is its own grouped score; an unknown id scores 0. */
  lemma TargetQuotientOf(db: Snapshot, uid: Id)
    requires Valid(db)
    ensures HasUser(db.users, uid) ==> TargetQuotient(db, uid) == Quotient(UserRows(db, uid))
    ensures !HasUser(db.users, uid) ==> TargetQuotient(db, uid) == 0.0
  {
    TargetRowsOfUser(db, db.users, uid);
  }

  lemma {:induction false} CountAboveSelf(scores: seq<real>, q: real, k: nat)
    requires k < |scores| && scores[k] <= q
    ensures CountAbove(scores, q) < |scores|
  {
    if k > 0 {
      assert scores[1..][k - 1] == scores[k];
      CountAboveSelf(scores[1..], q, k - 1);
    }
  }

  /** A higher bar never has more scores above it. */
  lemma {:induction false} CountAboveMonotone(scores: seq<real>, q1: real, q2: real)
    requires q1 <= q2
    ensures CountAbove(scores, q2) <= CountAbove(scores, q1)
  {
    if scores != [] {
      CountAboveMonotone(scores[1..], q1, q2);
    }
  }

  /** Raising the bar past some score strictly lowers the count above it. */
  lemma {:induction false} CountAboveStrict(scores: seq<real>, q1: real, q2: real, k: nat)
    requires k < |scores| && q1 < scores[k] <= q2
    ensures CountAbove(scores, q2) < CountAbove(scores, q1)
  {
    if k == 0 {
      CountAboveMonotone(scores[1..], q1, q2);
    } else {
      assert scores[1..][k - 1] == scores[k];
      CountAboveStrict(scores[1..], q1, q2, k - 1);
    }
  }

  lemma {:induction false} CountAboveZero(scores: seq<real>, q: real)
    ensures CountAbove(scores, q) == 0 <==> forall k :: 0 <= k < |scores| ==> scores[k] <= q
  {
    if scores != [] {
      CountAboveZero(scores[1..], q);
      assert forall k :: 1 <= k < |scores| ==> scores[k] == scores[1..][k - 1];
    }
  }

  /** An existing user's rank lies between 1 and the user count: nobody is strictly above themself. */
  lemma RankBounds(db: Snapshot, uid: Id)
    requires Valid(db) && HasUser(db.users, uid)
    ensures 1 <= RankRow(db, uid).userRank <= RankRow(db, uid).userCount
  {
    TargetQuotientOf(db, uid);
    var k :| 0 <= k < |db.users| && db.users[k].id == uid;
    CountAboveSelf(Scores(db, db.users), TargetQuotient(db, uid), k);
  }

  /**
   * Competition ranking: of two users, the one with the strictly greater
   * unrounded score has the strictly smaller rank, and equal scores share a rank.
   */
  lemma RankOrder(db: Snapshot, a: Id, b: Id)
    requires Valid(db) && HasUser(db.users, a) && HasUser(db.users, b)
    ensures RankRow(db, a).userRank < RankRow(db, b).userRank <==> Quotient(UserRows(db, a)) > Quotient(UserRows(db, b))
    ensures RankRow(db, a).userRank == RankRow(db, b).userRank <==> Quotient(UserRows(db, a)) == Quotient(UserRows(db, b))
  {
    TargetQuotientOf(db, a);
    TargetQuotientOf(db, b);
    var qa, qb := Quotient(UserRows(db, a)), Quotient(UserRows(db, b));
    var ka :| 0 <= ka < |db.users| && db.users[ka].id == a;
    var kb :| 0 <= kb < |db.users| && db.users[kb].id == b;
    if qa > qb {
      CountAboveStrict(Scores(db, db.users), qb, qa, ka);
    } else if qb > qa {
      CountAboveStrict(Scores(db, db.users), qa, qb, kb);
    }
  }

  /** A user with the greatest score has rank 1, however many share it. */
  lemma TopRank(db: Snapshot, uid: Id)
    requires Valid(db) && HasUser(db.users, uid)
    ensures RankRow(db, uid).userRank == 1 <==>
      forall k :: 0 <= k < |db.users| ==> Quotient(UserRows(db, db.users[k].id)) <= Quotient(UserRows(db, uid))
  {
    TargetQuotientOf(db, uid);
    CountAboveZero(Scores(db, db.users), Quotient(UserRows(db, uid)));
  }

  /** A user id with no user row is still ranked, with score 0: one more than the users scoring above 0. */
  lemma UnknownUserRank(db: Snapshot, uid: Id)
    requires Valid(db) && !HasUser(db.users, uid)
    ensures GetUserRank(db, uid, None) == Success(UserRank(|db.users|, 1 + AboveCount(db, db.users, 0.0)))
  {
    TargetQuotientOf(db, uid);
  }

  lemma {:induction false} CountAbovePair(scores: seq<real>, q: real, i: nat, j: nat)
    requires i < j < |scores| && scores[i] > q && scores[j] > q
    requires forall k :: 0 <= k < |scores| && k != i && k != j ==> scores[k] <= q
    ensures CountAbove(scores, q) == 2
  {
    var rest := scores[1..];
    assert forall k :: 1 <= k < |scores| ==> scores[k] == rest[k - 1];
    if i > 0 {
      CountAbovePair(rest, q, i - 1, j - 1);
    } else {
      CountAboveOne(rest, q, j - 1);
    }
  }

  lemma {:induction false} CountAboveOne(scores: seq<real>, q: real, j: nat)
    requires j < |scores| && scores[j] > q
    requires forall k :: 0 <= k < |scores| && k != j ==> scores[k] <= q
    ensures CountAbove(scores, q) == 1
  {
    var rest := scores[1..];
    assert forall k :: 1 <= k < |scores| ==> scores[k] == rest[k - 1];
    if j > 0 {
      CountAboveOne(rest, q, j - 1);
    } else {
      CountAboveZero(rest, q);
    }
  }

  /**
   * Competition ranking with a tie at the top: when exactly two users share
   * the greatest score, the next lower score ranks 3, not 2.
   */
  lemma RankAfterTie(db: Snapshot, i: nat, j: nat, c: nat)
    requires Valid(db) && i < j < |db.users| && c < |db.users| && c != i && c != j
    requires var qi, qj, qc := Quotient(UserRows(db, db.users[i].id)), Quotient(UserRows(db, db.users[j].id)),
      Quotient(UserRows(db, db.users[c].id));
      qi == qj && qc < qi
      && forall k :: 0 <= k < |db.users| && k != i && k != j ==> Quotient(UserRows(db, db.users[k].id)) <= qc
    ensures RankRow(db, db.users[i].id).userRank == 1 && RankRow(db, db.users[j].id).userRank == 1
    ensures RankRow(db, db.users[c].id).userRank == 3
  {
    var qc := Quotient(UserRows(db, db.users[c].id));
    TopRank(db, db.users[i].id);
    TopRank(db, db.users[j].id);
    TargetQuotientOf(db, db.users[c].id);
    CountAbovePair(Scores(db, db.users), qc, i, j);
  }

  /** A user with two publications, one with a single like row and one with a single download row: no fan-out. */
  lemma TwoPublicationTotals(db: Snapshot, uid: Id, p1: Publication, p2: Publication, like: real, download: real)
    requires PublicationsOf(db.publications, uid) == [p1, p2]
    requires CountsOn(db.likes, p1.id) == [like] && CountsOn(db.downloads, p1.id) == []
    requires CountsOn(db.likes, p2.id) == [] && CountsOn(db.downloads, p2.id) == [download]
    ensures Denominator(UserRows(db, uid)) == 2
    ensures SumLikes(UserRows(db, uid)) + SumDownloads(UserRows(db, uid)) == like + download
  {
    NoFanOut(db, [p1, p2]);
    assert UserRows(db, uid) == RowsOf(db, [p1, p2]);
    assert [p1, p2][1..] == [p2];
    assert LikeTotal(db, [p2]) == 0.0;
    assert DownloadTotal(db, [p2]) == download;
  }

  /** A user with one publication and a single like row on it. */
  lemma OnePublicationTotals(db: Snapshot, uid: Id, p: Publication, like: real)
    requires PublicationsOf(db.publications, uid) == [p]
    requires CountsOn(db.likes, p.id) == [like] && CountsOn(db.downloads, p.id) == []
    ensures Denominator(UserRows(db, uid)) == 1
    ensures SumLikes(UserRows(db, uid)) + SumDownloads(UserRows(db, uid)) == like
  {
    NoFanOut(db, [p]);
    assert UserRows(db, uid) == RowsOf(db, [p]);
    assert LikeTotal(db, [p]) == like;
    assert DownloadTotal(db, [p]) == 0.0;
  }

  /**
   * Two users: u1 with two publications that received 10 likes and 4
   * downloads, u2 with one publication that received 7 likes. u1 scores
   * (10 + 4) / 2 and u2 scores 7 / 1: both rank 1 of 2.
   */
  lemma TieScenario(db: Snapshot, u1: Id, u2: Id, p1: Publication, p2: Publication, p3: Publication)
    requires Valid(db) && |db.users| == 2 && db.users[0].id == u1 && db.users[1].id == u2
    requires PublicationsOf(db.publications, u1) == [p1, p2] && PublicationsOf(db.publications, u2) == [p3]
    requires CountsOn(db.likes, p1.id) == [10.0] && CountsOn(db.downloads, p1.id) == []
    requires CountsOn(db.likes, p2.id) == [] && CountsOn(db.downloads, p2.id) == [4.0]
    requires CountsOn(db.likes, p3.id) == [7.0] && CountsOn(db.downloads, p3.id) == []
    ensures GetUserRank(db, u1, None) == Success(UserRank(2, 1))
    ensures GetUserRank(db, u2, None) == Success(UserRank(2, 1))
  {
    TwoPublicationTotals(db, u1, p1, p2, 10.0, 4.0);
    QuotientOf(UserRows(db, u1), 14.0, 2);
    OnePublicationTotals(db, u2, p3, 7.0);
    QuotientOf(UserRows(db, u2), 7.0, 1);
    forall k | 0 <= k < |db.users| ensures Quotient(UserRows(db, db.users[k].id)) <= 7.0 {
      assert db.users[k].id == (if k == 0 then u1 else u2);
    }
    TopRank(db, u1);
    TopRank(db, u2);
  }

  // ---------------------------------------------------------------------------
  // GetUserStatistics
  // ---------------------------------------------------------------------------

  datatype UserStatistics = UserStatistics(
    userId: Id, publicationsCount: nat, likesCount: int, downloadsCount: int, rank: int)

  /** The grouped row as the database returns it, before it is scanned into Go `int` fields. */
  datatype StatisticsRow = StatisticsRow(userId: Id, publicationsCount: nat, likesCount: real, downloadsCount: real)

  /** `WHERE u.id = $1 GROUP BY u.id`: no row for an unknown user, else one group over its joined rows. */
  function StatisticsRows(db: Snapshot, uid: Id): seq<StatisticsRow> {
    if HasUser(db.users, uid) then
      var rows := TargetRows(db, db.users, uid);
      [StatisticsRow(uid, CountPub(rows), SumLikes(rows), SumDownloads(rows))]
    else []
  }

  /** A number that scans into a Go `int`: it has no fractional part. */
  predicate Integral(x: real) {
    x == x.Floor as real
  }

  /** Both sums of the user's grouped row scan into `int`. */
  predicate IntegralSums(db: Snapshot, uid: Id) {
    var rows := TargetRows(db, db.users, uid);
    Integral(SumLikes(rows)) && Integral(SumDownloads(rows))
  }

  /** The scan error for a SUM with a fractional part read into an `int` field. */
  const NonIntegralScan := "cannot convert a non-integral number to int"

  /**
   * The grouped statistics row, scanned into the `int` fields, then the rank
   * from GetUserRank. The counts are the fanned-out aggregates of the score,
   * and the rank is exactly the one GetUserRank reports.
   */
  method GetUserStatistics(db: Snapshot, uid: Id, statsFault: Option<string>, rankFault: Option<string>)
    returns (r: Result<UserStatistics, string>)
    ensures r.Success? <==> statsFault.None? && HasUser(db.users, uid) && IntegralSums(db, uid) && rankFault.None?
    ensures statsFault.Some? ==> r == Failure("failed to get user statistics: " + statsFault.value)
    ensures statsFault.None? && !HasUser(db.users, uid) ==>
      r == Failure("failed to get user statistics: " + "no rows in result set")
    ensures statsFault.None? && HasUser(db.users, uid) && !IntegralSums(db, uid) ==>
      r == Failure("failed to get user statistics: " + NonIntegralScan)
    ensures statsFault.None? && HasUser(db.users, uid) && IntegralSums(db, uid) && rankFault.Some? ==>
      r == Failure("failed to calculate user rank: " + ("failed to get user rank: " + rankFault.value))
    ensures r.Success? ==> r.value.userId == uid && r.value.rank == GetUserRank(db, uid, rankFault).value.userRank
    ensures r.Success? && Valid(db) ==>
      var rows := UserRows(db, uid);
      && r.value.publicationsCount == CountPub(rows)
      && r.value.likesCount as real == SumLikes(rows)
      && r.value.downloadsCount as real == SumDownloads(rows)
  {
    var row := QueryRow(Success(StatisticsRows(db, uid)), statsFault);
    if row.Failure? {
      assert statsFault.None? ==> row.error == NoRows;
      return Failure("failed to get user statistics: " + ErrorText(row.error));
    }
    var raw := row.value;
    if !Integral(raw.likesCount) || !Integral(raw.downloadsCount) {
      return Failure("failed to get user statistics: " + NonIntegralScan);
    }
    var rank := GetUserRank(db, uid, rankFault);
    if rank.Failure? {
      return Failure("failed to calculate user rank: " + rank.error);
    }
    var stats := UserStatistics(raw.userId, raw.publicationsCount, raw.likesCount.Floor, raw.downloadsCount.Floor,
                                rank.value.userRank);
    if Valid(db) {
      TargetRowsOfUser(db, db.users, uid);
    }
    return Success(stats);
  }
}
