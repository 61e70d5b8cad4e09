/**
 * The publication repository (storage/postgres/publication.go): the
 * per-publication like and download statistics, the tag filter, and the
 * paged, searchable list.
 */
module PublicationStore {
  import opened Wrappers
  import opened Db
  import opened Text

  // ---------------------------------------------------------------------------
  // GetPublicationStats
  // ---------------------------------------------------------------------------

  datatype PublicationStats = PublicationStats(likeCount: real, downloadCount: real)

  /**
   * Two scalar sub-selects on the likes and the downloads of one publication:
   * the one row's `count`, 0 when there is none, a failure when there are
   * several. The outer SELECT has no FROM, so it always yields its row.
   */
  function GetPublicationStats(db: Snapshot, pid: Id, fault: Option<string>): (r: Result<PublicationStats, string>)
    ensures r.Success? <==> fault.None? && |CountsOn(db.likes, pid)| <= 1 && |CountsOn(db.downloads, pid)| <= 1
    ensures r.Success? ==> r.value == PublicationStats(Sum(CountsOn(db.likes, pid)), Sum(CountsOn(db.downloads, pid)))
    ensures fault.Some? ==> r == Failure("failed to get publication stats: " + fault.value)
    ensures fault.None? && r.Failure? ==> r == Failure("failed to get publication stats: " + TooManyRows)
  {
    var likes := ScalarSubquery(CountsOn(db.likes, pid));
    var downloads := ScalarSubquery(CountsOn(db.downloads, pid));
    var answer: Result<seq<PublicationStats>, string> :=
      if likes.Failure? then Failure(likes.error)
      else if downloads.Failure? then Failure(downloads.error)
      else Success([PublicationStats(likes.value, downloads.value)]);
    match QueryRow(answer, fault)
    case Success(stats) => Success(stats)
    case Failure(e) => Failure("failed to get publication stats: " + ErrorText(e))
  }

  lemma {:induction false} NoCounts(rows: seq<Counter>, pid: Id)
    requires forall k :: 0 <= k < |rows| ==> rows[k].publicationId != pid
    ensures CountsOn(rows, pid) == []
  {
    if rows != [] {
      NoCounts(rows[1..], pid);
    }
  }

  /** A publication id that no like and no download row mentions (an unknown one, say) has stats {0, 0}, not an error. */
  lemma UnknownPublicationStats(db: Snapshot, pid: Id)
    requires forall k :: 0 <= k < |db.likes| ==> db.likes[k].publicationId != pid
    requires forall k :: 0 <= k < |db.downloads| ==> db.downloads[k].publicationId != pid
    ensures GetPublicationStats(db, pid, None) == Success(PublicationStats(0.0, 0.0))
  {
    NoCounts(db.likes, pid);
    NoCounts(db.downloads, pid);
  }

  // ---------------------------------------------------------------------------
  // GetPublicationsByTag
  // ---------------------------------------------------------------------------

  /** `a ILIKE '%' || b || '%'`: `b` occurs in `a`, ignoring case. */
  predicate ContainsFold(a: string, b: string) {
    Contains(ToLower(a), ToLower(b))
  }

  /** The publications whose tags contain `tag`, in table order. */
  function WithTag(pubs: seq<Publication>, tag: string): (r: seq<Publication>)
    ensures |r| <= |pubs|
  {
    if pubs == [] then []
    else (if ContainsFold(pubs[0].tags, tag) then [pubs[0]] else []) + WithTag(pubs[1..], tag)
  }

  /** Exactly the matching publications, each as often as in the table. */
  lemma {:induction false} WithTagCounts(pubs: seq<Publication>, tag: string, p: Publication)
    ensures multiset(WithTag(pubs, tag))[p] == if ContainsFold(p.tags, tag) then multiset(pubs)[p] else 0
  {
    if pubs != [] {
      WithTagCounts(pubs[1..], tag, p);
      assert pubs == [pubs[0]] + pubs[1..];
    }
  }

  /** An empty tag matches every publication. */
  lemma {:induction false} WithEmptyTag(pubs: seq<Publication>)
    ensures WithTag(pubs, "") == pubs
  {
    if pubs != [] {
      assert MatchAt(ToLower(pubs[0].tags), ToLower(""), 0);
      WithEmptyTag(pubs[1..]);
    }
  }

  /**
   * The query wraps its own error; a scan error is returned as it is; a
   * failure while reading yields the matches read so far as a success.
   */
  method GetPublicationsByTag(db: Snapshot, tag: string, fault: Fault) returns (r: Result<seq<Publication>, string>)
    ensures r.Success? <==> !fault.QueryFails? && !(fault.ScanFails? && fault.row < |WithTag(db.publications, tag)|)
    ensures r.Success? ==> r.value <= WithTag(db.publications, tag)
    ensures r.Success? && !fault.StreamFails? ==> r.value == WithTag(db.publications, tag)
    ensures r.Success? && fault.StreamFails? && fault.row < |WithTag(db.publications, tag)| ==> |r.value| == fault.row
    ensures fault.QueryFails? ==> r == Failure("failed to get publications by tag: " + fault.msg)
    ensures fault.ScanFails? && r.Failure? ==> r == Failure(fault.msg)
  {
    if fault.QueryFails? {
      return Failure("failed to get publications by tag: " + fault.msg);
    }
    r := ScanRows(WithTag(db.publications, tag), fault);
  }

  // ---------------------------------------------------------------------------
  // GetList
  // ---------------------------------------------------------------------------

  datatype ListRequest = ListRequest(offset: int, limit: int, search: string)

  datatype PublicationList = PublicationList(count: int, publications: seq<Publication>)

  /** The offset used: the requested one when positive, else 0. */
  function EffectiveOffset(req: ListRequest): nat {
    if req.offset > 0 then req.offset else 0
  }

  /** The limit used: the requested one when positive, else 10. */
  function EffectiveLimit(req: ListRequest): nat {
    if req.limit > 0 then req.limit else 10
  }

  predicate AllDigits(s: string) {
    forall k :: 0 <= k < |s| ==> IsDigit(s[k])
  }

  /** The search text spliced into the title, tags and status patterns. */
  function SearchClause(s: string): string {
    " AND (title ILIKE '%' || '" + s + "' || '%' OR tags ILIKE '%' || '" + s
    + "' || '%' OR status ILIKE '%' || '" + s + "' || '%')"
  }

  /**
   * The clauses GetList appends to its SELECT, grown step by step from the
   * defaults. Each number is written in decimal and reads back as the
   * effective offset and limit; the search clause is added only for a
   * non-empty search.
   */
  method ListClauses(req: ListRequest) returns (where: string, offset: string, limit: string)
    ensures IsPrefix(" OFFSET ", offset) && AllDigits(offset[8..]) && Atoi(offset[8..]) == EffectiveOffset(req)
    ensures IsPrefix(" LIMIT ", limit) && AllDigits(limit[7..]) && Atoi(limit[7..]) == EffectiveLimit(req)
    ensures req.search == "" ==> where == " WHERE TRUE"
    ensures req.search != "" ==> where == " WHERE TRUE" + SearchClause(req.search)
  {
    where, offset, limit := " WHERE TRUE", " OFFSET 0", " LIMIT 10";
    if req.offset > 0 {
      offset := " OFFSET " + Itoa(req.offset);
    }
    if req.limit > 0 {
      limit := " LIMIT " + Itoa(req.limit);
    }
    if req.search != "" {
      where := where + SearchClause(req.search);
    }
    AtoiItoa(EffectiveOffset(req));
    AtoiItoa(EffectiveLimit(req));
    assert offset[8..] == Itoa(EffectiveOffset(req));
    assert limit[7..] == Itoa(EffectiveLimit(req));
  }

  /** The search condition on title, tags and status; an empty search keeps every row. */
  predicate MatchesSearch(p: Publication, search: string) {
    search == "" || ContainsFold(p.title, search) || ContainsFold(p.tags, search) || ContainsFold(p.status, search)
  }

  function Matching(pubs: seq<Publication>, search: string): (r: seq<Publication>)
    ensures |r| <= |pubs|
  {
    if pubs == [] then []
    else (if MatchesSearch(pubs[0], search) then [pubs[0]] else []) + Matching(pubs[1..], search)
  }

  /** `OFFSET off LIMIT lim` over the matching rows. */
  function Page(rows: seq<Publication>, off: nat, lim: nat): (r: seq<Publication>)
    ensures |r| <= lim
    ensures off < |rows| ==> |r| == if off + lim <= |rows| then lim else |rows| - off
    ensures off >= |rows| ==> r == []
    ensures forall k :: 0 <= k < |r| ==> r[k] == rows[off + k]
  {
    if off >= |rows| then [] else if off + lim <= |rows| then rows[off..off + lim] else rows[off..]
  }

  /**
   * The `for rows.Next()` loop of GetList: each scanned row overwrites Count
   * with `COUNT(*) OVER()`, the number of matching rows before paging, and
   * appends the publication. An empty page leaves Count at 0. A failure
   * while reading ends the loop: the rows read so far are a success.
   */
  method GetList(db: Snapshot, req: ListRequest, fault: Fault) returns (r: Result<PublicationList, string>)
    ensures var page := Page(Matching(db.publications, req.search), EffectiveOffset(req), EffectiveLimit(req));
      && (r.Success? <==> !fault.QueryFails? && !(fault.ScanFails? && fault.row < |page|))
      && (r.Success? ==> r.value.publications <= page)
      && (r.Success? && !fault.StreamFails? ==> r.value.publications == page)
      && (r.Success? && fault.StreamFails? && fault.row < |page| ==> |r.value.publications| == fault.row)
      && (r.Success? ==> r.value.count == if r.value.publications == [] then 0 else |Matching(db.publications, req.search)|)
    ensures r.Failure? ==> r.error == fault.msg
  {
    if fault.QueryFails? {
      return Failure(fault.msg);
    }
    var total := |Matching(db.publications, req.search)|;
    var rows := Page(Matching(db.publications, req.search), EffectiveOffset(req), EffectiveLimit(req));
    var count := 0;
    var pubs: seq<Publication> := [];
    var i := 0;
    while i < |rows|
      invariant 0 <= i <= |rows|
      invariant pubs == rows[..i]
      invariant count == if i == 0 then 0 else total
      invariant fault.ScanFails? || fault.StreamFails? ==> fault.row >= i
    {
      if fault.StreamFails? && fault.row == i {
        return Success(PublicationList(count, pubs));
      }
      if fault.ScanFails? && fault.row == i {
        return Failure(fault.msg);
      }
      count := total;
      pubs := pubs + [rows[i]];
      i := i + 1;
    }
    assert rows[..i] == rows;
    return Success(PublicationList(count, pubs));
  }

  /** Without a search every publication matches, so a page is a window of the table. */
  lemma {:induction false} MatchingEmptySearch(pubs: seq<Publication>)
    ensures Matching(pubs, "") == pubs
  {
    if pubs != [] {
      MatchingEmptySearch(pubs[1..]);
    }
  }

  /** A returned publication matches the search, and the page never exceeds the limit. */
  lemma {:induction false} MatchingSound(pubs: seq<Publication>, search: string)
    ensures forall k :: 0 <= k < |Matching(pubs, search)| ==>
      MatchesSearch(Matching(pubs, search)[k], search) && Matching(pubs, search)[k] in pubs
  {
    if pubs != [] {
      MatchingSound(pubs[1..], search);
    }
  }
}
