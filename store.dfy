/**
 * The storage root (storage/postgres/postgres.go): a connection pool and one
 * repository per table, each created on first use from the pool and kept
 * for every later call.
 */
module Store {
  import opened Wrappers

  /** The connection pool; only its identity matters here. */
  class Pool {
    constructor ()
    {
    }
  }

  datatype RepoKind = AdminRepo | UserRepo | CourseRepo | SemesterRepo | LikeRepo | DownloadRepo | PublicationRepo | NotificationRepo

  /** A repository: what it serves and the pool it queries. */
  class Repo {
    const kind: RepoKind
    const db: Pool

    constructor (kind: RepoKind, db: Pool)
      ensures this.kind == kind && this.db == db
    {
      this.kind := kind;
      this.db := db;
    }
  }

  class Store {
    const db: Pool
    var admin: Repo?
    var user: Repo?
    var course: Repo?
    var semester: Repo?
    var like: Repo?
    var download: Repo?
    var publication: Repo?
    var notification: Repo?

    /** The repository fields in declaration order, null where none has been made yet. */
    function Fields(): (r: seq<Repo?>)
      reads this
      ensures |r| == 8
    {
      [admin, user, course, semester, like, download, publication, notification]
    }

    /** `r`, if made, serves `kind` over the store's pool. */
    predicate Fits(r: Repo?, kind: RepoKind) {
      r != null ==> r.kind == kind && r.db == db
    }

    /** Every repository made so far is of its field's kind and uses the store's pool. */
    ghost predicate Valid()
      reads this
    {
      && Fits(admin, AdminRepo) && Fits(user, UserRepo) && Fits(course, CourseRepo) && Fits(semester, SemesterRepo)
      && Fits(like, LikeRepo) && Fits(download, DownloadRepo) && Fits(publication, PublicationRepo)
      && Fits(notification, NotificationRepo)
    }

    /** NewConnectionPostgres's `&store{db: pool}`: only the pool is set. */
    constructor (db: Pool)
      ensures this.db == db
      ensures Fields() == [null, null, null, null, null, null, null, null]
      ensures Valid()
    {
      this.db := db;
      admin, user, course, semester := null, null, null, null;
      like, download, publication, notification := null, null, null, null;
    }

    method Admin() returns (r: Repo)
      requires Valid()
      modifies this
      ensures Valid() && r.kind == AdminRepo && r.db == db
      ensures Fields() == old(Fields())[0 := r]
      ensures admin == r
      ensures old(admin) != null ==> r == old(admin)
      ensures old(admin) == null ==> fresh(r)
    {
      if admin == null {
        admin := new Repo(AdminRepo, db);
      }
      r := admin;
    }

    method User() returns (r: Repo)
      requires Valid()
      modifies this
      ensures Valid() && r.kind == UserRepo && r.db == db
      ensures Fields() == old(Fields())[1 := r]
      ensures user == r
      ensures old(user) != null ==> r == old(user)
      ensures old(user) == null ==> fresh(r)
    {
      if user == null {
        user := new Repo(UserRepo, db);
      }
      r := user;
    }

    method Course() returns (r: Repo)
      requires Valid()
      modifies this
      ensures Valid() && r.kind == CourseRepo && r.db == db
      ensures Fields() == old(Fields())[2 := r]
      ensures course == r
      ensures old(course) != null ==> r == old(course)
      ensures old(course) == null ==> fresh(r)
    {
      if course == null {
        course := new Repo(CourseRepo, db);
      }
      r := course;
    }

    method Semester() returns (r: Repo)
      requires Valid()
      modifies this
      ensures Valid() && r.kind == SemesterRepo && r.db == db
      ensures Fields() == old(Fields())[3 := r]
      ensures semester == r
      ensures old(semester) != null ==> r == old(semester)
      ensures old(semester) == null ==> fresh(r)
    {
      if semester == null {
        semester := new Repo(SemesterRepo, db);
      }
      r := semester;
    }

    method Like() returns (r: Repo)
      requires Valid()
      modifies this
      ensures Valid() && r.kind == LikeRepo && r.db == db
      ensures Fields() == old(Fields())[4 := r]
      ensures like == r
      ensures old(like) != null ==> r == old(like)
      ensures old(like) == null ==> fresh(r)
    {
      if like == null {
        like := new Repo(LikeRepo, db);
      }
      r := like;
    }

    method Download() returns (r: Repo)
      requires Valid()
      modifies this
      ensures Valid() && r.kind == DownloadRepo && r.db == db
      ensures Fields() == old(Fields())[5 := r]
      ensures download == r
      ensures old(download) != null ==> r == old(download)
      ensures old(download) == null ==> fresh(r)
    {
      if download == null {
        download := new Repo(DownloadRepo, db);
      }
      r := download;
    }

    method Publication() returns (r: Repo)
      requires Valid()
      modifies this
      ensures Valid() && r.kind == PublicationRepo && r.db == db
      ensures Fields() == old(Fields())[6 := r]
      ensures publication == r
      ensures old(publication) != null ==> r == old(publication)
      ensures old(publication) == null ==> fresh(r)
    {
      if publication == null {
        publication := new Repo(PublicationRepo, db);
      }
      r := publication;
    }

    method Notification() returns (r: Repo)
      requires Valid()
      modifies this
      ensures Valid() && r.kind == NotificationRepo && r.db == db
      ensures Fields() == old(Fields())[7 := r]
      ensures notification == r
      ensures old(notification) != null ==> r == old(notification)
      ensures old(notification) == null ==> fresh(r)
    {
      if notification == null {
        notification := new Repo(NotificationRepo, db);
      }
      r := notification;
    }
  }

  /**
   * NewConnectionPostgres: a failure to parse the configuration or to
   * connect is returned as it is; otherwise a new store over the pool with
   * no repository made yet.
   */
  method NewConnectionPostgres(parseError: Option<string>, connect: Result<Pool, string>) returns (r: Result<Store, string>)
    ensures parseError.Some? ==> r == Failure(parseError.value)
    ensures parseError.None? && connect.Failure? ==> r == Failure(connect.error)
    ensures r.Success? <==> parseError.None? && connect.Success?
    ensures r.Success? ==>
      && fresh(r.value) && r.value.db == connect.value && r.value.Valid()
      && r.value.Fields() == [null, null, null, null, null, null, null, null]
  {
    if parseError.Some? {
      return Failure(parseError.value);
    }
    if connect.Failure? {
      return Failure(connect.error);
    }
    var s := new Store(connect.value);
    return Success(s);
  }

  /** Accessors are idempotent: a second call returns the repository the first one made. */
  method AccessorIdempotent(s: Store) returns (first: Repo, second: Repo)
    requires s.Valid()
    modifies s
    ensures first == second && s.user == first
    ensures old(s.user) == null ==> fresh(first)
  {
    first := s.User();
    second := s.User();
  }
}
