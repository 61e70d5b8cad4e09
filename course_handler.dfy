/**
 * GetListCoursesBySemesterId (api/handler/course.go): the courses of one
 * semester, filtered in the handler from a single large page of the course
 * list. The offset parser and the course repository's list query are
 * inputs: the parsed offset, and the list as a function of the request.
 */
module CourseHandler {
  import opened Wrappers

  /** A row of `courses`. */
  datatype Course = Course(id: string, courseTitle: string, semesterId: string, createdAt: string, updatedAt: string)

  datatype CourseListRequest = CourseListRequest(offset: int, limit: int, search: string)

  datatype CourseList = CourseList(count: int, courses: seq<Course>)

  datatype Body = Courses(list: seq<Course>) | Message(text: string)

  /**
   * A written response, or the run-time panic of reading the courses of the
   * nil list the repository returns with an error.
   */
  datatype Outcome = Response(status: int, description: string, data: Body) | NilDereference

  /** The page size the handler asks for. */
  const PageLimit := 100000

  /** The courses of `semesterId`, in list order. */
  function InSemester(courses: seq<Course>, semesterId: string): (r: seq<Course>)
    ensures |r| <= |courses|
  {
    if courses == [] then []
    else
      var last := courses[|courses| - 1];
      InSemester(courses[..|courses| - 1], semesterId) + if last.semesterId == semesterId then [last] else []
  }

  /** Exactly the courses of the semester are kept, each as often as it is listed. */
  lemma {:induction false} InSemesterCounts(courses: seq<Course>, semesterId: string, c: Course)
    ensures multiset(InSemester(courses, semesterId))[c] == if c.semesterId == semesterId then multiset(courses)[c] else 0
  {
    if courses != [] {
      var init := courses[..|courses| - 1];
      InSemesterCounts(init, semesterId, c);
      assert courses == init + [courses[|courses| - 1]];
    }
  }

  /** Filtering is order-preserving: the kept courses appear in the list in the same order. */
  lemma {:induction false} InSemesterOrder(courses: seq<Course>, semesterId: string, i: nat, j: nat)
    requires i < j < |InSemester(courses, semesterId)|
    ensures exists p, q ::
      && 0 <= p < q < |courses|
      && courses[p] == InSemester(courses, semesterId)[i]
      && courses[q] == InSemester(courses, semesterId)[j]
  {
    var init := courses[..|courses| - 1];
    var kept := InSemester(init, semesterId);
    if j < |kept| {
      InSemesterOrder(init, semesterId, i, j);
      var p, q :| 0 <= p < q < |init| && init[p] == kept[i] && init[q] == kept[j];
      assert courses[p] == init[p] && courses[q] == init[q];
    } else {
      InSemesterIn(init, semesterId, i);
      var p :| 0 <= p < |init| && init[p] == kept[i];
      assert courses[p] == init[p];
      assert courses[|courses| - 1] == InSemester(courses, semesterId)[j];
    }
  }

  lemma {:induction false} InSemesterIn(courses: seq<Course>, semesterId: string, i: nat)
    requires i < |InSemester(courses, semesterId)|
    ensures exists p :: 0 <= p < |courses| && courses[p] == InSemester(courses, semesterId)[i]
  {
    var init := courses[..|courses| - 1];
    if i < |InSemester(init, semesterId)| {
      InSemesterIn(init, semesterId, i);
      var p :| 0 <= p < |init| && init[p] == InSemester(init, semesterId)[i];
      assert courses[p] == init[p];
    } else {
      assert courses[|courses| - 1] == InSemester(courses, semesterId)[i];
    }
  }

  /**
   * The handler: a missing semester_id and a bad offset are refused with 400
   * before the repository is asked; the list is requested with the caller's
   * offset and search and a limit of 100000, and filtered by semester. The
   * repository's error is looked at only after the filter loop has read the
   * list, which is nil then.
   */
  method GetListCoursesBySemesterId(semesterId: string, offset: Result<int, string>, search: string,
                                    getList: CourseListRequest -> Result<CourseList, string>)
    returns (r: Outcome)
    ensures semesterId == "" ==>
      r == Response(400, "get list PetrolHistory by semester_id", Message("semester_id is required"))
    ensures semesterId != "" && offset.Failure? ==>
      r == Response(400, "get list PetrolHistory offset", Message("invalid offset"))
    ensures semesterId != "" && offset.Success? ==>
      var resp := getList(CourseListRequest(offset.value, PageLimit, search));
      && (resp.Failure? <==> r == NilDereference)
      && (resp.Success? ==> r == Response(200, "get list Semester resposne", Courses(InSemester(resp.value.courses, semesterId))))
  {
    if semesterId == "" {
      return Response(400, "get list PetrolHistory by semester_id", Message("semester_id is required"));
    }
    if offset.Failure? {
      return Response(400, "get list PetrolHistory offset", Message("invalid offset"));
    }
    var resp := getList(CourseListRequest(offset.value, PageLimit, search));
    if resp.Failure? {
      return NilDereference;
    }
    var courses := resp.value.courses;
    var all: seq<Course> := [];
    for i := 0 to |courses|
      invariant all == InSemester(courses[..i], semesterId)
    {
      assert courses[..i + 1][..i] == courses[..i];
      if semesterId == courses[i].semesterId {
        all := all + [courses[i]];
      }
    }
    assert courses[..|courses|] == courses;
    return Response(200, "get list Semester resposne", Courses(all));
  }
}
