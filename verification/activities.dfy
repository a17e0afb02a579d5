/**
 * The activities routes and `activityService.getAll`: a paginated list of
 * activities, newest first, and activity creation with required-field checks
 * and a default grade level.
 */
module Activities {
  import opened Wrappers
  import opened DbTypes
  import Http
  import Seqs
  import Ordering
  import Pagination
  import Constants

  function CreatedAt(a: Activity): int {
    a.createdAt
  }

  /** The whole table, newest first: the order every page is cut from. */
  function ByNewest(activities: seq<Activity>): (r: seq<Activity>)
    ensures Ordering.SortedDesc(r, CreatedAt)
    ensures multiset(r) == multiset(activities)
  {
    Ordering.SortDesc(activities, CreatedAt)
  }

  datatype ActivityPage = ActivityPage(data: seq<Activity>, total: nat, page: int, limit: int, totalPages: nat)

  const DefaultActivityLimit := 10

  /** The literal defaults of the two list routes are the page sizes the constants name. */
  lemma DefaultsMatchConstants()
    ensures DefaultActivityLimit == Constants.DefaultPageSize
  {
  }

  /**
   * `GET /api/activities`. Page and limit default to 1 and 10. A page below 1
   * gives a negative `skip`, which the database rejects, answered with 500.
   */
  function List(activities: seq<Activity>, q: Pagination.PageQuery): (r: Http.Reply<ActivityPage>)
    requires q.limit.GetOr(DefaultActivityLimit) >= 1
    ensures r.Err? <==> q.page.GetOr(1) < 1
    ensures r.Err? ==> r == Http.Err(500, "Failed to fetch activities")
    ensures r.Ok? ==>
              var p := r.data;
              && r.status == 200
              && p.page == q.page.GetOr(1) && p.limit == q.limit.GetOr(DefaultActivityLimit)
              && p.total == |activities|
              && p.totalPages == Pagination.TotalPages(|activities|, p.limit)
              && p.data == Pagination.PageOf(ByNewest(activities), p.page, p.limit)
              && |p.data| <= p.limit
              && Ordering.SortedDesc(p.data, CreatedAt)
              && (forall i :: 0 <= i < |p.data| ==> p.data[i] in activities)
  {
    var page := q.page.GetOr(1);
    var limit := q.limit.GetOr(DefaultActivityLimit);
    if page < 1 then
      Http.Err(500, "Failed to fetch activities")
    else
      var data := Pagination.PageOf(ByNewest(activities), page, limit);
      PageOfNewest(activities, page, limit);
      Http.Ok(200, ActivityPage(data, |activities|, page, limit, Pagination.TotalPages(|activities|, limit)))
  }

  /** A page of the newest-first table is itself newest first and holds only table rows. */
  lemma PageOfNewest(activities: seq<Activity>, page: int, limit: int)
    requires page >= 1 && limit >= 1
    ensures var w := Pagination.PageOf(ByNewest(activities), page, limit);
      && |w| <= limit
      && Ordering.SortedDesc(w, CreatedAt)
      && forall i :: 0 <= i < |w| ==> w[i] in activities
  {
    Pagination.SkipNonNegative(page, limit);
    WindowRows(activities, Pagination.Skip(page, limit), limit);
    WindowSorted(activities, Pagination.Skip(page, limit), limit);
  }

  lemma WindowRows(activities: seq<Activity>, skip: nat, take: nat)
    ensures var w := Pagination.Window(ByNewest(activities), skip, take);
      forall i :: 0 <= i < |w| ==> w[i] in activities
  {
    var r := ByNewest(activities);
    var w := Pagination.Window(r, skip, take);
    forall i | 0 <= i < |w|
      ensures w[i] in activities
    {
      var x := r[skip + i];
      assert x in multiset(r);
      assert x in multiset(activities);
    }
  }

  lemma WindowSorted(activities: seq<Activity>, skip: nat, take: nat)
    ensures Ordering.SortedDesc(Pagination.Window(ByNewest(activities), skip, take), CreatedAt)
  {
    var r := ByNewest(activities);
    var w := Pagination.Window(r, skip, take);
    forall i, j | 0 <= i < j < |w|
      ensures CreatedAt(w[i]) >= CreatedAt(w[j])
    {
      assert w[i] == r[skip + i] && w[j] == r[skip + j];
    }
  }

  /** Reading pages 1 to `totalPages` returns every activity exactly once. */
  lemma AllPagesListEveryActivity(activities: seq<Activity>, limit: int)
    requires limit >= 1
    ensures var n := Pagination.TotalPages(|activities|, limit);
      multiset(Pagination.Pages(ByNewest(activities), limit, n)) == multiset(activities)
  {
    var r := ByNewest(activities);
    assert |r| == |activities| by {
      assert |multiset(r)| == |multiset(activities)|;
    }
    Pagination.PagesCoverAll(r, limit);
  }

  datatype ServicePage = ServicePage(activities: seq<Activity>, total: nat, page: int, limit: int)

  /**
   * `activityService.getAll(page = 1, limit = 10)`: the route's query without
   * its error handling, so a page below 1 is a failed call.
   */
  function GetAll(activities: seq<Activity>, page: Option<int>, limit: Option<int>): (r: Result<ServicePage, string>)
    requires limit.GetOr(DefaultActivityLimit) >= 1
    ensures r.Failure? <==> page.GetOr(1) < 1
    ensures r.Success? ==>
              && r.value.page == page.GetOr(1) && r.value.limit == limit.GetOr(DefaultActivityLimit)
              && r.value.total == |activities|
              && r.value.activities == Pagination.PageOf(ByNewest(activities), r.value.page, r.value.limit)
              && |r.value.activities| <= r.value.limit
              && Ordering.SortedDesc(r.value.activities, CreatedAt)
              && (forall i :: 0 <= i < |r.value.activities| ==> r.value.activities[i] in activities)
  {
    var p := page.GetOr(1);
    var l := limit.GetOr(DefaultActivityLimit);
    if p < 1 then
      Failure("Argument skip must be a non-negative integer")
    else
      PageOfNewest(activities, p, l);
      Success(ServicePage(Pagination.PageOf(ByNewest(activities), p, l), |activities|, p, l))
  }

  /** The service and the route return the same rows and total for the same query. */
  lemma ServiceMatchesRoute(activities: seq<Activity>, q: Pagination.PageQuery)
    requires q.limit.GetOr(DefaultActivityLimit) >= 1
    ensures var r := List(activities, q);
      var s := GetAll(activities, q.page, q.limit);
      && (r.Ok? <==> s.Success?)
      && (r.Ok? ==> r.data.data == s.value.activities && r.data.total == s.value.total)
  {
  }

  /** The body of `POST /api/activities`; absent fields are `None`. */
  datatype CreateRequest = CreateRequest(
    title: Option<string>,
    description: Option<string>,
    maxScore: Option<int>,
    gradeLevel: Option<Grade>,
    startDate: Option<string>,
    endDate: Option<string>)

  predicate Truthy(s: Option<string>) {
    s.Some? && s.value != ""
  }

  /** The fields the route demands, by JavaScript truthiness: a zero `maxScore` counts as missing. */
  predicate HasRequired(req: CreateRequest) {
    Truthy(req.title) && req.maxScore.Some? && req.maxScore.value != 0
    && Truthy(req.startDate) && Truthy(req.endDate)
  }

  /**
   * `POST /api/activities`. `parseDate` stands for `new Date(text)`, `None`
   * for an invalid date, which the database refuses (500). `newId` and `now`
   * stand for the generated id and creation time.
   */
  function Create(activities: seq<Activity>, req: CreateRequest, parseDate: string -> Option<Time>,
                  newId: string, now: Time): (r: (seq<Activity>, Http.Reply<Activity>))
    ensures !HasRequired(req) ==> r == (activities, Http.Err(400, "Missing required fields"))
    ensures r.1.Ok? <==>
              HasRequired(req) && parseDate(req.startDate.value).Some? && parseDate(req.endDate.value).Some?
    ensures r.1.Err? ==> r.0 == activities
    ensures HasRequired(req) && r.1.Err? ==> r.1 == Http.Err(500, "Failed to create activity")
    ensures r.1.Ok? ==>
              var a := r.1.data;
              && r.1.status == 201
              && r.0 == activities + [a]
              && a.id == newId && a.createdAt == now
              && a.title == req.title.value
              && a.description == req.description
              && a.maxScore == req.maxScore.value && a.maxScore != 0
              && (a.gradeLevel == req.gradeLevel.GetOr(A))
              && Some(a.startDate) == parseDate(req.startDate.value)
              && Some(a.endDate) == parseDate(req.endDate.value)
  {
    if !HasRequired(req) then
      (activities, Http.Err(400, "Missing required fields"))
    else
      var start := parseDate(req.startDate.value);
      var end := parseDate(req.endDate.value);
      if start.None? || end.None? then
        (activities, Http.Err(500, "Failed to create activity"))
      else
        var gradeLevel := if req.gradeLevel.Some? then req.gradeLevel.value else A;
        var a := Activity(newId, req.title.value, req.description, req.maxScore.value,
                          gradeLevel, start.value, end.value, now);
        (activities + [a], Http.Ok(201, a))
  }

  /** Leaving the grade level out is the same as asking for grade A. */
  lemma GradeLevelDefaultsToA(activities: seq<Activity>, req: CreateRequest, parseDate: string -> Option<Time>,
                              newId: string, now: Time)
    ensures Create(activities, req.(gradeLevel := None), parseDate, newId, now)
         == Create(activities, req.(gradeLevel := Some(A)), parseDate, newId, now)
  {
  }
}
