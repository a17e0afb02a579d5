/**
 * The members routes and `userService.getAllMembers`: a searchable,
 * paginated list of MEMBER accounts by descending total score, and member
 * creation with required-field and duplicate-email checks.
 */
module Members {
  import opened Wrappers
  import opened DbTypes
  import Http
  import Seqs
  import Ordering
  import Pagination
  import Constants

  predicate IsMember(u: User) {
    u.role == Member
  }

  /** A user the list shows: a member whose name or email holds `search`. */
  predicate Listed(u: User, search: string) {
    IsMember(u) && (Seqs.Contains(u.name, search) || Seqs.Contains(u.email, search))
  }

  function ListedBy(search: string): User -> bool {
    (u: User) => Listed(u, search)
  }

  function TotalScore(u: User): int {
    u.totalScore
  }

  /** The columns the list selects; the password is not among them. */
  datatype MemberView = MemberView(id: string, name: string, email: string, totalScore: int, level: MemberLevel, createdAt: Time)

  function View(u: User): MemberView {
    MemberView(u.id, u.name, u.email, u.totalScore, u.level, u.createdAt)
  }

  function Views(us: seq<User>): (vs: seq<MemberView>)
    ensures |vs| == |us| && forall i :: 0 <= i < |us| ==> vs[i] == View(us[i])
  {
    if |us| == 0 then [] else [View(us[0])] + Views(us[1..])
  }

  /** The users that pass `keep`, highest total score first. */
  function Ranked(users: seq<User>, keep: User -> bool): (r: seq<User>)
    ensures Ordering.SortedDesc(r, TotalScore)
    ensures multiset(r) == multiset(Seqs.Filter(users, keep))
    ensures |r| == Seqs.Count(users, keep)
    ensures forall i :: 0 <= i < |r| ==> r[i] in users && keep(r[i])
  {
    var f := Seqs.Filter(users, keep);
    var r := Ordering.SortDesc(f, TotalScore);
    assert |r| == |f| by {
      assert |multiset(r)| == |multiset(f)|;
    }
    assert forall i :: 0 <= i < |r| ==> r[i] in f by {
      forall i | 0 <= i < |r|
        ensures r[i] in f
      {
        assert r[i] in multiset(r);
      }
    }
    r
  }

  /** A window of a descending sequence is descending and draws its rows from that sequence. */
  lemma WindowOfRanked(users: seq<User>, keep: User -> bool, skip: nat, take: nat)
    ensures var w := Pagination.Window(Ranked(users, keep), skip, take);
      && |w| <= take && |w| <= Seqs.Count(users, keep)
      && Ordering.SortedDesc(w, TotalScore)
      && forall i :: 0 <= i < |w| ==> w[i] in users && keep(w[i])
  {
    var r := Ranked(users, keep);
    var w := Pagination.Window(r, skip, take);
    forall i, j | 0 <= i < j < |w|
      ensures TotalScore(w[i]) >= TotalScore(w[j])
    {
      assert w[i] == r[skip + i] && w[j] == r[skip + j];
    }
  }

  datatype MemberPage = MemberPage(data: seq<MemberView>, total: nat, page: int, limit: int, totalPages: nat)

  datatype MemberQuery = MemberQuery(paging: Pagination.PageQuery, search: Option<string>)

  const DefaultMemberLimit := 20

  /** The member list's default page size is the admin table page size. */
  lemma DefaultMatchesConstants()
    ensures DefaultMemberLimit == Constants.AdminTablePageSize
  {
  }

  /**
   * `GET /api/members`. Page and limit default to 1 and 20, the search to the
   * empty string. A page below 1 gives a negative `skip`, which the database
   * rejects, answered with 500.
   */
  function List(users: seq<User>, q: MemberQuery): (r: Http.Reply<MemberPage>)
    requires q.paging.limit.GetOr(DefaultMemberLimit) >= 1
    ensures r.Err? <==> q.paging.page.GetOr(1) < 1
    ensures r.Err? ==> r == Http.Err(500, "Failed to fetch members")
    ensures r.Ok? ==>
              var search := q.search.GetOr("");
              var p := r.data;
              && r.status == 200
              && p.page == q.paging.page.GetOr(1) && p.limit == q.paging.limit.GetOr(DefaultMemberLimit)
              && p.total == Seqs.Count(users, ListedBy(search))
              && p.totalPages == Pagination.TotalPages(p.total, p.limit)
              && p.data == Views(Pagination.PageOf(Ranked(users, ListedBy(search)), p.page, p.limit))
  {
    var page := q.paging.page.GetOr(1);
    var limit := q.paging.limit.GetOr(DefaultMemberLimit);
    var search := q.search.GetOr("");
    if Pagination.Skip(page, limit) < 0 then
      assert page < 1 by {
        if page >= 1 { Pagination.SkipNonNegative(page, limit); }
      }
      Http.Err(500, "Failed to fetch members")
    else
      assert page >= 1 by {
        if page < 1 { Pagination.MulMonotone(page - 1, -1, limit); }
      }
      var total := Seqs.Count(users, ListedBy(search));
      var window := Pagination.Window(Ranked(users, ListedBy(search)), Pagination.Skip(page, limit), limit);
      Http.Ok(200, MemberPage(Views(window), total, page, limit, Pagination.TotalPages(total, limit)))
  }

  /**
   * A page of the list holds at most `limit` rows, each the view of a listed
   * user, by descending total score.
   */
  lemma ListRowsRanked(users: seq<User>, q: MemberQuery)
    requires q.paging.limit.GetOr(DefaultMemberLimit) >= 1
    ensures var r := List(users, q);
      var search := q.search.GetOr("");
      r.Ok? ==>
        var p := r.data;
        && |p.data| <= p.limit && |p.data| <= p.total
        && (forall i :: 0 <= i < |p.data| ==> exists u :: u in users && Listed(u, search) && p.data[i] == View(u))
        && (forall i, j :: 0 <= i < j < |p.data| ==> p.data[i].totalScore >= p.data[j].totalScore)
  {
    var r := List(users, q);
    if r.Ok? {
      var search := q.search.GetOr("");
      var p := r.data;
      Pagination.SkipNonNegative(p.page, p.limit);
      var skip := Pagination.Skip(p.page, p.limit);
      var window := Pagination.Window(Ranked(users, ListedBy(search)), skip, p.limit);
      WindowOfRanked(users, ListedBy(search), skip, p.limit);
      assert p.data == Views(window);
      forall i | 0 <= i < |p.data|
        ensures exists u :: u in users && Listed(u, search) && p.data[i] == View(u)
      {
        assert window[i] in users && ListedBy(search)(window[i]);
      }
      forall i, j | 0 <= i < j < |p.data|
        ensures p.data[i].totalScore >= p.data[j].totalScore
      {
        assert TotalScore(window[i]) >= TotalScore(window[j]);
      }
    }
  }

  datatype ServicePage = ServicePage(users: seq<User>, total: nat, page: int, limit: int)

  /**
   * `userService.getAllMembers(page = 1, limit = 20)`: members only, by
   * descending total score, `total` counting members. It has no error
   * handling of its own, so a page below 1 is a failed call.
   */
  function GetAllMembers(users: seq<User>, page: Option<int>, limit: Option<int>): (r: Result<ServicePage, string>)
    requires limit.GetOr(DefaultMemberLimit) >= 1
    ensures r.Failure? <==> page.GetOr(1) < 1
    ensures r.Success? ==>
              var p := r.value;
              && p.page == page.GetOr(1) && p.limit == limit.GetOr(DefaultMemberLimit)
              && p.total == Seqs.Count(users, IsMember)
              && p.users == Pagination.PageOf(Ranked(users, IsMember), p.page, p.limit)
              && |p.users| <= p.limit
              && (forall i :: 0 <= i < |p.users| ==> IsMember(p.users[i]) && p.users[i] in users)
              && Ordering.SortedDesc(p.users, TotalScore)
  {
    var pg := page.GetOr(1);
    var l := limit.GetOr(DefaultMemberLimit);
    if pg < 1 then
      Failure("Argument skip must be a non-negative integer")
    else
      Pagination.SkipNonNegative(pg, l);
      WindowOfRanked(users, IsMember, Pagination.Skip(pg, l), l);
      Success(ServicePage(Pagination.PageOf(Ranked(users, IsMember), pg, l), Seqs.Count(users, IsMember), pg, l))
  }

  /** What the route shows on page `n` for a search: page `n` of the ranked matching members. */
  function RoutePage(users: seq<User>, search: string, limit: int, n: int): (vs: seq<MemberView>)
    requires limit >= 1 && n >= 1
    ensures vs == Views(Pagination.PageOf(Ranked(users, ListedBy(search)), n, limit))
  {
    var r := List(users, MemberQuery(Pagination.PageQuery(Some(n), Some(limit)), Some(search)));
    r.data.data
  }

  /** Views distribute over concatenation. */
  lemma ViewsAppend(a: seq<User>, b: seq<User>)
    ensures Views(a + b) == Views(a) + Views(b)
  {
    var l, r := Views(a + b), Views(a) + Views(b);
    forall i | 0 <= i < |l|
      ensures l[i] == r[i]
    {
      if i < |a| {
        assert (a + b)[i] == a[i];
      } else {
        assert (a + b)[i] == b[i - |a|];
      }
    }
  }

  /** The views of pages 1 to `n` of `rows`, one page after the other. */
  function ViewPages(rows: seq<User>, limit: int, n: nat): seq<MemberView>
    requires limit >= 1
  {
    if n == 0 then [] else ViewPages(rows, limit, n - 1) + Views(Pagination.PageOf(rows, n, limit))
  }

  /** Showing pages 1 to `n` one after the other shows the first `n` pages of rows. */
  lemma {:induction false} ViewPagesArePages(rows: seq<User>, limit: int, n: nat)
    requires limit >= 1
    ensures ViewPages(rows, limit, n) == Views(Pagination.Pages(rows, limit, n))
  {
    if n > 0 {
      ViewPagesArePages(rows, limit, n - 1);
      ViewsAppend(Pagination.Pages(rows, limit, n - 1), Pagination.PageOf(rows, n, limit));
    }
  }

  /** The route's pages 1 to `n`, one after the other. */
  function RoutePages(users: seq<User>, search: string, limit: int, n: nat): seq<MemberView>
    requires limit >= 1
  {
    if n == 0 then [] else RoutePages(users, search, limit, n - 1) + RoutePage(users, search, limit, n)
  }

  /**
   * The route's pages, joined, are the joined views of the pages of `rk`,
   * given that each route page shows the matching page of `rk`.
   */
  lemma {:induction false} RoutePagesJoin(users: seq<User>, search: string, limit: int, n: nat, rk: seq<User>)
    requires limit >= 1
    requires forall k :: 1 <= k <= n ==> RoutePage(users, search, limit, k) == Views(Pagination.PageOf(rk, k, limit))
    ensures RoutePages(users, search, limit, n) == ViewPages(rk, limit, n)
  {
    if n > 0 {
      RoutePagesJoin(users, search, limit, n - 1, rk);
      Seqs.AppendCongruent(RoutePages(users, search, limit, n - 1), RoutePage(users, search, limit, n),
                           ViewPages(rk, limit, n - 1), Views(Pagination.PageOf(rk, n, limit)));
    }
  }

  /**
   * Reading the route's pages 1 to `totalPages` lists every matching member
   * exactly once, by descending score, and nobody else: page `k` is the `k`-th
   * slice of one ranking of the matching members, and those slices, one after
   * the other, are the whole ranking.
   */
  lemma AllPagesListEveryMember(users: seq<User>, search: string, limit: int)
    requires limit >= 1
    ensures var n := Pagination.TotalPages(Seqs.Count(users, ListedBy(search)), limit);
      var rk := Ranked(users, ListedBy(search));
      && (forall k :: 1 <= k <= n ==> RoutePage(users, search, limit, k) == Views(Pagination.PageOf(rk, k, limit)))
      && Pagination.Pages(rk, limit, n) == rk
      && RoutePages(users, search, limit, n) == Views(rk)
      && multiset(rk) == multiset(Seqs.Filter(users, ListedBy(search)))
      && Ordering.SortedDesc(rk, TotalScore)
  {
    var rk := Ranked(users, ListedBy(search));
    var n := Pagination.TotalPages(Seqs.Count(users, ListedBy(search)), limit);
    Pagination.PagesCoverAll(rk, limit);
    ViewPagesArePages(rk, limit, n);
    RoutePagesJoin(users, search, limit, n, rk);
  }

  /** The members of the service's pages 1 to `n`, one page after the other. */
  function ServicePages(users: seq<User>, limit: int, n: nat): seq<User>
    requires limit >= 1
  {
    if n == 0 then []
    else ServicePages(users, limit, n - 1) + GetAllMembers(users, Some(n), Some(limit)).value.users
  }

  /**
   * Reading the service's pages 1 to `ceil(total / limit)` returns every
   * member exactly once, by descending score, and no other user.
   */
  lemma AllServicePagesListEveryMember(users: seq<User>, limit: int)
    requires limit >= 1
    ensures var n := Pagination.TotalPages(Seqs.Count(users, IsMember), limit);
      && multiset(ServicePages(users, limit, n)) == multiset(Seqs.Filter(users, IsMember))
      && Ordering.SortedDesc(ServicePages(users, limit, n), TotalScore)
  {
    var rk := Ranked(users, IsMember);
    var n := Pagination.TotalPages(|rk|, limit);
    ServicePagesAreRankedPages(users, limit, n);
    Pagination.PagesCoverAll(rk, limit);
  }

  lemma {:induction false} ServicePagesAreRankedPages(users: seq<User>, limit: int, n: nat)
    requires limit >= 1
    ensures ServicePages(users, limit, n) == Pagination.Pages(Ranked(users, IsMember), limit, n)
  {
    if n > 0 {
      ServicePagesAreRankedPages(users, limit, n - 1);
    }
  }

  /** With no search text the route lists what the service lists, and fails when it fails. */
  lemma ServiceMatchesRoute(users: seq<User>, paging: Pagination.PageQuery)
    requires paging.limit.GetOr(DefaultMemberLimit) >= 1
    ensures var r := List(users, MemberQuery(paging, None));
      var s := GetAllMembers(users, paging.page, paging.limit);
      && (r.Ok? <==> s.Success?)
      && (r.Ok? ==> r.data.data == Views(s.value.users) && r.data.total == s.value.total)
  {
    forall i | 0 <= i < |users|
      ensures ListedBy("")(users[i]) == IsMember(users[i])
    {
      Seqs.ContainsEmpty(users[i].name);
    }
    Seqs.FilterCongruent(users, ListedBy(""), IsMember);
    var page := paging.page.GetOr(1);
    if page >= 1 {
      Pagination.SkipNonNegative(page, paging.limit.GetOr(DefaultMemberLimit));
    }
  }

  /** The body of `POST /api/members`; absent fields are `None`. */
  datatype CreateRequest = CreateRequest(
    name: Option<string>,
    email: Option<string>,
    password: Option<string>,
    role: Option<UserRole>)

  predicate Truthy(s: Option<string>) {
    s.Some? && s.value != ""
  }

  predicate EmailTaken(users: seq<User>, email: string) {
    exists i :: 0 <= i < |users| && users[i].email == email
  }

  /** No two users share an email (the column's unique constraint). */
  ghost predicate EmailsUnique(users: seq<User>) {
    forall i, j :: 0 <= i < j < |users| ==> users[i].email != users[j].email
  }

  /** The columns the creation reply selects. */
  datatype CreatedMember = CreatedMember(id: string, name: string, email: string, role: UserRole)

  /**
   * `POST /api/members`: 400 when a field is missing or the email is taken,
   * otherwise one new user with role MEMBER, whatever role the body asked for.
   * `newId` and `now` stand for the database's generated id and timestamp.
   */
  function Create(users: seq<User>, req: CreateRequest, newId: string, now: Time): (r: (seq<User>, Http.Reply<CreatedMember>))
    ensures !Truthy(req.name) || !Truthy(req.email) || !Truthy(req.password) ==>
              r == (users, Http.Err(400, "Missing required fields"))
    ensures Truthy(req.name) && Truthy(req.email) && Truthy(req.password) && EmailTaken(users, req.email.value) ==>
              r == (users, Http.Err(400, "Email already exists"))
    ensures r.1.Ok? <==> Truthy(req.name) && Truthy(req.email) && Truthy(req.password) && !EmailTaken(users, req.email.value)
    ensures r.1.Ok? ==>
              && r.1.status == 201
              && r.1.data == CreatedMember(newId, req.name.value, req.email.value, Member)
              && |r.0| == |users| + 1 && r.0[..|users|] == users
              && var u := r.0[|users|];
                 u.id == newId && u.role == Member && u.name == req.name.value
                 && u.email == req.email.value && u.password == req.password.value && u.totalScore == 0
                 && u.level == Beginner && u.createdAt == now
    ensures EmailsUnique(users) ==> EmailsUnique(r.0)
  {
    if !Truthy(req.name) || !Truthy(req.email) || !Truthy(req.password) then
      (users, Http.Err(400, "Missing required fields"))
    else if EmailTaken(users, req.email.value) then
      (users, Http.Err(400, "Email already exists"))
    else
      var u := User(newId, req.email.value, req.name.value, req.password.value, Member, 0, Beginner, now);
      (users + [u], Http.Ok(201, CreatedMember(u.id, u.name, u.email, u.role)))
  }

  /** The role in the request body has no effect. */
  lemma CreateIgnoresRequestedRole(users: seq<User>, req: CreateRequest, role: Option<UserRole>, newId: string, now: Time)
    ensures Create(users, req, newId, now) == Create(users, req.(role := role), newId, now)
  {
  }

  /** Once a member is created, a second request with the same email is refused. */
  lemma CreateTwiceRefused(users: seq<User>, req: CreateRequest, req2: CreateRequest, newId: string, newId2: string, now: Time, now2: Time)
    requires Create(users, req, newId, now).1.Ok?
    requires Truthy(req2.name) && Truthy(req2.password) && req2.email == req.email
    ensures var users' := Create(users, req, newId, now).0;
      Create(users', req2, newId2, now2) == (users', Http.Err(400, "Email already exists"))
  {
    var users' := Create(users, req, newId, now).0;
    assert users'[|users|].email == req.email.value;
  }
}
