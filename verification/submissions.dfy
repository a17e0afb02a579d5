/**
 * The submission routes and the review service: submitting is an upsert on
 * (userId, activityId); approving and rejecting overwrite review fields. None
 * of them checks the row's current status, the activity's dates or the score's
 * range.
 */
module Submissions {
  import opened Wrappers
  import opened DbTypes
  import Http
  import Ordering

  /** A request field is truthy: present and not the empty string. */
  predicate Truthy(s: Option<string>) {
    s.Some? && s.value != ""
  }

  datatype SubmitRequest = SubmitRequest(userId: Option<string>, activityId: Option<string>, fileUrls: Option<seq<string>>)

  /** A reply together with the submission table it leaves behind. */
  datatype Outcome = Outcome(store: Store, reply: Http.Reply<Submission>)

  /** Every row other than the one under `k` is as it was, and no row appears or disappears except `k`. */
  ghost predicate OthersUnchanged(store: Store, store': Store, k: Key) {
    && store'.Keys - {k} == store.Keys - {k}
    && forall k' :: k' in store && k' != k ==> k' in store' && store'[k'] == store[k']
  }

  /**
   * `POST /api/submissions`: 400 without both ids, 404 for an unknown activity,
   * otherwise the row for (userId, activityId) is created or overwritten with
   * status SUBMITTED, whatever status it had. `userIds` are the ids of the user
   * table: for any other user id the upsert breaks the row's reference to its
   * user, the database refuses it, and the route answers 500.
   */
  function Submit(store: Store, catalog: map<string, Activity>, userIds: set<string>, req: SubmitRequest, now: Time): (o: Outcome)
    ensures !Truthy(req.userId) || !Truthy(req.activityId) ==>
              o.store == store && o.reply == Http.Err(400, "Missing required fields")
    ensures Truthy(req.userId) && Truthy(req.activityId) && req.activityId.value !in catalog ==>
              o.store == store && o.reply == Http.Err(404, "Activity not found")
    ensures Truthy(req.userId) && Truthy(req.activityId) && req.activityId.value in catalog && req.userId.value !in userIds ==>
              o.store == store && o.reply == Http.Err(500, "Failed to create submission")
    ensures o.reply.Ok? <==> Truthy(req.userId) && Truthy(req.activityId) && req.activityId.value in catalog && req.userId.value in userIds
    ensures Truthy(req.userId) && Truthy(req.activityId) && req.activityId.value in catalog && req.userId.value in userIds ==>
              var k := Key(req.userId.value, req.activityId.value);
              && k in o.store && o.store.Keys == store.Keys + {k}
              && o.reply == Http.Ok(201, o.store[k])
              && KeyOf(o.store[k]) == k
              && o.store[k].status == Submitted
              && o.store[k].submittedDate == Some(now)
              && o.store[k].fileUrls == req.fileUrls.GetOr([])
              && OthersUnchanged(store, o.store, k)
              && (k in store ==>
                    && o.store[k].score == store[k].score
                    && o.store[k].comments == store[k].comments
                    && o.store[k].approvalDate == store[k].approvalDate
                    && o.store[k].createdAt == store[k].createdAt)
              && (k !in store ==>
                    && o.store[k].score.None?
                    && o.store[k].comments.None?
                    && o.store[k].approvalDate.None?
                    && o.store[k].createdAt == now)
    ensures WellFormed(store) ==> WellFormed(o.store)
  {
    if !Truthy(req.userId) || !Truthy(req.activityId) then
      Outcome(store, Http.Err(400, "Missing required fields"))
    else if req.activityId.value !in catalog then
      Outcome(store, Http.Err(404, "Activity not found"))
    else if req.userId.value !in userIds then
      Outcome(store, Http.Err(500, "Failed to create submission"))
    else
      var k := Key(req.userId.value, req.activityId.value);
      var files := req.fileUrls.GetOr([]);
      var row :=
        if k in store then
          store[k].(userId := k.userId, activityId := k.activityId, status := Submitted,
                    submittedDate := Some(now), fileUrls := files)
        else
          Submission(k.userId, k.activityId, Submitted, Some(now), None, None, None, files, now);
      Outcome(store[k := row], Http.Ok(201, row))
  }

  /** The query of `GET /api/submissions`; each parameter is the raw text, absent when not given. */
  datatype Query = Query(userId: Option<string>, activityId: Option<string>, status: Option<string>)

  /** The status enum value a query string names. */
  function ParseStatus(s: string): Option<SubmissionStatus> {
    if s == "NOT_STARTED" then Some(NotStarted)
    else if s == "SUBMITTED" then Some(Submitted)
    else if s == "APPROVED" then Some(Approved)
    else if s == "REJECTED" then Some(Rejected)
    else None
  }

  /** A status filter the database accepts: absent, empty, or a status name. */
  predicate ValidStatusFilter(q: Query) {
    !Truthy(q.status) || ParseStatus(q.status.value).Some?
  }

  /** A row passes every filter that was supplied; an empty or absent one imposes nothing. */
  predicate Matches(s: Submission, q: Query)
    requires ValidStatusFilter(q)
  {
    && (Truthy(q.userId) ==> s.userId == q.userId.value)
    && (Truthy(q.activityId) ==> s.activityId == q.activityId.value)
    && (Truthy(q.status) ==> s.status == ParseStatus(q.status.value).value)
  }

  function CreatedAt(s: Submission): int {
    s.createdAt
  }

  /**
   * `GET /api/submissions`: exactly the rows that pass every supplied filter,
   * each once, newest first. A status that names no enum value makes the
   * database reject the query, answered with 500.
   */
  method List(store: Store, q: Query) returns (r: Http.Reply<seq<Submission>>)
    requires WellFormed(store)
    ensures r.Err? <==> !ValidStatusFilter(q)
    ensures r.Err? ==> r == Http.Err(500, "Failed to fetch submissions")
    ensures r.Ok? ==> r.status == 200
    ensures r.Ok? ==> forall s :: s in r.data <==> s in store.Values && Matches(s, q)
    ensures r.Ok? ==> Ordering.Distinct(r.data)
    ensures r.Ok? ==> Ordering.SortedDesc(r.data, CreatedAt)
  {
    if !ValidStatusFilter(q) {
      return Http.Err(500, "Failed to fetch submissions");
    }
    var rows: seq<Submission> := [];
    var rest := store.Keys;
    while rest != {}
      invariant rest <= store.Keys
      invariant Ordering.SortedDesc(rows, CreatedAt)
      invariant Ordering.Distinct(rows)
      invariant forall s :: s in rows ==> KeyOf(s) in store && store[KeyOf(s)] == s && KeyOf(s) !in rest && Matches(s, q)
      invariant forall k :: k in store && k !in rest && Matches(store[k], q) ==> store[k] in rows
      decreases |rest|
    {
      var k :| k in rest;
      rest := rest - {k};
      var s := store[k];
      if Matches(s, q) {
        assert KeyOf(s) == k;
        Ordering.InsertDistinct(rows, s, CreatedAt);
        Ordering.InsertMembers(rows, s, CreatedAt);
        rows := Ordering.Insert(rows, s, CreatedAt);
      }
    }
    return Http.Ok(200, rows);
  }

  /** The columns neither review operation writes. */
  ghost predicate SameSubmissionFields(s: Submission, s': Submission) {
    && s'.userId == s.userId
    && s'.activityId == s.activityId
    && s'.submittedDate == s.submittedDate
    && s'.fileUrls == s.fileUrls
    && s'.createdAt == s.createdAt
  }

  /** An absent `comments` argument is not written, so the column keeps its value. */
  function NewComments(current: Option<string>, arg: Option<string>): Option<string> {
    if arg.Some? then arg else current
  }

  /**
   * `submissionService.approve`: from any status, with any score. Only the
   * submission row changes; badge rows and users are not touched.
   */
  function Approve(db: Db, k: Key, score: int, comments: Option<string>, now: Time): (r: Result<Db, string>)
    ensures r.Failure? <==> k !in db.submissions
    ensures r.Success? ==> k in db.submissions && k in r.value.submissions
    ensures r.Success? ==>
              var s, s' := db.submissions[k], r.value.submissions[k];
              && s'.status == Approved
              && s'.score == Some(score)
              && s'.approvalDate == Some(now)
              && s'.comments == (if comments.Some? then comments else s.comments)
              && SameSubmissionFields(s, s')
              && r.value.submissions.Keys == db.submissions.Keys
              && OthersUnchanged(db.submissions, r.value.submissions, k)
              && r.value.badges == db.badges
              && r.value.users == db.users
    ensures r.Success? && WellFormed(db.submissions) ==> WellFormed(r.value.submissions)
  {
    if k !in db.submissions then Failure("Record to update not found.")
    else
      var s := db.submissions[k];
      var s' := s.(status := Approved, score := Some(score),
                   comments := NewComments(s.comments, comments), approvalDate := Some(now));
      Success(db.(submissions := db.submissions[k := s']))
  }

  /**
   * `submissionService.reject`: from any status. The score column is not
   * written, so an earlier score stays; badge rows and users are not touched.
   */
  function Reject(db: Db, k: Key, comments: Option<string>, now: Time): (r: Result<Db, string>)
    ensures r.Failure? <==> k !in db.submissions
    ensures r.Success? ==> k in db.submissions && k in r.value.submissions
    ensures r.Success? ==>
              var s, s' := db.submissions[k], r.value.submissions[k];
              && s'.status == Rejected
              && s'.score == s.score
              && s'.approvalDate == Some(now)
              && s'.comments == (if comments.Some? then comments else s.comments)
              && SameSubmissionFields(s, s')
              && r.value.submissions.Keys == db.submissions.Keys
              && OthersUnchanged(db.submissions, r.value.submissions, k)
              && r.value.badges == db.badges
              && r.value.users == db.users
    ensures r.Success? && WellFormed(db.submissions) ==> WellFormed(r.value.submissions)
  {
    if k !in db.submissions then Failure("Record to update not found.")
    else
      var s := db.submissions[k];
      var s' := s.(status := Rejected, comments := NewComments(s.comments, comments), approvalDate := Some(now));
      Success(db.(submissions := db.submissions[k := s']))
  }

  /** Submitting the same request twice at the same instant leaves the table as one submit does. */
  lemma SubmitIdempotent(store: Store, catalog: map<string, Activity>, userIds: set<string>, req: SubmitRequest, now: Time)
    ensures var once := Submit(store, catalog, userIds, req, now);
      Submit(once.store, catalog, userIds, req, now) == once
  {
  }

  /**
   * Only the activity's existence is checked: two catalogs with the same ids,
   * whatever their dates and scores, give the same outcome.
   */
  lemma SubmitIgnoresActivityFields(store: Store, c1: map<string, Activity>, c2: map<string, Activity>, userIds: set<string>, req: SubmitRequest, now: Time)
    requires c1.Keys == c2.Keys
    ensures Submit(store, c1, userIds, req, now) == Submit(store, c2, userIds, req, now)
  {
  }

  /**
   * An approved row can be submitted again: it goes back to SUBMITTED and
   * keeps the score it was approved with.
   */
  lemma ResubmitAfterApproval(db: Db, k: Key, score: int, comments: Option<string>, t1: Time,
                              catalog: map<string, Activity>, userIds: set<string>, files: Option<seq<string>>, t2: Time)
    requires k in db.submissions && k.userId != "" && k.activityId in catalog && k.activityId != ""
    requires k.userId in userIds
    ensures var approved := Approve(db, k, score, comments, t1).value.submissions;
      var o := Submit(approved, catalog, userIds, SubmitRequest(Some(k.userId), Some(k.activityId), files), t2);
      && o.store[k].status == Submitted
      && o.store[k].score == Some(score)
  {
  }

  /** A rejected row can be submitted again and is then SUBMITTED, with its score column unchanged. */
  lemma ResubmitAfterRejection(db: Db, k: Key, comments: Option<string>, t1: Time,
                               catalog: map<string, Activity>, userIds: set<string>, files: Option<seq<string>>, t2: Time)
    requires k in db.submissions && k.userId != "" && k.activityId in catalog && k.activityId != ""
    requires k.userId in userIds
    ensures var rejected := Reject(db, k, comments, t1).value.submissions;
      var o := Submit(rejected, catalog, userIds, SubmitRequest(Some(k.userId), Some(k.activityId), files), t2);
      && o.store[k].status == Submitted
      && o.store[k].score == db.submissions[k].score
  {
  }
}
