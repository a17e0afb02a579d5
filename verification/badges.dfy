/**
 * The milestone badges of the badges route: seven fixed badge ids and the
 * rules that decide, from one learner's submission rows, which are earned.
 */
module Badges {
  import opened Wrappers
  import opened DbTypes
  import Http
  import Seqs
  import Constants
  import Ordering
  import Submissions

  datatype BadgeId =
    | FirstSubmission
    | FiveSubmissions
    | TenSubmissions
    | TwentySubmissions
    | AllApproved
    | PerfectScore
    | HighScore

  /** `BADGES`, in declaration order. */
  const AllBadges: seq<BadgeId> := [
    FirstSubmission, FiveSubmissions, TenSubmissions, TwentySubmissions,
    AllApproved, PerfectScore, HighScore
  ]

  /** The id string each badge is reported under. */
  function IdOf(b: BadgeId): string {
    match b
    case FirstSubmission => "first_submission"
    case FiveSubmissions => "five_submissions"
    case TenSubmissions => "ten_submissions"
    case TwentySubmissions => "twenty_submissions"
    case AllApproved => "all_approved"
    case PerfectScore => "perfect_score"
    case HighScore => "high_score"
  }

  /** Where a badge stands in `BADGES`. */
  function Position(b: BadgeId): (i: nat)
    ensures i < |AllBadges| && AllBadges[i] == b
  {
    match b
    case FirstSubmission => 0
    case FiveSubmissions => 1
    case TenSubmissions => 2
    case TwentySubmissions => 3
    case AllApproved => 4
    case PerfectScore => 5
    case HighScore => 6
  }

  /** The number of approved rows `all_approved` asks for, exactly. */
  const AllApprovedTarget := 50

  /** The number of high-scoring rows `high_score` asks for, at least. */
  const HighScoreTarget := 10

  /** `s.score` is truthy: present and not zero. */
  predicate HasScore(s: Submission) {
    s.score.Some? && s.score.value != 0
  }

  /**
   * `score / maxScore >= 0.8` on exact numbers. A zero `maxScore` makes the
   * quotient an infinity whose sign is the score's.
   */
  predicate ReachesEightyPercent(score: int, maxScore: int) {
    if maxScore == 0 then score > 0
    else (score as real) / (maxScore as real) >= 0.8
  }

  /** A scored row whose activity exists and whose score equals that activity's maximum. */
  predicate IsPerfect(s: Submission, maxScores: map<string, int>) {
    HasScore(s) && s.activityId in maxScores && s.score.value == maxScores[s.activityId]
  }

  /** A scored row whose activity exists and whose score is at least 80% of the maximum. */
  predicate IsHigh(s: Submission, maxScores: map<string, int>) {
    HasScore(s) && s.activityId in maxScores && ReachesEightyPercent(s.score.value, maxScores[s.activityId])
  }

  function ApprovedCount(subs: seq<Submission>): nat {
    Seqs.Count(subs, (s: Submission) => s.status == Approved)
  }

  function PerfectCount(subs: seq<Submission>, maxScores: map<string, int>): nat {
    Seqs.Count(subs, (s: Submission) => IsPerfect(s, maxScores))
  }

  function HighCount(subs: seq<Submission>, maxScores: map<string, int>): nat {
    Seqs.Count(subs, (s: Submission) => IsHigh(s, maxScores))
  }

  /** The condition each badge stands for. Row counts include rows of every status. */
  ghost predicate Earns(b: BadgeId, subs: seq<Submission>, maxScores: map<string, int>) {
    match b
    case FirstSubmission => |subs| >= 1
    case FiveSubmissions => |subs| >= 5
    case TenSubmissions => |subs| >= 10
    case TwentySubmissions => |subs| >= 20
    case AllApproved => ApprovedCount(subs) == AllApprovedTarget
    case PerfectScore => exists i :: 0 <= i < |subs| && IsPerfect(subs[i], maxScores)
    case HighScore => HighCount(subs, maxScores) >= HighScoreTarget
  }

  /** The test the route applies for one badge, as it writes it. */
  predicate Passes(b: BadgeId, subs: seq<Submission>, maxScores: map<string, int>) {
    match b
    case FirstSubmission => |subs| >= 1
    case FiveSubmissions => |subs| >= 5
    case TenSubmissions => |subs| >= 10
    case TwentySubmissions => |subs| >= 20
    case AllApproved => ApprovedCount(subs) == AllApprovedTarget
    case PerfectScore => PerfectCount(subs, maxScores) >= 1
    case HighScore => HighCount(subs, maxScores) >= HighScoreTarget
  }

  /** The badges from position `k` of `BADGES` on that pass `test`, in order. */
  function EarnedFrom(k: nat, test: BadgeId -> bool): (earned: seq<BadgeId>)
    requires k <= |AllBadges|
    ensures forall b :: b in earned <==> Position(b) >= k && test(b)
    ensures forall i, j :: 0 <= i < j < |earned| ==> Position(earned[i]) < Position(earned[j])
    ensures |earned| <= |AllBadges| - k
    decreases |AllBadges| - k
  {
    if k == |AllBadges| then []
    else
      var b := AllBadges[k];
      assert Position(b) == k;
      (if test(b) then [b] else []) + EarnedFrom(k + 1, test)
  }

  /** The route's test for each badge on one learner's rows. */
  function TestsOn(subs: seq<Submission>, maxScores: map<string, int>): BadgeId -> bool {
    (b: BadgeId) => Passes(b, subs, maxScores)
  }

  /**
   * The earned-badge computation: each badge's test in `BADGES` order, the
   * id pushed when it passes.
   */
  function Evaluate(subs: seq<Submission>, maxScores: map<string, int>): (earned: seq<BadgeId>)
    ensures forall b :: b in earned <==> Earns(b, subs, maxScores)
    ensures forall i, j :: 0 <= i < j < |earned| ==> Position(earned[i]) < Position(earned[j])
    ensures |earned| <= |AllBadges|
  {
    assert forall b :: Passes(b, subs, maxScores) <==> Earns(b, subs, maxScores) by {
      forall b {
        PassesIffEarns(b, subs, maxScores);
      }
    }
    EarnedFrom(0, TestsOn(subs, maxScores))
  }

  /** The route's count-based tests decide exactly the badge conditions. */
  lemma PassesIffEarns(b: BadgeId, subs: seq<Submission>, maxScores: map<string, int>)
    ensures Passes(b, subs, maxScores) <==> Earns(b, subs, maxScores)
  {
    if b == PerfectScore {
      var p := (s: Submission) => IsPerfect(s, maxScores);
      assert PerfectCount(subs, maxScores) == Seqs.Count(subs, p);
      Seqs.CountZero(subs, p);
    }
  }

  /** Distinct badges are reported under distinct ids. */
  lemma IdsDistinct(b: BadgeId, c: BadgeId)
    requires b != c
    ensures IdOf(b) != IdOf(c)
  {
  }

  /** The `data` of a successful badges reply. */
  datatype BadgeReport = BadgeReport(
    userId: string,
    allBadges: seq<BadgeId>,
    earnedBadges: seq<BadgeId>,
    totalBadges: nat,
    earnedCount: nat)

  /**
   * `rows` lists the rows `findMany({ where: { userId } })` returns: each row
   * of that user once, in some order.
   */
  ghost predicate RowsOfUser(store: Store, userId: string, rows: seq<Submission>) {
    && Ordering.Distinct(rows)
    && forall s :: s in rows <==> s in store.Values && s.userId == userId
  }

  /** Any two listings of one user's rows are permutations of each other, so they earn the same badges. */
  lemma ListingsAgree(store: Store, userId: string, a: seq<Submission>, b: seq<Submission>, maxScores: map<string, int>)
    requires RowsOfUser(store, userId, a) && RowsOfUser(store, userId, b)
    ensures multiset(a) == multiset(b)
    ensures Evaluate(a, maxScores) == Evaluate(b, maxScores)
  {
    Ordering.DistinctPermutation(a, b);
    EvaluateOrderIndependent(a, b, maxScores);
  }

  /**
   * `GET /api/badges?userId=…`. A missing or empty `userId` is answered with
   * `success: false` (and the default status 200) before any row is read.
   * Otherwise the user's rows are read from the submission table, in whatever
   * order the database returns them, and evaluated.
   */
  method GetBadges(userId: Option<string>, store: Store, maxScores: map<string, int>) returns (r: Http.Reply<BadgeReport>)
    requires WellFormed(store)
    ensures r.Err? <==> userId.None? || userId.value == ""
    ensures r.Err? ==> r.status == 200 && r.message == "userId is required"
    ensures r.Ok? ==> r.status == 200 && r.data.userId == userId.value
    ensures r.Ok? ==> forall rows :: RowsOfUser(store, userId.value, rows) ==>
              forall b :: b in r.data.earnedBadges <==> Earns(b, rows, maxScores)
    ensures r.Ok? ==> forall rows :: RowsOfUser(store, userId.value, rows) ==>
              r.data.earnedBadges == Evaluate(rows, maxScores)
    ensures r.Ok? ==> r.data.allBadges == AllBadges && r.data.totalBadges == 7
    ensures r.Ok? ==> r.data.earnedCount == |r.data.earnedBadges| <= r.data.totalBadges
  {
    if userId.None? || userId.value == "" {
      return Http.Err(200, "userId is required");
    }
    var q := Submissions.Query(userId, None, None);
    var listed := Submissions.List(store, q);
    var rows := listed.data;
    assert RowsOfUser(store, userId.value, rows);
    var earned := Evaluate(rows, maxScores);
    forall other | RowsOfUser(store, userId.value, other)
      ensures earned == Evaluate(other, maxScores)
    {
      ListingsAgree(store, userId.value, rows, other, maxScores);
    }
    r := Http.Ok(200, BadgeReport(userId.value, AllBadges, earned, |AllBadges|, |earned|));
  }

  /** After a successful submit, the submitter's rows earn `first_submission`. */
  lemma SubmitEarnsFirstSubmission(store: Store, catalog: map<string, Activity>, userIds: set<string>, req: Submissions.SubmitRequest,
                                   now: Time, rows: seq<Submission>, maxScores: map<string, int>)
    requires Submissions.Submit(store, catalog, userIds, req, now).reply.Ok?
    requires RowsOfUser(Submissions.Submit(store, catalog, userIds, req, now).store, req.userId.value, rows)
    ensures FirstSubmission in Evaluate(rows, maxScores)
  {
    var o := Submissions.Submit(store, catalog, userIds, req, now);
    var k := Key(req.userId.value, req.activityId.value);
    assert o.store[k] in o.store.Values;
    assert o.store[k] in rows;
  }

  /** A badge is in the evaluation exactly when the route's test for it passes. */
  lemma InEvaluate(b: BadgeId, subs: seq<Submission>, maxScores: map<string, int>)
    ensures b in Evaluate(subs, maxScores) <==> Passes(b, subs, maxScores)
  {
    PassesIffEarns(b, subs, maxScores);
  }

  /** The count tiers are nested: twenty implies ten implies five implies first. */
  lemma TiersNested(subs: seq<Submission>, maxScores: map<string, int>)
    ensures var e := Evaluate(subs, maxScores);
      && (TwentySubmissions in e ==> TenSubmissions in e)
      && (TenSubmissions in e ==> FiveSubmissions in e)
      && (FiveSubmissions in e ==> FirstSubmission in e)
  {
    InEvaluate(TwentySubmissions, subs, maxScores);
    InEvaluate(TenSubmissions, subs, maxScores);
    InEvaluate(FiveSubmissions, subs, maxScores);
    InEvaluate(FirstSubmission, subs, maxScores);
  }

  /**
   * A score badge needs the rows it counts: `perfect_score` implies
   * `first_submission`, `high_score` implies `ten_submissions`, and
   * `all_approved` implies `twenty_submissions`.
   */
  lemma ScoreBadgesImplyTiers(subs: seq<Submission>, maxScores: map<string, int>)
    ensures var e := Evaluate(subs, maxScores);
      && (PerfectScore in e ==> FirstSubmission in e)
      && (HighScore in e ==> TenSubmissions in e)
      && (AllApproved in e ==> TwentySubmissions in e)
  {
    EarnsScoreTiers(subs, maxScores);
  }

  lemma EarnsScoreTiers(subs: seq<Submission>, maxScores: map<string, int>)
    ensures Earns(PerfectScore, subs, maxScores) ==> Earns(FirstSubmission, subs, maxScores)
    ensures Earns(HighScore, subs, maxScores) ==> Earns(TenSubmissions, subs, maxScores)
    ensures Earns(AllApproved, subs, maxScores) ==> Earns(TwentySubmissions, subs, maxScores)
  {
    assert HighCount(subs, maxScores) <= |subs|;
    assert ApprovedCount(subs) <= |subs|;
  }

  /** The rows' order does not matter: any permutation earns the same badges. */
  lemma EvaluateOrderIndependent(a: seq<Submission>, b: seq<Submission>, maxScores: map<string, int>)
    requires multiset(a) == multiset(b)
    ensures Evaluate(a, maxScores) == Evaluate(b, maxScores)
  {
    assert |a| == |multiset(a)| == |multiset(b)| == |b|;
    Seqs.CountPermutation(a, b, (s: Submission) => s.status == Approved);
    Seqs.CountPermutation(a, b, (s: Submission) => IsPerfect(s, maxScores));
    Seqs.CountPermutation(a, b, (s: Submission) => IsHigh(s, maxScores));
    assert forall c :: Passes(c, a, maxScores) == Passes(c, b, maxScores);
    EarnedFromCongruent(0, TestsOn(a, maxScores), TestsOn(b, maxScores));
  }

  /** Tests that agree on every badge select the same badges. */
  lemma {:induction false} EarnedFromCongruent(k: nat, t: BadgeId -> bool, u: BadgeId -> bool)
    requires k <= |AllBadges|
    requires forall c :: t(c) == u(c)
    ensures EarnedFrom(k, t) == EarnedFrom(k, u)
    decreases |AllBadges| - k
  {
    if k < |AllBadges| {
      EarnedFromCongruent(k + 1, t, u);
    }
  }

  /**
   * More rows never take a badge away, except `all_approved`, whose test is an
   * equality.
   */
  lemma MoreRowsKeepBadges(a: seq<Submission>, extra: seq<Submission>, maxScores: map<string, int>, b: BadgeId)
    requires b != AllApproved && b in Evaluate(a, maxScores)
    ensures b in Evaluate(a + extra, maxScores)
  {
    Seqs.CountAppend(a, extra, (s: Submission) => IsPerfect(s, maxScores));
    Seqs.CountAppend(a, extra, (s: Submission) => IsHigh(s, maxScores));
    InEvaluate(b, a, maxScores);
    InEvaluate(b, a + extra, maxScores);
  }

  /** The 51st approved row revokes `all_approved`. */
  lemma AllApprovedRevokedByOneMore(a: seq<Submission>, x: Submission, maxScores: map<string, int>)
    requires ApprovedCount(a) == AllApprovedTarget && x.status == Approved
    ensures AllApproved in Evaluate(a, maxScores)
    ensures AllApproved !in Evaluate(a + [x], maxScores)
  {
    Seqs.CountAppend(a, [x], (s: Submission) => s.status == Approved);
    InEvaluate(AllApproved, a, maxScores);
    InEvaluate(AllApproved, a + [x], maxScores);
  }

  /** For a positive maximum the 80% test is the integer test 5 * score >= 4 * maxScore. */
  lemma EightyPercentIntegers(score: int, maxScore: int)
    requires maxScore > 0
    ensures ReachesEightyPercent(score, maxScore) <==> 5 * score >= 4 * maxScore
  {
    var q := (score as real) / (maxScore as real);
    var m := maxScore as real;
    assert q * m == score as real;
    if q >= 0.8 {
      assert q * m >= 0.8 * m;
    } else {
      assert q * m < 0.8 * m;
    }
  }

  /** `all_approved` compares against the system's configured number of activities. */
  lemma AllApprovedTargetIsTotalActivities()
    ensures AllApprovedTarget == Constants.TotalActivities
  {
  }

  function Graded(activityId: string, score: int): Submission {
    Submission("L", activityId, Approved, Some(0), Some(1), Some(score), None, [], 0)
  }

  /** Five approved rows scored 100, 80, 70, 50 and 90. */
  function FiveRows(): seq<Submission> {
    [Graded("A1", 100), Graded("A2", 80), Graded("A3", 70), Graded("A4", 50), Graded("A5", 90)]
  }

  /** Every activity of `FiveRows` is scored out of 100. */
  predicate OutOfHundred(maxScores: map<string, int>) {
    forall a :: a in ["A1", "A2", "A3", "A4", "A5"] ==> a in maxScores && maxScores[a] == 100
  }

  /** Fewer rows than a score tier counts cannot pass it. */
  lemma FewRowsFailScoreTiers(subs: seq<Submission>, maxScores: map<string, int>)
    ensures |subs| < HighScoreTarget ==> !Passes(HighScore, subs, maxScores)
    ensures |subs| < AllApprovedTarget ==> !Passes(AllApproved, subs, maxScores)
  {
    assert HighCount(subs, maxScores) <= |subs|;
    assert ApprovedCount(subs) <= |subs|;
  }

  lemma FiveRowsTests(maxScores: map<string, int>)
    requires OutOfHundred(maxScores)
    ensures Passes(FirstSubmission, FiveRows(), maxScores) && Passes(FiveSubmissions, FiveRows(), maxScores)
    ensures !Passes(TenSubmissions, FiveRows(), maxScores) && !Passes(TwentySubmissions, FiveRows(), maxScores)
    ensures !Passes(AllApproved, FiveRows(), maxScores)
    ensures Passes(PerfectScore, FiveRows(), maxScores)
    ensures !Passes(HighScore, FiveRows(), maxScores)
  {
    var subs := FiveRows();
    assert IsPerfect(subs[0], maxScores);
    FivePerfectRows(subs, maxScores);
  }

  /** Any five rows, the first of them perfect, pass exactly the tests the five-row example passes. */
  lemma FivePerfectRows(subs: seq<Submission>, maxScores: map<string, int>)
    requires |subs| == 5 && IsPerfect(subs[0], maxScores)
    ensures Passes(FirstSubmission, subs, maxScores) && Passes(FiveSubmissions, subs, maxScores)
    ensures !Passes(TenSubmissions, subs, maxScores) && !Passes(TwentySubmissions, subs, maxScores)
    ensures !Passes(AllApproved, subs, maxScores)
    ensures Passes(PerfectScore, subs, maxScores)
    ensures !Passes(HighScore, subs, maxScores)
  {
    FewRowsFailScoreTiers(subs, maxScores);
    PassesIffEarns(PerfectScore, subs, maxScores);
  }

  /**
   * The five rows earn the first two count tiers and `perfect_score`, and no
   * other badge; in particular not `high_score`: three rows reach 80%, and ten
   * are needed.
   */
  lemma FiveGradedRows(maxScores: map<string, int>)
    requires OutOfHundred(maxScores)
    ensures forall b :: b in Evaluate(FiveRows(), maxScores) <==> b in {FirstSubmission, FiveSubmissions, PerfectScore}
  {
    var subs := FiveRows();
    assert IsPerfect(subs[0], maxScores);
    FivePerfectRowsEarn(subs, maxScores);
  }

  /** Any five rows, the first of them perfect, earn exactly the badges the five-row example earns. */
  lemma FivePerfectRowsEarn(subs: seq<Submission>, maxScores: map<string, int>)
    requires |subs| == 5 && IsPerfect(subs[0], maxScores)
    ensures forall b :: b in Evaluate(subs, maxScores) <==> b in {FirstSubmission, FiveSubmissions, PerfectScore}
  {
    FivePerfectRows(subs, maxScores);
    forall b
      ensures Earns(b, subs, maxScores) <==> b in {FirstSubmission, FiveSubmissions, PerfectScore}
    {
      PassesIffEarns(b, subs, maxScores);
    }
  }
}
