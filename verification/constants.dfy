/** The application's fixed tables: grade bands, member levels, status keys, system limits. */
module Constants {
  import opened DbTypes

  /** A grade together with the inclusive percentage range it names. */
  datatype GradeBand = GradeBand(grade: Grade, min: int, max: int)

  /** `GRADE_CRITERIA`, in declaration order A, B, C, D, F. */
  const GradeCriteria: seq<GradeBand> := [
    GradeBand(A, 90, 100),
    GradeBand(B, 80, 89),
    GradeBand(C, 70, 79),
    GradeBand(D, 60, 69),
    GradeBand(F, 0, 59)
  ]

  /** A member level and the least total score it stands for. */
  datatype LevelThreshold = LevelThreshold(level: MemberLevel, minScore: int)

  /** `MEMBER_LEVELS`, in declaration order. */
  const MemberLevels: seq<LevelThreshold> := [
    LevelThreshold(Beginner, 0),
    LevelThreshold(Intermediate, 500),
    LevelThreshold(Advanced, 1500),
    LevelThreshold(Expert, 3000)
  ]

  /** `SUBMISSION_STATUS`: the badge variant each status is displayed with. */
  const SubmissionStatusBadge: map<SubmissionStatus, string> := map[
    NotStarted := "secondary",
    Submitted := "warning",
    Approved := "success",
    Rejected := "danger"
  ]

  /** `SUBMISSION_STATUS`: the colour of each status pill. */
  const SubmissionStatusColor: map<SubmissionStatus, string> := map[
    NotStarted := "#9ca3af",
    Submitted := "#f59e0b",
    Approved := "#10b981",
    Rejected := "#ef4444"
  ]

  /** Upload limits: 10 MiB per file and the accepted MIME types. */
  const MaxFileSize := 10 * 1024 * 1024
  const AllowedFileTypes: seq<string> := [
    "application/pdf",
    "application/msword",
    "application/vnd.openxmlformats-officedocument.wordprocessingml.document",
    "application/vnd.ms-excel",
    "application/vnd.openxmlformats-officedocument.spreadsheetml.sheet",
    "image/jpeg",
    "image/png",
    "image/gif"
  ]

  /** `ROUTES` that the middleware guards or redirects to. */
  const LoginRoute := "/login"
  const RegisterRoute := "/register"
  const DashboardRoute := "/"
  const ProfileRoute := "/profile"
  const ActivitiesRoute := "/activities"
  const AdminDashboardRoute := "/admin"

  /** `SYSTEM_CONFIG` */
  const TotalMembers := 600
  const TotalActivities := 50
  const MaxFileAttachments := 5
  const SessionTimeout := 24 * 60 * 60

  const DefaultPageSize := 10
  const AdminTablePageSize := 20

  /** Every band is non-empty. */
  lemma BandsNonEmpty()
    ensures forall i :: 0 <= i < |GradeCriteria| ==> GradeCriteria[i].min <= GradeCriteria[i].max
  {
  }

  /**
   * Consecutive bands abut with no gap (each band starts one above where the
   * next, lower band ends), the lowest starts at 0 and the highest ends at 100.
   */
  lemma BandsContiguous()
    ensures forall i :: 0 <= i < |GradeCriteria| - 1 ==> GradeCriteria[i + 1].max + 1 == GradeCriteria[i].min
    ensures GradeCriteria[|GradeCriteria| - 1].min == 0 && GradeCriteria[0].max == 100
  {
  }

  predicate InBand(b: GradeBand, n: int) {
    b.min <= n <= b.max
  }

  /** No percentage lies in two bands. */
  lemma BandsDisjoint()
    ensures forall i, j, n :: 0 <= i < j < |GradeCriteria| && InBand(GradeCriteria[i], n) ==> !InBand(GradeCriteria[j], n)
  {
  }

  /** Every integer percentage from 0 to 100 lies in some band, and no other integer does. */
  lemma BandsCover(n: int)
    ensures 0 <= n <= 100 <==> exists i :: 0 <= i < |GradeCriteria| && InBand(GradeCriteria[i], n)
  {
    if 0 <= n <= 100 {
      if n >= 90 { assert InBand(GradeCriteria[0], n); }
      else if n >= 80 { assert InBand(GradeCriteria[1], n); }
      else if n >= 70 { assert InBand(GradeCriteria[2], n); }
      else if n >= 60 { assert InBand(GradeCriteria[3], n); }
      else { assert InBand(GradeCriteria[4], n); }
    }
  }

  /** Level thresholds strictly increase from 0. */
  lemma LevelsIncreasing()
    ensures MemberLevels[0].minScore == 0
    ensures forall i, j :: 0 <= i < j < |MemberLevels| ==> MemberLevels[i].minScore < MemberLevels[j].minScore
  {
  }

  /** The status table has exactly one entry per submission status. */
  lemma StatusTableComplete()
    ensures forall st: SubmissionStatus :: st in SubmissionStatusBadge && st in SubmissionStatusColor
    ensures |SubmissionStatusBadge| == 4
  {
    assert SubmissionStatusBadge.Keys == {NotStarted, Submitted, Approved, Rejected};
    forall st: SubmissionStatus
      ensures st in SubmissionStatusBadge && st in SubmissionStatusColor
    {
      match st
      case NotStarted =>
      case Submitted =>
      case Approved =>
      case Rejected =>
    }
  }
}
