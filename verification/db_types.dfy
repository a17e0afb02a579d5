/**
 * The persistent entities, mirroring the Prisma-backed types of the
 * application (users, activities, submissions and per-activity badge rows).
 */
module DbTypes {
  import opened Wrappers

  datatype UserRole = Member | Admin

  /** The closed set of states a submission row can be in. */
  datatype SubmissionStatus = NotStarted | Submitted | Approved | Rejected

  datatype Grade = A | B | C | D | F

  datatype MemberLevel = Beginner | Intermediate | Advanced | Expert

  /** An instant, in milliseconds since the epoch. */
  type Time = int

  datatype User = User(
    id: string,
    email: string,
    name: string,
    password: string,
    role: UserRole,
    totalScore: int,
    level: MemberLevel,
    createdAt: Time)

  /** An activity row; the window it is open for runs from `startDate` to `endDate`. */
  datatype Activity = Activity(
    id: string,
    title: string,
    description: Option<string>,
    maxScore: int,
    gradeLevel: Grade,
    startDate: Time,
    endDate: Time,
    createdAt: Time)

  /** One learner's work on one activity. `score` is a nullable integer column. */
  datatype Submission = Submission(
    userId: string,
    activityId: string,
    status: SubmissionStatus,
    submittedDate: Option<Time>,
    approvalDate: Option<Time>,
    score: Option<int>,
    comments: Option<string>,
    fileUrls: seq<string>,
    createdAt: Time)

  /** A per-activity badge row carrying the points awarded for it. */
  datatype BadgeRow = BadgeRow(userId: string, activityId: string, points: int, earnedDate: Time)

  /** The compound unique key `userId_activityId` of the submission table. */
  datatype Key = Key(userId: string, activityId: string)

  function KeyOf(s: Submission): Key {
    Key(s.userId, s.activityId)
  }

  /** The submission table, indexed by its compound unique key. */
  type Store = map<Key, Submission>

  /** Every row is filed under its own (userId, activityId). */
  ghost predicate WellFormed(store: Store) {
    forall k :: k in store ==> KeyOf(store[k]) == k
  }

  /** The whole database as far as the review operations can see it. */
  datatype Db = Db(submissions: Store, badges: seq<BadgeRow>, users: seq<User>)
}
