# LMS core, modelled in Dafny

A learning-management system. Members submit work for activities, and
administrators approve or reject it with a score. Members earn milestone
badges. This project models the system's decision rules as pure Dafny
functions over immutable data and proves properties about them:

- **badges**: the earned-badge evaluation of `GET /api/badges`;
- **submissions**: the submit upsert and filtered listing of `/api/submissions`,
  and the `approve`/`reject` updates of the submission service;
- **members and activities**: their list and create routes, the matching
  service reads, and the pagination arithmetic they share;
- **utilities**: `calculatePercentage`, `getGradeFromPercentage`, `slugify`,
  the inline grade of the badge grid, and the constant tables;
- **route guard**: the decision of `middleware.ts` and its path matcher;
- **activity card**: its progress value, deadline note and submit button.

The database is a parameter. The submission table is a
`map<Key(userId, activityId), Submission>`, because `(userId, activityId)` is
its unique key. The user and activity tables are sequences, and an activity's
`maxScore` is a map from activity id. HTTP replies are `Http.Reply`, either
`Ok(status, data)` or `Err(status, message)`. The clock (`now`), generated ids
(`newId`) and date parsing (`parseDate`) are parameters too. Every operation
is a function of its inputs, so reading badges or listing rows cannot change
the store.

Files:

| file | module | contents |
|---|---|---|
| `wrappers.dfy` | `Wrappers` | `Option` and `Result` |
| `db_types.dfy` | `DbTypes` | users, activities, submissions, badge rows, the submission table |
| `seqs.dfy` | `Seqs` | counting, filtering and substring tests |
| `ordering.dfy` | `Ordering` | descending order on a key; insertion sort |
| `constants.dfy` | `Constants` | grade bands, level thresholds, status table, system configuration |
| `utils.dfy` | `Utils` | rounding, percentages and grades |
| `slug.dfy` | `Slug` | `slugify` and its steps |
| `http.dfy` | `Http` | replies |
| `pagination.dfy` | `Pagination` | `skip`, `take` and `totalPages` |
| `badges.dfy` | `Badges` | the badge list and the earned-badge evaluation |
| `submissions.dfy` | `Submissions` | submit, list, approve, reject |
| `members.dfy` | `Members` | the members routes and `getAllMembers` |
| `activities.dfy` | `Activities` | the activities routes and `activityService.getAll` |
| `middleware.dfy` | `Middleware` | the route guard and its matcher |
| `activity_card.dfy` | `ActivityCard` | the activity card |

The code has no transactional review step, no status guards and no score
bounds. The service's `approve` and `reject` (src/services/index.ts:129-151)
write only the submission row: they create no badge rows and do not touch
`totalScore`. The `PUT /api/submissions/[id]` route, which does both on
approval, is not part of this model. `all_approved` asks for exactly 50
approved rows.

## Model

| member | source | states |
|---|---|---|
| Badges.IdsDistinct | src/app/api/badges/route.ts:20-70 | the seven badges of `BADGES` have pairwise different ids |
| Badges.Evaluate | src/app/api/badges/route.ts:93-149 | a badge is earned iff its condition holds: at least 1/5/10/20 rows of any status; exactly 50 approved rows; some scored row equal to its activity's maximum; at least 10 scored rows at 80% or more. Earned ids come in `BADGES` order, without repeats, at most 7 of them |
| Badges.EarnedFrom | src/app/api/badges/route.ts:93-149 | the push-as-you-go list from one position on holds exactly the passing badges at or after it, in strictly increasing `BADGES` position |
| Badges.PassesIffEarns | src/app/api/badges/route.ts:122-149 | the route's `filter(Boolean).length >= 1` test for perfect scores decides "some row is perfect"; the other tests are their conditions |
| Badges.InEvaluate | src/app/api/badges/route.ts:93-149 | a badge is in the reply exactly when the route's own test for it passes |
| Badges.GetBadges | src/app/api/badges/route.ts:72-160 | a missing or empty `userId` gives `success: false` with "userId is required" and reads nothing. Otherwise the user's rows are read from the keyed submission table, each once. The earned ids are the badges whose condition holds on those rows, and they are the same in whatever order the rows come. `allBadges` is `BADGES`, `totalBadges` is 7 and `earnedCount` is the number of earned ids |
| Badges.ListingsAgree | src/app/api/badges/route.ts:88-90 | two listings of one user's rows, each row once, are permutations of each other and earn the same badges |
| Badges.SubmitEarnsFirstSubmission | src/app/api/badges/route.ts:96-98 | after a successful submit, the badges read for the submitter include `first_submission` |
| Badges.TiersNested | src/app/api/badges/route.ts:96-113 | twenty rows ⇒ ten ⇒ five ⇒ first |
| Badges.ScoreBadgesImplyTiers | src/app/api/badges/route.ts:96-149 | `perfect_score` implies `first_submission`, `high_score` implies `ten_submissions`, `all_approved` implies `twenty_submissions` |
| Badges.EvaluateOrderIndependent | src/app/api/badges/route.ts:93-149 | any permutation of the rows earns the same ids |
| Badges.EarnedFromCongruent | src/app/api/badges/route.ts:93-149 | tests that agree on every badge select the same list |
| Badges.MoreRowsKeepBadges | src/app/api/badges/route.ts:96-149 | adding rows never removes a badge other than `all_approved` |
| Badges.AllApprovedRevokedByOneMore | src/app/api/badges/route.ts:116-119 | the 51st approved row takes `all_approved` away, because the test is an equality |
| Badges.EightyPercentIntegers | src/app/api/badges/route.ts:144 | for a positive maximum, `score / maxScore >= 0.8` iff `5 * score >= 4 * maxScore` |
| Badges.AllApprovedTargetIsTotalActivities | src/app/api/badges/route.ts:117 | the 50 of `all_approved` is `SYSTEM_CONFIG.TOTAL_ACTIVITIES` |
| Badges.FiveRowsTests | src/app/api/badges/route.ts:96-149 | five approved rows scored 100, 80, 70, 50, 90 out of 100 pass the first, five-row and perfect-score tests and fail the others |
| Badges.FiveGradedRows | src/app/api/badges/route.ts:93-149 | those five rows earn exactly `first_submission`, `five_submissions` and `perfect_score`; three rows at 80% do not reach the 10 `high_score` needs |
| Badges.FivePerfectRowsEarn | src/app/api/badges/route.ts:93-149 | any five rows whatever their status or scores, the first of them perfect, earn exactly `first_submission`, `five_submissions` and `perfect_score` |
| Submissions.Submit | src/app/api/submissions/route.ts:8-67 | missing ids give 400 and unknown activities 404, with the table unchanged. A user id with no user gives 500 "Failed to create submission", with the table unchanged, because the upsert breaks the row's reference to its user. The reply is 201 exactly when both ids are given and both exist. Otherwise the row for (userId, activityId) is SUBMITTED from any prior status, with `submittedDate` now and `fileUrls` as given or `[]`. An existing row keeps score, comments, approval date and creation time; a new row has none of them. Every other row is unchanged, and exactly one row has that key |
| Submissions.List | src/app/api/submissions/route.ts:75-108 | a status naming no enum value gives 500. Otherwise each row is returned once iff it passes every non-empty filter, newest first |
| Submissions.Approve | src/services/index.ts:129-139 | an unknown row fails. Otherwise status becomes APPROVED from any status, with the given score unbounded and the approval date now. Comments are replaced only when given; other columns, other rows, badge rows and users are unchanged |
| Submissions.Reject | src/services/index.ts:142-151 | as approve, but the status is REJECTED and the score column keeps its value |
| Submissions.SubmitIdempotent | src/app/api/submissions/route.ts:33-52 | submitting the same request twice at one instant leaves what one submit leaves |
| Submissions.SubmitIgnoresActivityFields | src/app/api/submissions/route.ts:21-30 | only the activity's existence matters, not its dates or maximum |
| Submissions.ResubmitAfterApproval | src/app/api/submissions/route.ts:40-44 | an approved row submitted again is SUBMITTED and still carries the approved score |
| Submissions.ResubmitAfterRejection | src/app/api/submissions/route.ts:40-44 | a rejected row submitted again is SUBMITTED with its score column unchanged |
| Pagination.SkipNonNegative | src/services/index.ts:9 | `(page - 1) * limit` is at least 0 from page 1 on, and grows by `limit` per page |
| Pagination.TotalPages | src/app/api/members/route.ts:55 | `Math.ceil(total / limit)`: the fewest pages of `limit` rows that hold `total` rows |
| Pagination.Window | src/app/api/members/route.ts:34-35 | `skip`/`take` returns the rows from position `skip`, at most `take` of them |
| Pagination.PagesArePrefix | src/app/api/activities/route.ts:14-19 | pages 1 to n together are the first n·limit rows |
| Pagination.PagesCoverAll | src/app/api/activities/route.ts:31 | pages 1 to `totalPages` together are all rows, in order |
| Pagination.PageEmptyIffBeyondLast | src/app/api/members/route.ts:55 | a page is empty iff its number exceeds `totalPages` |
| Members.Views | src/app/api/members/route.ts:26-33 | the listed columns are taken from the same user, position by position |
| Members.Ranked | src/app/api/members/route.ts:17-37 | the matching users, each exactly once (a permutation of the filtered table), by descending total score |
| Members.WindowOfRanked | src/app/api/members/route.ts:34-36 | a page of them is still descending, matching and at most `limit` long |
| Members.List | src/app/api/members/route.ts:8-62 | page and limit default to 1 and 20. A page below 1 gives 500. Otherwise `total` counts members whose name or email contains the search, and `totalPages` is its ceiling over `limit`. The page is the `skip`/`take` window of those members ranked by descending score, shown without passwords |
| Members.ListRowsRanked | src/app/api/members/route.ts:15-36 | a page holds at most `limit` rows, each the view of a matching member, by descending score |
| Members.RoutePage | src/app/api/members/route.ts:15-36 | page n of the route shows window n of the ranked matching members |
| Members.AllPagesListEveryMember | src/app/api/members/route.ts:17-55 | page k of the route, for k from 1 to `totalPages`, is the k-th window of one ranking of the matching members, and the route's pages 1 to `totalPages`, one after another, are the views of that whole ranking. The ranking holds every matching member exactly once, by descending score, ties in the model's fixed order |
| Members.RoutePagesJoin | src/app/api/members/route.ts:15-36 | when each route page k shows the views of page k of a ranking, the route's pages 1 to n, one after another, are the views of that ranking's pages 1 to n |
| Members.GetAllMembers | src/services/index.ts:50-62 | the `skip`/`take` window of the members ranked by descending score, at most `limit` long, with `total` counting members; a page below 1 fails |
| Members.AllServicePagesListEveryMember | src/services/index.ts:50-62 | the service's pages 1 to `ceil(total / limit)` return every member exactly once, by descending score, and no other user |
| Members.ServicePagesAreRankedPages | src/services/index.ts:50-62 | the service's pages 1 to n are the first n windows of the ranked members |
| Members.ServiceMatchesRoute | src/services/index.ts:50-62 | with an empty search the route returns the service's rows and total, and fails when it fails |
| Members.DefaultMatchesConstants | src/app/api/members/route.ts:12 | the default limit 20 is `ADMIN_TABLE_PAGE_SIZE` |
| Members.Create | src/app/api/members/route.ts:69-116 | a missing name, email or password gives 400 and creates nothing. An existing email gives 400 and creates nothing. Otherwise exactly one MEMBER with those fields, total score 0, level BEGINNER and the current time as creation time is appended, and id, name, email and role are returned with 201. Unique emails stay unique |
| Members.CreateIgnoresRequestedRole | src/app/api/members/route.ts:94-100 | the role in the request body has no effect |
| Members.CreateTwiceRefused | src/app/api/members/route.ts:82-91 | after a member is created, a second request with the same email gets "Email already exists" |
| Activities.ByNewest | src/app/api/activities/route.ts:20 | the table in descending `createdAt` order, the same rows |
| Activities.List | src/app/api/activities/route.ts:8-38 | page and limit default to 1 and 10. A page below 1 gives 500. Otherwise `total` is the number of activities whatever the page, `totalPages` is its ceiling over `limit`, and the page holds at most `limit` table rows, newest first |
| Activities.PageOfNewest | src/app/api/activities/route.ts:16-21 | a page is newest first, at most `limit` long, and made of table rows |
| Activities.WindowRows | src/app/api/activities/route.ts:16-21 | a window of the ordered table holds only table rows |
| Activities.WindowSorted | src/app/api/activities/route.ts:20 | a window of the ordered table is newest first |
| Activities.AllPagesListEveryActivity | src/app/api/activities/route.ts:14-31 | reading pages 1 to `totalPages` returns every activity exactly once |
| Activities.GetAll | src/services/index.ts:8-19 | `activityService.getAll`: page and limit default to 1 and 10 and are returned as given. The rows are the `skip`/`take` window of the table, newest first, at most `limit` of them, and `total` is the table size. A page below 1 fails |
| Activities.ServiceMatchesRoute | src/services/index.ts:8-19 | the service and the route agree on rows, total and failure |
| Activities.DefaultsMatchConstants | src/app/api/activities/route.ts:12 | the default limit 10 is `DEFAULT_PAGE_SIZE` |
| Activities.Create | src/app/api/activities/route.ts:45-82 | a falsy title, maximum score (0 included) or date gives 400 and creates nothing; an unparseable date gives 500 and creates nothing. Otherwise one activity is appended with the given fields, both dates parsed and the grade level defaulted to A |
| Activities.GradeLevelDefaultsToA | src/app/api/activities/route.ts:63 | leaving out the grade level is the same as asking for A |
| Middleware.Decide | src/middleware.ts:3-34 | redirects to `/login` iff the path starts with `/admin` or `/activities`, or is `/profile` or `/`, and there is no token. Redirects to `/` iff the path is `/login` or `/register` and there is a token. Otherwise passes |
| Middleware.RedirectTargetsAreRoutes | src/middleware.ts:9-31 | every redirect goes to `ROUTES.LOGIN` or `ROUTES.DASHBOARD` |
| Middleware.NoRedirectLoop | src/middleware.ts:4-33 | the target of a redirect passes with the same cookie |
| Middleware.AnyTokenOpensAdmin | src/middleware.ts:9-15 | any non-empty token reaches every `/admin` path; no role is checked |
| Middleware.ProfileSubpathsOpen | src/middleware.ts:18-22 | `/profile` is guarded but `/profile/edit` is not, since it is compared exactly |
| Middleware.Handle | src/middleware.ts:36-40 | paths outside the matcher are passed without a decision |
| Middleware.ApiBypassesMiddleware | src/middleware.ts:38 | every `/api…` path is excluded, whatever the cookie |
| Middleware.ProtectedPagesGuarded | src/middleware.ts:9-39 | every guarded page is inside the matcher, so without a token it redirects to `/login` |
| ActivityCard.CompletionPercentage | src/components/features/activities/activity-card.tsx:33-35 | 0 for an absent or zero score. Otherwise 100·score/max rounded half up, or an infinity of the score's sign when the maximum is 0 |
| ActivityCard.CompletionMatchesCalculatePercentage | src/components/features/activities/activity-card.tsx:33-35 | for a non-zero maximum the card shows `calculatePercentage(score or 0, max)` |
| ActivityCard.CompletionInRange | src/components/features/activities/activity-card.tsx:33-35 | a score between 0 and a positive maximum gives 0..100 |
| ActivityCard.Render | src/components/features/activities/activity-card.tsx:21-103 | the status defaults to NOT_STARTED and takes its colour from `SUBMISSION_STATUS`. The description shows only when non-empty, and the score shown is the score or 0. The deadline note shows iff the end date is before now; the submit button shows iff the status is NOT_STARTED and the deadline has not passed |
| ActivityCard.NoSubmitAfterDeadline | src/components/features/activities/activity-card.tsx:81 | past the deadline there is never a submit button |
| ActivityCard.SubmitOnlyWhenNotStarted | src/components/features/activities/activity-card.tsx:81 | SUBMITTED, APPROVED and REJECTED cards never offer submission |
| ActivityCard.DeadlineStaysPast | src/components/features/activities/activity-card.tsx:32 | once past, a deadline stays past |
| Utils.RoundRatio | src/lib/utils.ts:16 | `Math.round(n / d)`: the integer r with r − ½ ≤ n/d < r + ½ |
| Utils.CalculatePercentage | src/lib/utils.ts:14-17 | 0 for a zero total; for a positive total, 100·current/total rounded half up |
| Utils.PercentageInRange | src/lib/utils.ts:16 | for 0 ≤ current ≤ total and total > 0 the result is in 0..100 |
| Utils.GradeFromPercentage | src/lib/utils.ts:22-28 | A iff ≥ 90, B iff 80 ≤ p < 90, C iff 70 ≤ p < 80, D iff 60 ≤ p < 70, F iff < 60, for every real percentage |
| Utils.GradeMonotone | src/lib/utils.ts:22-28 | a higher percentage never gives a worse grade |
| Utils.BadgeGridGrade | src/components/features/badges/badge-grid.tsx:46 | the badge grid's inline grade is `getGradeFromPercentage` of the points |
| Utils.BandOf | src/lib/constants.ts:3-9 | the band found contains the value; none is found only when no band does |
| Utils.GradeAgreesWithCriteria | src/lib/utils.ts:22-28 | on 0..100 the grade is the grade of the `GRADE_CRITERIA` band containing the value; outside, no band applies |
| Slug.LowerChar | src/lib/utils.ts:85 | an ASCII capital becomes the small letter at the same place in the alphabet. KELVIN SIGN becomes `k` and LATIN CAPITAL LETTER I WITH DOT ABOVE becomes `i` and a combining dot. Every other character is unchanged |
| Slug.ToLower | src/lib/utils.ts:85 | no ASCII capitals remain |
| Slug.ToLowerInPlace | src/lib/utils.ts:85 | without the dotted capital I, each character is lowered in place and the length is kept |
| Slug.ToLowerKeepsSlug | src/lib/utils.ts:85 | a string of slug characters is unchanged |
| Slug.ToLowerAppend | src/lib/utils.ts:85 | lower-casing a concatenation lower-cases each part |
| Slug.Trim | src/lib/utils.ts:86 | the result is a block of the input with only whitespace before and after it, and it neither starts nor ends with whitespace; an already trimmed string is unchanged |
| Slug.TrimBlock | src/lib/utils.ts:86 | what trimming keeps is the block between the leading and the trailing whitespace |
| Slug.RemoveDisallowed | src/lib/utils.ts:87 | exactly the word characters, whitespace and `-` of the input remain, as many as there are |
| Slug.RemoveDisallowedKeepsKept | src/lib/utils.ts:87 | a string made only of such characters is unchanged |
| Slug.RemoveDisallowedPieces | src/lib/utils.ts:87 | the removal works character by character, in order: a kept character stays, any other vanishes, and a concatenation is handled part by part |
| Slug.SpacesToHyphens | src/lib/utils.ts:88 | no whitespace remains |
| Slug.SpacesToHyphensNoSpace | src/lib/utils.ts:88 | a string without whitespace is unchanged |
| Slug.SpacesToHyphensKeepsBlock | src/lib/utils.ts:88 | a block without whitespace passes through unchanged in front of the rest |
| Slug.SpacesToHyphensRun | src/lib/utils.ts:88 | a whole run of whitespace, of any length, becomes one `-` |
| Slug.CollapseHyphens | src/lib/utils.ts:89 | no `--` remains, and the result starts with `-` only if the input does |
| Slug.CollapseKeepsNoDouble | src/lib/utils.ts:89 | a string without `--` is unchanged |
| Slug.CollapseKeepsBlock | src/lib/utils.ts:89 | a block without `--` passes through unchanged when it does not run into more hyphens |
| Slug.CollapseRun | src/lib/utils.ts:89 | a run of two or more `-` becomes one `-` |
| Slug.SlugifyJoinsWords | src/lib/utils.ts:83-90 | two lower-case words separated by a space become the two words joined by `-` |
| Slug.Slugify | src/lib/utils.ts:83-90 | the slug contains only `a-z`, `0-9`, `_` and `-`, and never `--` |
| Slug.SlugifyKeepsWords | src/lib/utils.ts:83-90 | the slug keeps every word character of the lower-cased input, in order, and no other |
| Slug.SlugFixpoint | src/lib/utils.ts:83-90 | a string of slug characters without `--` is its own slug |
| Slug.SlugifyIdempotent | src/lib/utils.ts:83-90 | `slugify(slugify(s)) == slugify(s)` |
| Constants.BandsNonEmpty | src/lib/constants.ts:3-9 | every band has min ≤ max |
| Constants.BandsContiguous | src/lib/constants.ts:3-9 | the bands abut without gaps, from 0 up to 100 |
| Constants.BandsDisjoint | src/lib/constants.ts:3-9 | no value lies in two bands |
| Constants.BandsCover | src/lib/constants.ts:3-9 | an integer lies in some band iff it is in 0..100 |
| Constants.LevelsIncreasing | src/lib/constants.ts:13-18 | level thresholds start at 0 and strictly increase |
| Constants.StatusTableComplete | src/lib/constants.ts:22-27 | `SUBMISSION_STATUS` has exactly one entry per status |

## Left out

- Database and HTTP plumbing: Prisma calls, JSON bodies and response envelopes
  (`success`, `message`). Tables are maps and sequences, and replies carry
  only a status and a payload or an error text.
- `parseInt` edge cases: a query value is an integer or absent. Absent and
  empty values take the default; text that is not a number is not modelled.
- Members.List: requires a limit of at least 1. A zero limit (an infinite
  `totalPages`) and a negative limit (a backwards `take`) are not modelled.
- Activities.List: requires a limit of at least 1, for the same reason.
- Members.GetAllMembers: requires a limit of at least 1, for the same reason.
- Activities.GetAll: requires a limit of at least 1, for the same reason.
- Ordering: rows whose sort key ties (equal `totalScore`, equal `createdAt`)
  come in one order the model fixes, the same for every page request. The
  database promises no order among tied rows, and separate `skip`/`take`
  queries may order them differently. Every member's score starts at 0, so
  ties are common.
- Members.AllPagesListEveryMember: "every matching member exactly once" holds
  only under the fixed tie order; against the database, a reader of several
  pages may see a tied member twice and miss another.
- Members.AllServicePagesListEveryMember: the same; its exactly-once result
  holds only under the fixed tie order.
- Members.ServicePagesAreRankedPages: the same; pages are windows of one
  ranking only under the fixed tie order.
- Activities.AllPagesListEveryActivity: the same for activities with equal
  `createdAt`; its exactly-once result holds only under the fixed tie order.
- Floating point: `Math.round`, the percentages and the 0.8 ratio are computed
  on exact numbers; IEEE rounding is not modelled.
- Slug.LowerChar: lower-cases ASCII capitals, KELVIN SIGN and LATIN CAPITAL
  LETTER I WITH DOT ABOVE only. Every other character is kept, which makes no
  difference to the final slug: the later steps drop both forms alike.
- Dates: `new Date(text)` is the `parseDate` parameter, and a time is an
  integer. `formatDateTh`, `formatDateISO`, `isPastDate` and `isComingSoon`
  (locale and wall clock), `formatFileSize` (logarithms), `generateId`
  (randomness), `sleep`, `deepClone` and `cn` (external libraries) are not
  modelled.
- Schema defaults: the database schema is not part of this model. A new
  member's total score 0 and level BEGINNER are assumed defaults, which
  Members.Create writes itself; the seed data writes the same values for its
  administrator (prisma/seed.ts:21-22). The generated `id` and the `createdAt` timestamp of a new row
  are the `newId` and `now` parameters. The surrogate `id` of a submission is
  replaced by its (userId, activityId) key. `updatedAt` is not modelled.
- An activity `gradeLevel` that names no grade is not modelled (absent is
  modelled); such a value makes the database refuse the row.
- Badge display fields (name, description, icon, requirement) and the status
  labels are not modelled; the badge ids and status colours are.
- Concurrency: the `Promise.all` reads are sequential.
- The `/api/submissions/[id]`, `/api/members/[id]` and `/api/activities/[id]`
  routes, the upload route, the client hooks and the page components are not
  part of this model. The `PUT` of `/api/submissions/[id]` is the operation
  that, on approval, upserts a badge row and rewrites the user's `totalScore`;
  neither effect is modelled.
- Submissions.Submit: a user id is checked against the user table before the
  upsert, whether or not a row exists under the key. In a consistent database
  a row never exists for a missing user, so the two agree.
- Badges.GetBadges: requires the submission table to file every row under its
  own (userId, activityId), which the table's unique key guarantees.
- Next.js matcher internals (base path, locales, `_next/data` rewriting) are
  not modelled; the matcher is its regular expression applied to the path.
