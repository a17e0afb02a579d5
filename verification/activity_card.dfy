/**
 * The activity card a member sees for one activity: its progress bar,
 * score line, deadline note and whether the submit button is offered.
 */
module ActivityCard {
  import opened Wrappers
  import opened DbTypes
  import Utils
  import Constants

  /** The card's inputs. `endDate` is `None` when the date text does not parse. */
  datatype CardProps = CardProps(
    id: string,
    title: string,
    description: Option<string>,
    maxScore: int,
    endDate: Option<Time>,
    submissionStatus: Option<SubmissionStatus>,
    currentScore: Option<int>)

  /** `new Date(endDate) < new Date()`; an unparseable date compares false. */
  predicate IsPastDeadline(endDate: Option<Time>, now: Time) {
    endDate.Some? && endDate.value < now
  }

  /** A rounded percentage, or the infinity a division by a zero maximum yields. */
  datatype Percent = Finite(value: int) | Infinite(positive: bool)

  /**
   * The progress value: 0 when there is no score or it is 0, otherwise the
   * score over the maximum, out of 100, rounded half up.
   */
  function CompletionPercentage(currentScore: Option<int>, maxScore: int): (p: Percent)
    ensures currentScore.None? || currentScore.value == 0 ==> p == Finite(0)
    ensures currentScore.Some? && currentScore.value != 0 && maxScore == 0 ==>
              p == Infinite(currentScore.value > 0)
    ensures currentScore.Some? && currentScore.value != 0 && maxScore != 0 ==>
              p.Finite? &&
              var (m, a) := Utils.Normalize(100 * currentScore.value, maxScore);
              2 * a * p.value - a <= 2 * m < 2 * a * p.value + a
  {
    if currentScore.None? || currentScore.value == 0 then Finite(0)
    else if maxScore == 0 then Infinite(currentScore.value > 0)
    else Finite(Utils.RoundRatio(100 * currentScore.value, maxScore))
  }

  /** Against a non-zero maximum the card shows what `calculatePercentage` computes. */
  lemma CompletionMatchesCalculatePercentage(currentScore: Option<int>, maxScore: int)
    requires maxScore != 0
    ensures CompletionPercentage(currentScore, maxScore) == Finite(Utils.CalculatePercentage(currentScore.GetOr(0), maxScore))
  {
    if currentScore.None? || currentScore.value == 0 {
      var r := Utils.RoundRatio(0, maxScore);
      var (m, a) := Utils.Normalize(0, maxScore);
      assert m == 0 && a > 0;
      if r > 0 {
        Utils.MulMonotone(a, 1, r);
      } else if r < 0 {
        Utils.MulMonotone(a, r, -1);
      }
    }
  }

  /** A score within 0..maxScore fills the bar between 0 and 100 percent. */
  lemma CompletionInRange(currentScore: Option<int>, maxScore: int)
    requires maxScore > 0 && 0 <= currentScore.GetOr(0) <= maxScore
    ensures CompletionPercentage(currentScore, maxScore).Finite?
    ensures 0 <= CompletionPercentage(currentScore, maxScore).value <= 100
  {
    CompletionMatchesCalculatePercentage(currentScore, maxScore);
    Utils.PercentageInRange(currentScore.GetOr(0), maxScore);
  }

  /** What the card renders, field by field. */
  datatype CardView = CardView(
    title: string,
    status: SubmissionStatus,
    statusColor: string,
    description: Option<string>,
    progress: Percent,
    scoreShown: int,
    maxScore: int,
    pastDeadlineNote: bool,
    submitButton: bool)

  /** `ActivityCard(props)` at time `now`. */
  function Render(props: CardProps, now: Time): (v: CardView)
    ensures v.status == props.submissionStatus.GetOr(NotStarted)
    ensures v.status in Constants.SubmissionStatusColor && v.statusColor == Constants.SubmissionStatusColor[v.status]
    ensures v.description.Some? <==> props.description.Some? && props.description.value != ""
    ensures v.description.Some? ==> v.description == props.description
    ensures v.scoreShown == props.currentScore.GetOr(0)
    ensures v.pastDeadlineNote <==> props.endDate.Some? && props.endDate.value < now
    ensures v.submitButton <==> v.status == NotStarted && !v.pastDeadlineNote
    ensures v.progress == CompletionPercentage(props.currentScore, props.maxScore)
  {
    Constants.StatusTableComplete();
    var status := props.submissionStatus.GetOr(NotStarted);
    var past := IsPastDeadline(props.endDate, now);
    CardView(
      props.title,
      status,
      Constants.SubmissionStatusColor[status],
      if props.description.Some? && props.description.value != "" then props.description else None,
      CompletionPercentage(props.currentScore, props.maxScore),
      props.currentScore.GetOr(0),
      props.maxScore,
      past,
      status == NotStarted && !past)
  }

  /** Once the deadline has passed the card never offers submission, whatever the status. */
  lemma NoSubmitAfterDeadline(props: CardProps, now: Time)
    requires props.endDate.Some? && props.endDate.value < now
    ensures !Render(props, now).submitButton
  {
  }

  /** A card in any state but NOT_STARTED never offers submission. */
  lemma SubmitOnlyWhenNotStarted(props: CardProps, now: Time)
    requires props.submissionStatus.Some? && props.submissionStatus.value != NotStarted
    ensures !Render(props, now).submitButton
  {
  }

  /** The deadline note is monotone in time: once shown, it stays shown. */
  lemma DeadlineStaysPast(endDate: Option<Time>, now: Time, later: Time)
    requires IsPastDeadline(endDate, now) && now <= later
    ensures IsPastDeadline(endDate, later)
  {
  }
}
