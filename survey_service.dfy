/**
 * `SurveyService`: stamping a new survey, listing surveys by status, the e-mail guard and
 * the statistics report with its completion rate and average completion time.
 */
module SurveyService {
  import opened Common
  import opened Domain
  import Numerals
  import Arithmetic
  import opened Completion

  /** `CreateSurveyAsync` up to the repository call: set `CreatedAt` if it is still the default. */
  method CreateSurvey(survey: Survey, now: nat)
    modifies survey`CreatedAt
    ensures survey.CreatedAt == Stamped(old(survey.CreatedAt), now)
  {
    if survey.CreatedAt == DefaultTime {
      survey.CreatedAt := now;
    }
  }

  /** `char.ToLower` on the ASCII letters; every other character is kept. */
  function LowerChar(c: char): (r: char)
    ensures 'A' <= c <= 'Z' ==> r as int == c as int + 32
    ensures !('A' <= c <= 'Z') ==> r == c
    ensures !('A' <= r <= 'Z')
  {
    if 'A' <= c <= 'Z' then (c as int + 32) as char else c
  }

  /** `string.ToLower()`, character by character. */
  function ToLower(s: string): (r: string)
    ensures |r| == |s| && forall i :: 0 <= i < |s| ==> r[i] == LowerChar(s[i])
  {
    if |s| == 0 then "" else [LowerChar(s[0])] + ToLower(s[1..])
  }

  /** Lower-casing twice is lower-casing once. */
  lemma ToLowerIdempotent(s: string)
    ensures ToLower(ToLower(s)) == ToLower(s)
  {
  }

  /** `surveys.Where(s => s.Status == status)`: the surveys with exactly that stored status, in order. */
  function WithStatus(surveys: seq<Survey>, status: string): (r: seq<Survey>)
    reads surveys
    ensures |r| <= |surveys|
    ensures forall i :: 0 <= i < |r| ==> r[i] in surveys && r[i].Status == status
    ensures forall i :: 0 <= i < |surveys| && surveys[i].Status == status ==> surveys[i] in r
  {
    if |surveys| == 0 then []
    else (if surveys[0].Status == status then [surveys[0]] else []) + WithStatus(surveys[1..], status)
  }

  /** Filtering keeps the relative order: it distributes over concatenation. */
  lemma {:induction false} WithStatusAppend(xs: seq<Survey>, ys: seq<Survey>, status: string)
    ensures WithStatus(xs + ys, status) == WithStatus(xs, status) + WithStatus(ys, status)
  {
    if |xs| == 0 {
      assert xs + ys == ys;
    } else {
      assert (xs + ys)[1..] == xs[1..] + ys;
      WithStatusAppend(xs[1..], ys, status);
    }
  }

  /** `GetSurveysByStatusAsync`: the key is lower-cased, then matched against the three statuses. */
  function SurveysByStatus(surveys: seq<Survey>, status: string): (r: seq<Survey>)
    reads surveys
    ensures ToLower(status) in {"active", "draft", "archived"} ==>
      && r == WithStatus(surveys, ToLower(status))
      && (forall i :: 0 <= i < |r| ==> r[i] in surveys && r[i].Status == ToLower(status))
      && (forall i :: 0 <= i < |surveys| && surveys[i].Status == ToLower(status) ==> surveys[i] in r)
    ensures ToLower(status) !in {"active", "draft", "archived"} ==> r == surveys
  {
    match ToLower(status)
    case "active" => WithStatus(surveys, "active")
    case "draft" => WithStatus(surveys, "draft")
    case "archived" => WithStatus(surveys, "archived")
    case _ => surveys
  }

  /** The key is case-insensitive, the stored status is not: "ACTIVE" selects only status "active". */
  lemma StatusKeyIsCaseInsensitive(surveys: seq<Survey>)
    ensures SurveysByStatus(surveys, "ACTIVE") == WithStatus(surveys, "active")
  {
    assert ToLower("ACTIVE") == "active";
  }

  /** `SendSurveyEmailsAsync`: success exactly when the survey exists and there is an address. */
  function SendSurveyEmails(survey: Survey?, emailAddresses: seq<string>): (sent: bool)
    ensures sent <==> survey != null && |emailAddresses| > 0
  {
    !(survey == null || |emailAddresses| == 0)
  }

  /** One answer value of a question with its frequency (never filled in by this service). */
  datatype AnswerStat = AnswerStat(Answer: string, Count: int, Percentage: real)

  datatype QuestionStat = QuestionStat(QuestionId: string, QuestionTitle: string, Responses: seq<AnswerStat>)

  /** The report `GetSurveyStatisticsAsync` returns; dates are tick counts. */
  datatype SurveyStatistics = SurveyStatistics(
    SurveyId: int,
    TotalResponses: int,
    CompletionRate: int,
    AverageCompletionTime: int,
    StartDate: nat,
    EndDate: Option<nat>,
    QuestionStats: seq<QuestionStat>)

  /** C# integer division: the quotient truncated toward zero. */
  function TruncDiv(a: int, b: int): (q: int)
    requires b > 0
    ensures a >= 0 ==> q >= 0 && q * b <= a < (q + 1) * b
    ensures a < 0 ==> q <= 0 && (q - 1) * b < a <= q * b
  {
    if a >= 0 then
      Arithmetic.DivisionBounds(a, b);
      Arithmetic.MultiplySuccessor(a / b, b);
      a / b
    else
      Arithmetic.DivisionBounds(-a, b);
      Arithmetic.MultiplySuccessor(-((-a) / b) - 1, b);
      -((-a) / b)
  }

  /** `Sum(r => r.CompletionTime ?? 0)`. */
  function SumCompletionTimes(times: seq<Option<int>>): (total: int)
    ensures (forall i :: 0 <= i < |times| ==> times[i].None? || times[i].value >= 0) ==> total >= 0
    ensures (forall i :: 0 <= i < |times| ==> times[i].None?) ==> total == 0
  {
    if |times| == 0 then 0
    else SumCompletionTimes(times[..|times| - 1]) + (match times[|times| - 1] case Some(t) => t case None => 0)
  }

  /**
   * The average completion time: the total (missing times count as 0) divided by the number
   * of all responses, truncated; 0 without responses.
   */
  function AverageCompletionTime(times: seq<Option<int>>): (avg: int)
    ensures |times| == 0 ==> avg == 0
    ensures |times| > 0 && SumCompletionTimes(times) >= 0 ==>
      avg >= 0 && avg * |times| <= SumCompletionTimes(times) < (avg + 1) * |times|
    ensures |times| > 0 && SumCompletionTimes(times) < 0 ==>
      avg <= 0 && (avg - 1) * |times| < SumCompletionTimes(times) <= avg * |times|
  {
    if |times| > 0 then TruncDiv(SumCompletionTimes(times), |times|) else 0
  }

  /** Responses are summed in order: a present time adds itself, a missing one adds 0. */
  lemma SumCompletionTimesSnoc(times: seq<Option<int>>, t: int)
    ensures SumCompletionTimes([]) == 0
    ensures SumCompletionTimes(times + [Some(t)]) == SumCompletionTimes(times) + t
    ensures SumCompletionTimes(times + [None]) == SumCompletionTimes(times)
  {
    assert (times + [Some(t)])[..|times|] == times;
    assert (times + [None])[..|times|] == times;
  }

  /** A missing completion time adds nothing to the total but still counts as a response. */
  lemma MissingTimeCountsAsZero(times: seq<Option<int>>)
    ensures SumCompletionTimes(times + [None]) == SumCompletionTimes(times)
    ensures AverageCompletionTime(times + [None]) == TruncDiv(SumCompletionTimes(times), |times| + 1)
  {
    var extended := times + [None];
    assert extended[..|extended| - 1] == times;
    assert SumCompletionTimes(extended) == SumCompletionTimes(times);
    assert |extended| == |times| + 1;
  }

  /** The completion times of the loaded responses. */
  function CompletionTimes(responses: seq<SurveyResponse>): (r: seq<Option<int>>)
    reads responses
    ensures |r| == |responses| && forall i :: 0 <= i < |r| ==> r[i] == responses[i].CompletionTime
  {
    seq(|responses|, i reads responses requires 0 <= i < |responses| => responses[i].CompletionTime)
  }

  /**
   * `GetSurveyStatisticsAsync`. `survey` is what the survey repository returned for
   * `surveyId`, `responses` what the response repository returned, `now` the clock.
   */
  method GetSurveyStatistics(surveyId: int, survey: Survey?, responses: seq<SurveyResponse>, now: nat)
    returns (stats: SurveyStatistics)
    ensures survey == null ==> stats == SurveyStatistics(surveyId, 0, 0, 0, now, None, [])
    ensures survey != null ==>
      stats == SurveyStatistics(surveyId, |responses|,
                                CompletionRate(survey.Questions, AnswerLists(responses)),
                                AverageCompletionTime(CompletionTimes(responses)),
                                survey.CreatedAt, None, [])
  {
    if survey == null {
      return SurveyStatistics(surveyId, 0, 0, 0, now, None, []);
    }
    var totalResponses := |responses|;
    ghost var lists := AnswerLists(responses);

    var completionRate := 0;
    if totalResponses > 0 {
      var requiredQuestions := RequiredCount(survey.Questions);
      if requiredQuestions == 0 {
        completionRate := 100;
      } else {
        var totalRequired := totalResponses * requiredQuestions;
        var totalAnswered := 0;
        var i := 0;
        while i < |responses|
          invariant 0 <= i <= |responses|
          invariant totalAnswered == TotalAnswered(survey.Questions, lists[..i])
        {
          var answeredRequired := AnsweredRequired(survey.Questions, responses[i].Answers[..]);
          assert lists[..i + 1][..i] == lists[..i];
          totalAnswered := totalAnswered + answeredRequired;
          i := i + 1;
        }
        assert lists[..i] == lists;
        completionRate := if totalRequired > 0 then totalAnswered * 100 / totalRequired else 100;
      }
    }

    var averageCompletionTime := 0;
    if totalResponses > 0 {
      var totalCompletionTime := SumCompletionTimes(CompletionTimes(responses));
      averageCompletionTime := TruncDiv(totalCompletionTime, totalResponses);
    }

    stats := SurveyStatistics(surveyId, totalResponses, completionRate, averageCompletionTime,
                              survey.CreatedAt, None, []);
  }

  /** Example: times 10 and missing over two responses average to 5. */
  lemma AverageExample()
    ensures AverageCompletionTime([Some(10), None]) == 5
  {
    assert [Some(10), None][..1] == [Some(10)];
    assert [Some(10)][..0] == [];
  }
}
