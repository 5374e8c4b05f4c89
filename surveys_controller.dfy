/** `SurveysController`: the completion-rate helper and the status filter of the survey list. */
module SurveysController {
  import opened Common
  import opened Domain
  import opened Completion

  /** `CalculateCompletionRate(responses, survey)`, with its accumulation loop. */
  method CalculateCompletionRate(responses: seq<SurveyResponse>, survey: Survey) returns (rate: int)
    ensures rate == CompletionRate(survey.Questions, AnswerLists(responses))
  {
    if |responses| == 0 {
      return 0;
    }
    var requiredQuestions := RequiredCount(survey.Questions);
    if requiredQuestions == 0 {
      return 100;
    }
    var totalAnswered := 0;
    var totalRequired := |responses| * requiredQuestions;
    ghost var lists := AnswerLists(responses);
    var i := 0;
    while i < |responses|
      invariant 0 <= i <= |responses|
      invariant totalAnswered == TotalAnswered(survey.Questions, lists[..i])
    {
      var answeredRequired := AnsweredRequired(survey.Questions, responses[i].Answers[..]);
      assert lists[..i + 1][..i] == lists[..i];
      totalAnswered := totalAnswered + answeredRequired;
      i := i + 1;
    }
    assert lists[..i] == lists;
    rate := if totalRequired > 0 then totalAnswered * 100 / totalRequired else 100;
  }

  /** The part of a `SurveyViewModel` row that the list view filters on and shows. */
  datatype SurveyViewModel = SurveyViewModel(
    Id: string,
    Title: string,
    Status: string,
    Responses: nat,
    CompletionRate: int)

  /** `Where(s => s.Status == status)`: the rows with exactly that status, in their order. */
  function WithStatus(surveys: seq<SurveyViewModel>, status: string): (r: seq<SurveyViewModel>)
    ensures |r| <= |surveys|
    ensures forall s :: s in r <==> s in surveys && s.Status == status
  {
    if |surveys| == 0 then []
    else (if surveys[0].Status == status then [surveys[0]] else []) + WithStatus(surveys[1..], status)
  }

  /** Filtering an already filtered list by the same status changes nothing. */
  lemma {:induction false} WithStatusIdempotent(surveys: seq<SurveyViewModel>, status: string)
    ensures WithStatus(WithStatus(surveys, status), status) == WithStatus(surveys, status)
  {
    if |surveys| > 0 {
      var rest := WithStatus(surveys[1..], status);
      WithStatusIdempotent(surveys[1..], status);
      if surveys[0].Status == status {
        var once := [surveys[0]] + rest;
        assert once[0] == surveys[0] && once[1..] == rest;
        assert WithStatus(once, status) == [surveys[0]] + WithStatus(rest, status);
      } else {
        assert WithStatus(surveys, status) == [] + rest == rest;
      }
    }
  }

  /** `Where` keeps the relative order of the rows: it distributes over concatenation. */
  lemma {:induction false} WithStatusAppend(xs: seq<SurveyViewModel>, ys: seq<SurveyViewModel>, status: string)
    ensures WithStatus(xs + ys, status) == WithStatus(xs, status) + WithStatus(ys, status)
  {
    if |xs| == 0 {
      assert xs + ys == ys;
    } else {
      assert (xs + ys)[1..] == xs[1..] + ys;
      WithStatusAppend(xs[1..], ys, status);
    }
  }

  /** The status filters `Filter` recognises. */
  predicate IsStatusFilter(filter: Option<string>)
  {
    filter == Some("active") || filter == Some("draft") || filter == Some("archived")
  }

  /** The survey list `Filter(filter)` shows. */
  function Filter(allSurveys: seq<SurveyViewModel>, filter: Option<string>): (r: seq<SurveyViewModel>)
    ensures IsStatusFilter(filter) ==> r == WithStatus(allSurveys, filter.value)
    ensures IsStatusFilter(filter) ==> forall s :: s in r <==> s in allSurveys && s.Status == filter.value
    ensures !IsStatusFilter(filter) ==> r == allSurveys
  {
    match filter
    case Some("active") => WithStatus(allSurveys, "active")
    case Some("draft") => WithStatus(allSurveys, "draft")
    case Some("archived") => WithStatus(allSurveys, "archived")
    case _ => allSurveys
  }

  /** Applying the list's filter a second time shows the same rows. */
  lemma FilterIdempotent(allSurveys: seq<SurveyViewModel>, filter: Option<string>)
    ensures Filter(Filter(allSurveys, filter), filter) == Filter(allSurveys, filter)
  {
    if IsStatusFilter(filter) {
      WithStatusIdempotent(allSurveys, filter.value);
    }
  }

  /**
   * The list keeps its order: the rows shown for two lists one after the other are the rows
   * shown for the first followed by those shown for the second.
   */
  lemma FilterAppend(xs: seq<SurveyViewModel>, ys: seq<SurveyViewModel>, filter: Option<string>)
    ensures Filter(xs + ys, filter) == Filter(xs, filter) + Filter(ys, filter)
  {
    if IsStatusFilter(filter) {
      WithStatusAppend(xs, ys, filter.value);
    }
  }

  /** `ViewBag.FilterActive`: the filter string, or "all" when none was given. */
  function FilterLabel(filter: Option<string>): (shown: string)
    ensures filter.Some? ==> shown == filter.value
    ensures filter.None? ==> shown == "all"
  {
    match filter
    case Some(f) => f
    case None => "all"
  }
}
