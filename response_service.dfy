/**
 * `SurveyResponseService`: the answer validator and the enrichment that
 * `SubmitResponseAsync` performs before handing the response to the repository.
 */
module ResponseService {
  import opened Common
  import opened Domain
  import Numerals

  /** The lower bound of a rating question: `Settings?.Min ?? 1`. */
  function RatingMin(q: Question): (r: int)
    ensures q.Settings.None? || q.Settings.value.Min.None? ==> r == 1
    ensures q.Settings.Some? && q.Settings.value.Min.Some? ==> r == q.Settings.value.Min.value
  {
    match q.Settings
    case Some(QuestionSettings(Some(m), _)) => m
    case _ => 1
  }

  /** The upper bound of a rating question: `Settings?.Max ?? 5`. */
  function RatingMax(q: Question): (r: int)
    ensures q.Settings.None? || q.Settings.value.Max.None? ==> r == 5
    ensures q.Settings.Some? && q.Settings.value.Max.Some? ==> r == q.Settings.value.Max.value
  {
    match q.Settings
    case Some(QuestionSettings(_, Some(m))) => m
    case _ => 5
  }

  /**
   * `ValidateAnswer`: whether `value` is an acceptable answer to `q`. A required question
   * rejects a null or empty value outright; then the question type decides.
   */
  function ValidateAnswer(value: Option<string>, q: Question): (valid: bool)
    // A required question with no value is invalid whatever its type.
    ensures q.Required && IsNullOrEmpty(value) ==> !valid
    // Rating: exactly the values that parse to an integer within the bounds (an empty
    // answer to an optional rating question does not parse, so it is invalid too).
    ensures q.Type == "rating" ==>
      (valid <==> value.Some? && Numerals.ParseInt(value.value).Some?
                  && RatingMin(q) <= Numerals.ParseInt(value.value).value <= RatingMax(q))
    // Single choice: anything if optional, otherwise exactly a non-empty member of Options.
    ensures q.Type == "single-choice" ==>
      (valid <==> !q.Required || (!IsNullOrEmpty(value) && value.value in q.Options))
    // Multiple choice and every other type: anything if optional, otherwise any non-empty value.
    ensures q.Type != "rating" && q.Type != "single-choice" ==>
      (valid <==> !q.Required || !IsNullOrEmpty(value))
  {
    if q.Required && IsNullOrEmpty(value) then false
    else if q.Type == "rating" then
      match value
      case None => false
      case Some(s) =>
        match Numerals.ParseInt(s)
        case Some(rating) => RatingMin(q) <= rating && rating <= RatingMax(q)
        case None => false
    else if q.Type == "single-choice" then
      !q.Required || value.value in q.Options
    else if q.Type == "multiple-choice" then
      !q.Required || !IsNullOrEmpty(value)
    else
      !q.Required || !IsNullOrEmpty(value)
  }

  /** A rating question accepts the printed form of an integer exactly when it lies within the bounds. */
  lemma RatingAcceptsExactlyInRange(q: Question, k: int)
    requires q.Type == "rating"
    ensures ValidateAnswer(Some(Numerals.IntToString(k)), q) <==> RatingMin(q) <= k <= RatingMax(q)
  {
    Numerals.ParseIntToString(k);
  }

  /** A multiple-choice value is never decomposed: only its emptiness matters. */
  lemma MultipleChoiceIgnoresContent(q: Question, v: string, w: string)
    requires q.Type == "multiple-choice" && v != "" && w != ""
    ensures ValidateAnswer(Some(v), q) == ValidateAnswer(Some(w), q)
  {
  }

  /** The update one answer receives: title filled in and validity recorded when its question is found. */
  function EnrichAnswer(a: Answer, questions: seq<Question>): (r: Answer)
    ensures r.QuestionId == a.QuestionId && r.Value == a.Value && r.QuestionType == a.QuestionType
    ensures FindQuestion(questions, a.QuestionId).None? ==> r == a
    ensures FindQuestion(questions, a.QuestionId).Some? ==>
      var q := FindQuestion(questions, a.QuestionId).value;
      && r.IsValid == ValidateAnswer(a.Value, q)
      && r.QuestionTitle == (if IsNullOrEmpty(a.QuestionTitle) then q.Text else a.QuestionTitle)
  {
    match FindQuestion(questions, a.QuestionId)
    case None => a
    case Some(q) =>
      var titled := if IsNullOrEmpty(a.QuestionTitle) then a.(QuestionTitle := q.Text) else a;
      titled.(IsValid := ValidateAnswer(titled.Value, q))
  }

  /** Every answer of a response, enriched against the survey's questions. */
  function Enriched(answers: seq<Answer>, questions: seq<Question>): (r: seq<Answer>)
    ensures |r| == |answers|
    ensures forall i :: 0 <= i < |r| ==> r[i] == EnrichAnswer(answers[i], questions)
    ensures forall i :: 0 <= i < |r| ==>
      r[i].QuestionId == answers[i].QuestionId && r[i].Value == answers[i].Value
      && r[i].QuestionType == answers[i].QuestionType
  {
    seq(|answers|, i requires 0 <= i < |answers| => EnrichAnswer(answers[i], questions))
  }

  /** Enriching an enriched response changes nothing. */
  lemma EnrichAnswerIdempotent(a: Answer, questions: seq<Question>)
    ensures EnrichAnswer(EnrichAnswer(a, questions), questions) == EnrichAnswer(a, questions)
  {
  }

  lemma EnrichedIdempotent(answers: seq<Answer>, questions: seq<Question>)
    ensures Enriched(Enriched(answers, questions), questions) == Enriched(answers, questions)
  {
    forall i | 0 <= i < |answers| {
      EnrichAnswerIdempotent(answers[i], questions);
    }
  }

  /** The body of the `foreach` for an answer whose question was found: fill the title, record the verdict. */
  method UpdateAnswer(answer: Answer, question: Question, ghost questions: seq<Question>) returns (updated: Answer)
    requires FindQuestion(questions, answer.QuestionId) == Some(question)
    ensures updated == EnrichAnswer(answer, questions)
  {
    updated := answer;
    if IsNullOrEmpty(updated.QuestionTitle) {
      updated := updated.(QuestionTitle := question.Text);
    }
    updated := updated.(IsValid := ValidateAnswer(updated.Value, question));
  }

  /**
   * The `foreach` of `SubmitResponseAsync`: every answer whose question is found gets its
   * title filled in and its validity recorded, in place.
   */
  method EnrichAnswers(answers: array<Answer>, questions: seq<Question>)
    modifies answers
    ensures answers[..] == Enriched(old(answers[..]), questions)
  {
    ghost var before := answers[..];
    ghost var target := Enriched(before, questions);
    var i := 0;
    while i < answers.Length
      invariant 0 <= i <= answers.Length
      invariant forall k :: 0 <= k < i ==> answers[k] == target[k]
      invariant forall k :: i <= k < answers.Length ==> answers[k] == before[k]
    {
      var answer := answers[i];
      assert target[i] == EnrichAnswer(answer, questions);
      var question := FindQuestion(questions, answer.QuestionId);
      if question.Some? {
        answer := UpdateAnswer(answer, question.value, questions);
        answers[i] := answer;
      }
      i := i + 1;
    }
    assert answers[..] == target;
  }

  /**
   * `SubmitResponseAsync` up to the repository call: stamp the submission time, then, when
   * the survey was found, update every answer in place. `now` is the clock reading and
   * `survey` what the survey repository returned for `response.SurveyId`.
   */
  method SubmitResponse(response: SurveyResponse, survey: Survey?, now: nat)
    modifies response`SubmittedAt, response.Answers
    ensures response.SubmittedAt == Stamped(old(response.SubmittedAt), now)
    ensures survey == null ==> response.Answers[..] == old(response.Answers[..])
    ensures survey != null ==> response.Answers[..] == Enriched(old(response.Answers[..]), survey.Questions)
  {
    if response.SubmittedAt == DefaultTime {
      response.SubmittedAt := now;
    }
    if survey != null {
      EnrichAnswers(response.Answers, survey.Questions);
    }
  }

  /** Examples: a 1..5 rating, a required single choice over A/B, an optional text question. */
  lemma ValidationExamples()
    ensures var rating := Question(1, Some("Score"), "rating", true, [], Some(QuestionSettings(Some(1), Some(5))));
            ValidateAnswer(Some("3"), rating) && !ValidateAnswer(Some("0"), rating)
            && !ValidateAnswer(Some("abc"), rating)
    ensures var choice := Question(2, Some("Pick"), "single-choice", true, ["A", "B"], None);
            ValidateAnswer(Some("A"), choice) && !ValidateAnswer(Some("C"), choice)
            && !ValidateAnswer(Some(""), choice)
    ensures ValidateAnswer(Some(""), Question(3, Some("Notes"), "text", false, [], None))
  {
    assert !Numerals.IsDigit("abc"[0]);
    assert Numerals.DigitsValue("3") == 3 by { assert "3"[..0] == []; }
    assert Numerals.DigitsValue("0") == 0 by { assert "0"[..0] == []; }
  }
}
