/**
 * `SupabaseSurveyResponseRepository` (the `SurveyApp` client): the mapping between a
 * survey response and its `survey_responses` row, and the response `submitResponse` builds
 * from a submitted record of answers.
 */
module ResponseRepository {
  import opened Common

  /** An answer value as a respondent submits it: one string, or the chosen options. */
  datatype SubmittedValue = Text(s: string) | Choices(items: seq<string>)

  /** A `QuestionResponse` of the domain model. */
  datatype QuestionResponse = QuestionResponse(
    questionId: string,
    questionTitle: string,
    questionType: string,
    value: SubmittedValue,
    isValid: bool)

  /** The domain `SurveyResponse`, with the eleven fields the mappers carry. */
  datatype SurveyResponse = SurveyResponse(
    id: Option<string>,
    surveyId: string,
    respondentName: Option<string>,
    respondentEmail: Option<string>,
    respondentPhone: Option<string>,
    respondentCompany: Option<string>,
    submittedAt: string,
    answers: seq<QuestionResponse>,
    isExistingClient: Option<bool>,
    existingClientId: Option<string>,
    completionTime: Option<real>)

  /** A `survey_responses` row; the `answers` column holds the answer list as stored JSON. */
  datatype ResponseRow = ResponseRow(
    id: Option<string>,
    survey_id: string,
    respondent_name: Option<string>,
    respondent_email: Option<string>,
    respondent_phone: Option<string>,
    respondent_company: Option<string>,
    submitted_at: string,
    answers: seq<QuestionResponse>,
    is_existing_client: Option<bool>,
    existing_client_id: Option<string>,
    completion_time: Option<real>)

  /** `mapFromDatabase`: rename every column to its domain field. */
  function MapFromDatabase(row: ResponseRow): (r: SurveyResponse)
    ensures r.id == row.id && r.surveyId == row.survey_id && r.submittedAt == row.submitted_at
    ensures r.respondentName == row.respondent_name && r.respondentEmail == row.respondent_email
    ensures r.respondentPhone == row.respondent_phone && r.respondentCompany == row.respondent_company
    ensures r.answers == row.answers && r.completionTime == row.completion_time
    ensures r.isExistingClient == row.is_existing_client && r.existingClientId == row.existing_client_id
  {
    SurveyResponse(row.id, row.survey_id, row.respondent_name, row.respondent_email,
                   row.respondent_phone, row.respondent_company, row.submitted_at, row.answers,
                   row.is_existing_client, row.existing_client_id, row.completion_time)
  }

  /** `mapToDatabase`: rename every domain field to its column. */
  function MapToDatabase(r: SurveyResponse): (row: ResponseRow)
    ensures row.id == r.id && row.survey_id == r.surveyId && row.submitted_at == r.submittedAt
    ensures row.respondent_name == r.respondentName && row.respondent_email == r.respondentEmail
    ensures row.respondent_phone == r.respondentPhone && row.respondent_company == r.respondentCompany
    ensures row.answers == r.answers && row.completion_time == r.completionTime
    ensures row.is_existing_client == r.isExistingClient && row.existing_client_id == r.existingClientId
  {
    ResponseRow(r.id, r.surveyId, r.respondentName, r.respondentEmail, r.respondentPhone,
                r.respondentCompany, r.submittedAt, r.answers, r.isExistingClient,
                r.existingClientId, r.completionTime)
  }

  /** Reading back a written response gives the response, on all eleven fields. */
  lemma ResponseRoundTrip(r: SurveyResponse)
    ensures MapFromDatabase(MapToDatabase(r)) == r
  {
  }

  /** Writing back a read row gives the row, on all eleven columns. */
  lemma RowRoundTrip(row: ResponseRow)
    ensures MapToDatabase(MapFromDatabase(row)) == row
  {
  }

  /** Distinct responses are written as distinct rows, and distinct rows read as distinct responses. */
  lemma MappersInjective(r1: SurveyResponse, r2: SurveyResponse, w1: ResponseRow, w2: ResponseRow)
    ensures MapToDatabase(r1) == MapToDatabase(r2) ==> r1 == r2
    ensures MapFromDatabase(w1) == MapFromDatabase(w2) ==> w1 == w2
  {
    ResponseRoundTrip(r1);
    ResponseRoundTrip(r2);
    RowRoundTrip(w1);
    RowRoundTrip(w2);
  }

  // ---------------------------------------------------------------------------
  // Submission

  /**
   * A `SurveyResponseSubmission`. `answers` is the record of answers in the order
   * `Object.entries` lists it: pairs of a question id and the submitted value.
   */
  datatype Submission = Submission(
    surveyId: string,
    respondentName: Option<string>,
    respondentEmail: Option<string>,
    respondentPhone: Option<string>,
    respondentCompany: Option<string>,
    submittedAt: Option<string>,
    answers: seq<(string, SubmittedValue)>,
    isExistingClient: Option<bool>,
    existingClientId: Option<string>)

  /** `typeof value === 'string' ? 'text' : 'multiple-choice'`. */
  function TypeOf(v: SubmittedValue): (t: string)
    ensures t == "text" <==> v.Text?
    ensures t == "multiple-choice" <==> v.Choices?
  {
    if v.Text? then "text" else "multiple-choice"
  }

  /** The placeholder title `Question ${questionId}`. */
  function Placeholder(id: string): (title: string)
    ensures |title| == |id| + 9 && title[..9] == "Question " && title[9..] == id
  {
    "Question " + id
  }

  /** The answer list `Object.entries(answers).map(...)` builds: one response per entry, in order. */
  function ToQuestionResponses(entries: seq<(string, SubmittedValue)>): (rs: seq<QuestionResponse>)
    ensures |rs| == |entries|
    ensures forall i :: 0 <= i < |rs| ==>
      rs[i].questionId == entries[i].0 && rs[i].value == entries[i].1
      && rs[i].questionType == TypeOf(entries[i].1)
      && rs[i].questionTitle == Placeholder(entries[i].0) && rs[i].isValid
  {
    seq(|entries|, i requires 0 <= i < |entries| =>
      QuestionResponse(entries[i].0, Placeholder(entries[i].0), TypeOf(entries[i].1), entries[i].1, true))
  }

  /** The entries an answer list records: each response's question id and value. */
  function Entries(rs: seq<QuestionResponse>): (entries: seq<(string, SubmittedValue)>)
    ensures |entries| == |rs|
  {
    seq(|rs|, i requires 0 <= i < |rs| => (rs[i].questionId, rs[i].value))
  }

  /** The conversion loses nothing: the entries can be read back from the answer list. */
  lemma EntriesOfResponses(entries: seq<(string, SubmittedValue)>)
    ensures Entries(ToQuestionResponses(entries)) == entries
  {
    var back := Entries(ToQuestionResponses(entries));
    forall i | 0 <= i < |entries|
      ensures back[i] == entries[i]
    {
      assert back[i] == (ToQuestionResponses(entries)[i].questionId, ToQuestionResponses(entries)[i].value);
    }
  }

  /** Every answer list the conversion produces is valid throughout and typed by its values. */
  lemma ConvertedAnswersAreValid(entries: seq<(string, SubmittedValue)>, i: int)
    requires 0 <= i < |entries|
    ensures ToQuestionResponses(entries)[i].isValid
    ensures ToQuestionResponses(entries)[i].questionType == "text" <==> entries[i].1.Text?
  {
  }

  predicate DistinctKeys(entries: seq<(string, SubmittedValue)>)
  {
    forall i, j :: 0 <= i < j < |entries| ==> entries[i].0 != entries[j].0
  }

  /**
   * The record's keys are distinct, so the answer list holds exactly one response per key:
   * the question ids are those keys and no two responses share one.
   */
  lemma {:induction false} OneResponsePerKey(entries: seq<(string, SubmittedValue)>)
    requires DistinctKeys(entries)
    ensures var rs := ToQuestionResponses(entries);
      (set i | 0 <= i < |rs| :: rs[i].questionId) == (set i | 0 <= i < |entries| :: entries[i].0)
      && forall i, j :: 0 <= i < j < |rs| ==> rs[i].questionId != rs[j].questionId
  {
    var rs := ToQuestionResponses(entries);
    assert forall i :: 0 <= i < |rs| ==> rs[i].questionId == entries[i].0;
  }

  /** `submittedAt || new Date().toISOString()`: the submitted time unless it is absent or empty. */
  function SubmittedAt(submitted: Option<string>, now: string): (t: string)
    ensures submitted.Some? && submitted.value != "" ==> t == submitted.value
    ensures submitted.None? || submitted.value == "" ==> t == now
  {
    match submitted
    case Some(s) => if s != "" then s else now
    case None => now
  }

  /**
   * The response `submitResponse` builds, with `newId` the fresh `uuidv4()` and `now` the
   * current time as an ISO string. No completion time is set.
   */
  function BuildResponse(sub: Submission, newId: string, now: string): (r: SurveyResponse)
    ensures r.id == Some(newId) && r.surveyId == sub.surveyId
    ensures r.respondentName == sub.respondentName && r.respondentEmail == sub.respondentEmail
    ensures r.respondentPhone == sub.respondentPhone && r.respondentCompany == sub.respondentCompany
    ensures r.isExistingClient == sub.isExistingClient && r.existingClientId == sub.existingClientId
    ensures r.submittedAt == SubmittedAt(sub.submittedAt, now)
    ensures r.answers == ToQuestionResponses(sub.answers)
    ensures r.completionTime.None?
  {
    SurveyResponse(Some(newId), sub.surveyId, sub.respondentName, sub.respondentEmail,
                   sub.respondentPhone, sub.respondentCompany, SubmittedAt(sub.submittedAt, now),
                   ToQuestionResponses(sub.answers), sub.isExistingClient, sub.existingClientId, None)
  }

  /**
   * When the database hands back the row it was given, `submitResponse` returns the response
   * it built, and that response's answers reproduce the submitted record.
   */
  lemma SubmitReturnsBuiltResponse(sub: Submission, newId: string, now: string)
    ensures MapFromDatabase(MapToDatabase(BuildResponse(sub, newId, now))) == BuildResponse(sub, newId, now)
    ensures Entries(MapFromDatabase(MapToDatabase(BuildResponse(sub, newId, now))).answers) == sub.answers
  {
    ResponseRoundTrip(BuildResponse(sub, newId, now));
    EntriesOfResponses(sub.answers);
  }

  /** Example: an empty submitted time is replaced by the clock; a choice list is typed multiple-choice. */
  lemma SubmissionExample()
    ensures var sub := Submission("s1", Some("Ann"), Some("a@x"), None, None, Some(""),
                                  [("q1", Text("yes")), ("q2", Choices(["a", "b"]))], Some(false), None);
            var r := BuildResponse(sub, "id-1", "2024-01-01T00:00:00.000Z");
            r.submittedAt == "2024-01-01T00:00:00.000Z"
            && |r.answers| == 2
            && r.answers[0] == QuestionResponse("q1", "Question q1", "text", Text("yes"), true)
            && r.answers[1] == QuestionResponse("q2", "Question q2", "multiple-choice", Choices(["a", "b"]), true)
  {
  }
}
