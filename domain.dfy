/**
 * The C# domain model (`SurveyApp.Domain.Models`) as the services and the controller use it.
 * Questions and answers are values; a survey and a survey response are objects whose
 * fields the services update in place.
 */
module Domain {
  import opened Common
  import Numerals

  /** `DateTime` as a tick count; `default(DateTime)` (DateTime.MinValue) is tick 0. */
  const DefaultTime: nat := 0

  /** The optional `Min`/`Max` bounds of a rating question. */
  datatype QuestionSettings = QuestionSettings(Min: Option<int>, Max: Option<int>)

  /** A question of a survey; the core never changes one. */
  datatype Question = Question(
    Id: int,
    Text: Option<string>,
    Type: string,
    Required: bool,
    Options: seq<string>,
    Settings: Option<QuestionSettings>)

  /** A `QuestionResponse`: one answer inside a survey response. */
  datatype Answer = Answer(
    QuestionId: string,
    QuestionTitle: Option<string>,
    QuestionType: string,
    Value: Option<string>,
    IsValid: bool)

  /** A survey: its status string, creation time and ordered questions. */
  class Survey {
    var Id: int
    var Title: string
    var Status: string
    var CreatedAt: nat
    var Questions: seq<Question>

    constructor (id: int, title: string, status: string, createdAt: nat, questions: seq<Question>)
      ensures Id == id && Title == title && Status == status
      ensures CreatedAt == createdAt && Questions == questions
    {
      Id, Title, Status, CreatedAt, Questions := id, title, status, createdAt, questions;
    }
  }

  /** A survey response: respondent data, submission time, completion time and its answers. */
  class SurveyResponse {
    var Id: int
    var SurveyId: int
    var RespondentName: string
    var RespondentEmail: string
    var SubmittedAt: nat
    var CompletionTime: Option<int>
    var Answers: array<Answer>

    constructor (id: int, surveyId: int, name: string, email: string, submittedAt: nat,
                 completionTime: Option<int>, answers: seq<Answer>)
      ensures Id == id && SurveyId == surveyId
      ensures RespondentName == name && RespondentEmail == email
      ensures SubmittedAt == submittedAt && CompletionTime == completionTime
      ensures fresh(Answers) && Answers[..] == answers
    {
      Id, SurveyId, RespondentName, RespondentEmail := id, surveyId, name, email;
      SubmittedAt, CompletionTime := submittedAt, completionTime;
      Answers := new Answer[|answers|](i requires 0 <= i < |answers| => answers[i]);
    }
  }

  /** The answer lists of a sequence of loaded responses, in order. */
  function AnswerLists(responses: seq<SurveyResponse>): (r: seq<seq<Answer>>)
    reads responses, set i | 0 <= i < |responses| :: responses[i].Answers
    ensures |r| == |responses|
    ensures forall i :: 0 <= i < |r| ==> r[i] == responses[i].Answers[..]
  {
    seq(|responses|, i reads responses, set i | 0 <= i < |responses| :: responses[i].Answers
                       requires 0 <= i < |responses| => responses[i].Answers[..])
  }

  /** `string.IsNullOrEmpty`. */
  predicate IsNullOrEmpty(s: Option<string>)
    ensures IsNullOrEmpty(s) <==> s.None? || |s.value| == 0
  {
    s == None || s == Some("")
  }

  /** The key an answer uses to refer to a question: `q.Id.ToString()`. */
  function IdString(q: Question): string
  {
    Numerals.IntToString(q.Id)
  }

  /** The key parses back to the question's id, so distinct ids give distinct keys. */
  lemma IdStringParses(q: Question, p: Question)
    ensures Numerals.ParseInt(IdString(q)) == Some(q.Id)
    ensures IdString(q) == IdString(p) <==> q.Id == p.Id
  {
    Numerals.ParseIntToString(q.Id);
    Numerals.ParseIntToString(p.Id);
  }

  /** `Questions.Find(q => q.Id.ToString() == id)`, equally `FirstOrDefault`. */
  function FindQuestion(questions: seq<Question>, id: string): (found: Option<Question>)
    ensures found.Some? ==> IdString(found.value) == id
  {
    if |questions| == 0 then None
    else if IdString(questions[0]) == id then Some(questions[0])
    else FindQuestion(questions[1..], id)
  }

  /**
   * The lookup finds the first question, in survey order, whose printed id equals `id`, and
   * finds nothing exactly when no question has that printed id.
   */
  lemma {:induction false} FindQuestionFirstMatch(questions: seq<Question>, id: string)
    ensures FindQuestion(questions, id).Some? ==>
      exists k :: 0 <= k < |questions| && questions[k] == FindQuestion(questions, id).value
                  && IdString(questions[k]) == id
                  && forall j :: 0 <= j < k ==> IdString(questions[j]) != id
    ensures FindQuestion(questions, id).None? <==>
      forall j :: 0 <= j < |questions| ==> IdString(questions[j]) != id
  {
    if |questions| > 0 && IdString(questions[0]) != id {
      var rest := questions[1..];
      FindQuestionFirstMatch(rest, id);
      if FindQuestion(rest, id).Some? {
        var k :| 0 <= k < |rest| && rest[k] == FindQuestion(rest, id).value
                 && IdString(rest[k]) == id
                 && forall j :: 0 <= j < k ==> IdString(rest[j]) != id;
        assert questions[k + 1] == rest[k];
        forall j | 0 <= j < k + 1
          ensures IdString(questions[j]) != id
        {
          if j > 0 { assert questions[j] == rest[j - 1]; }
        }
      } else {
        forall j | 0 <= j < |questions|
          ensures IdString(questions[j]) != id
        {
          if j > 0 { assert questions[j] == rest[j - 1]; }
        }
      }
    }
  }

  /** `if (t == default) t = now`: the time stamp a submission or a new survey receives. */
  function Stamped(t: nat, now: nat): (r: nat)
    ensures t != DefaultTime ==> r == t
    ensures t == DefaultTime ==> r == now
  {
    if t == DefaultTime then now else t
  }

  /** Stamping is idempotent as long as the clock does not read the default value. */
  lemma StampedIdempotent(t: nat, now: nat, later: nat)
    requires now != DefaultTime
    ensures Stamped(Stamped(t, now), later) == Stamped(t, now)
  {
  }
}
