/**
 * The C# completion-rate rule. `SurveysController.CalculateCompletionRate` and
 * `SurveyService.GetSurveyStatisticsAsync` compute it with the same code; both are proved
 * against the definition here.
 */
module Completion {
  import opened Common
  import opened Domain
  import Numerals
  import Arithmetic

  /**
   * An answer fills a required-question slot when the first question whose printed id equals
   * its `QuestionId` is required and the answer's value is neither null nor empty.
   */
  predicate FillsRequiredSlot(questions: seq<Question>, a: Answer)
  {
    match FindQuestion(questions, a.QuestionId)
    case Some(q) => q.Required && !IsNullOrEmpty(a.Value)
    case None => false
  }

  /**
   * An answer fills a slot exactly when its value is neither null nor empty and the first
   * question carrying its printed id exists and is required.
   */
  lemma FillsRequiredSlotMeaning(questions: seq<Question>, a: Answer)
    ensures FillsRequiredSlot(questions, a) <==>
      !IsNullOrEmpty(a.Value)
      && exists k :: 0 <= k < |questions| && IdString(questions[k]) == a.QuestionId && questions[k].Required
                     && forall j :: 0 <= j < k ==> IdString(questions[j]) != a.QuestionId
  {
    FindQuestionFirstMatch(questions, a.QuestionId);
    if exists k :: 0 <= k < |questions| && IdString(questions[k]) == a.QuestionId && questions[k].Required
                   && forall j :: 0 <= j < k ==> IdString(questions[j]) != a.QuestionId {
      var k :| 0 <= k < |questions| && IdString(questions[k]) == a.QuestionId && questions[k].Required
               && forall j :: 0 <= j < k ==> IdString(questions[j]) != a.QuestionId;
      var m :| 0 <= m < |questions| && questions[m] == FindQuestion(questions, a.QuestionId).value
               && IdString(questions[m]) == a.QuestionId
               && forall j :: 0 <= j < m ==> IdString(questions[j]) != a.QuestionId;
      assert m == k;
    }
  }

  /** `Questions.Count(q => q.Required)`. */
  function RequiredCount(questions: seq<Question>): (n: nat)
    ensures n <= |questions|
    ensures n == 0 <==> forall i :: 0 <= i < |questions| ==> !questions[i].Required
    ensures n == |questions| <==> forall i :: 0 <= i < |questions| ==> questions[i].Required
  {
    if |questions| == 0 then 0
    else
      assert forall i :: 1 <= i < |questions| ==> questions[i] == questions[1..][i - 1];
      (if questions[0].Required then 1 else 0) + RequiredCount(questions[1..])
  }

  /** Counting over two question lists one after the other adds their counts. */
  lemma {:induction false} RequiredCountAppend(xs: seq<Question>, ys: seq<Question>)
    ensures RequiredCount(xs + ys) == RequiredCount(xs) + RequiredCount(ys)
  {
    if |xs| == 0 {
      assert xs + ys == ys;
    } else {
      assert (xs + ys)[0] == xs[0] && (xs + ys)[1..] == xs[1..] + ys;
      RequiredCountAppend(xs[1..], ys);
    }
  }

  /** A single question counts 1 exactly when it is required. */
  lemma RequiredCountSingle(q: Question)
    ensures RequiredCount([q]) == (if q.Required then 1 else 0)
  {
    assert [q][1..] == [];
  }

  /** `Answers.Count(a => …)`: the answers of one response that fill a required slot. */
  function AnsweredRequired(questions: seq<Question>, answers: seq<Answer>): (n: nat)
    ensures n <= |answers|
  {
    if |answers| == 0 then 0
    else (if FillsRequiredSlot(questions, answers[0]) then 1 else 0) + AnsweredRequired(questions, answers[1..])
  }

  /** The sum of `AnsweredRequired` over all responses, given as their answer lists. */
  function TotalAnswered(questions: seq<Question>, responses: seq<seq<Answer>>): nat
  {
    if |responses| == 0 then 0
    else TotalAnswered(questions, responses[..|responses| - 1])
         + AnsweredRequired(questions, responses[|responses| - 1])
  }

  /** The total over two groups of responses is the sum of the groups' totals. */
  lemma {:induction false} TotalAnsweredAppend(questions: seq<Question>, xs: seq<seq<Answer>>, ys: seq<seq<Answer>>)
    ensures TotalAnswered(questions, xs + ys) == TotalAnswered(questions, xs) + TotalAnswered(questions, ys)
  {
    if |ys| == 0 {
      assert xs + ys == xs;
    } else {
      var zs := xs + ys;
      assert zs[..|zs| - 1] == xs + ys[..|ys| - 1] && zs[|zs| - 1] == ys[|ys| - 1];
      TotalAnsweredAppend(questions, xs, ys[..|ys| - 1]);
    }
  }

  /** One response contributes exactly its own count of filled required slots. */
  lemma TotalAnsweredSingle(questions: seq<Question>, answers: seq<Answer>)
    ensures TotalAnswered(questions, [answers]) == AnsweredRequired(questions, answers)
  {
    assert [answers][..0] == [];
  }

  /**
   * The completion rate: 0 without responses, 100 without required questions, and otherwise
   * the filled required slots as a percentage of all of them (responses times required
   * questions), truncated toward zero as `(int)(answered * 100.0 / slots)` does.
   */
  function CompletionRate(questions: seq<Question>, responses: seq<seq<Answer>>): (rate: int)
    ensures rate >= 0
    ensures |responses| == 0 ==> rate == 0
    ensures |responses| > 0 && RequiredCount(questions) == 0 ==> rate == 100
    ensures |responses| > 0 && RequiredCount(questions) > 0 ==>
      TruncatedPercentage(rate, TotalAnswered(questions, responses), |responses| * RequiredCount(questions))
  {
    if |responses| == 0 then 0
    else if RequiredCount(questions) == 0 then 100
    else
      var slots := |responses| * RequiredCount(questions);
      // With unbounded integers slots is positive here; the fallback mirrors the source.
      if slots > 0 then
        var answered := TotalAnswered(questions, responses);
        TruncatedQuotient(answered, slots);
        answered * 100 / slots
      else 100
  }

  /** `rate` is `answered` as a percentage of `slots`, truncated: the largest such integer not above it. */
  ghost predicate TruncatedPercentage(rate: int, answered: nat, slots: int)
  {
    rate >= 0 && rate * slots <= answered * 100 < (rate + 1) * slots
  }

  lemma TruncatedQuotient(answered: nat, slots: int)
    requires slots > 0
    ensures TruncatedPercentage(answered * 100 / slots, answered, slots)
  {
    Arithmetic.DivisionBounds(answered * 100, slots);
    Arithmetic.MultiplySuccessor(answered * 100 / slots, slots);
  }

  /** Counting distributes over concatenation of answer lists. */
  lemma {:induction false} AnsweredRequiredAppend(questions: seq<Question>, xs: seq<Answer>, ys: seq<Answer>)
    ensures AnsweredRequired(questions, xs + ys) == AnsweredRequired(questions, xs) + AnsweredRequired(questions, ys)
  {
    if |xs| > 0 {
      assert (xs + ys)[1..] == xs[1..] + ys;
      AnsweredRequiredAppend(questions, xs[1..], ys);
    } else {
      assert xs + ys == ys;
    }
  }

  /** An unknown id, an optional question or an empty value contributes nothing. */
  lemma NonFillingAnswerAddsNothing(questions: seq<Question>, answers: seq<Answer>, a: Answer)
    requires !FillsRequiredSlot(questions, a)
    ensures AnsweredRequired(questions, answers + [a]) == AnsweredRequired(questions, answers)
  {
    AnsweredRequiredAppend(questions, answers, [a]);
  }

  /** No two answers of one response fill a slot of the same question id. */
  predicate NoRepeatedRequiredAnswer(questions: seq<Question>, answers: seq<Answer>)
  {
    forall i, j :: 0 <= i < j < |answers| && FillsRequiredSlot(questions, answers[i])
                   && FillsRequiredSlot(questions, answers[j])
                   ==> answers[i].QuestionId != answers[j].QuestionId
  }

  /** The ids that the answers of one response fill. */
  function FilledIds(questions: seq<Question>, answers: seq<Answer>): set<string>
  {
    set i | 0 <= i < |answers| && FillsRequiredSlot(questions, answers[i]) :: answers[i].QuestionId
  }

  /** The printed ids of the required questions. */
  function RequiredIds(questions: seq<Question>): set<string>
  {
    set i | 0 <= i < |questions| && questions[i].Required :: IdString(questions[i])
  }

  lemma FilledIdsUnfold(questions: seq<Question>, answers: seq<Answer>)
    requires |answers| > 0
    ensures FilledIds(questions, answers)
            == (if FillsRequiredSlot(questions, answers[0]) then {answers[0].QuestionId} else {})
               + FilledIds(questions, answers[1..])
  {
    var rest := answers[1..];
    forall id | id in FilledIds(questions, answers)
      ensures id == answers[0].QuestionId || id in FilledIds(questions, rest)
    {
      var i :| 0 <= i < |answers| && FillsRequiredSlot(questions, answers[i]) && answers[i].QuestionId == id;
      if i > 0 { assert rest[i - 1] == answers[i]; }
    }
    forall id | id in FilledIds(questions, rest)
      ensures id in FilledIds(questions, answers)
    {
      var i :| 0 <= i < |rest| && FillsRequiredSlot(questions, rest[i]) && rest[i].QuestionId == id;
      assert answers[i + 1] == rest[i];
    }
  }

  lemma NoRepeatedHead(questions: seq<Question>, answers: seq<Answer>)
    requires |answers| > 0 && NoRepeatedRequiredAnswer(questions, answers)
    ensures NoRepeatedRequiredAnswer(questions, answers[1..])
    ensures FillsRequiredSlot(questions, answers[0]) ==> answers[0].QuestionId !in FilledIds(questions, answers[1..])
  {
    var rest := answers[1..];
    forall i, j | 0 <= i < j < |rest| && FillsRequiredSlot(questions, rest[i])
                  && FillsRequiredSlot(questions, rest[j])
      ensures rest[i].QuestionId != rest[j].QuestionId
    {
      assert rest[i] == answers[i + 1] && rest[j] == answers[j + 1];
    }
    if FillsRequiredSlot(questions, answers[0]) {
      forall i | 0 <= i < |rest| && FillsRequiredSlot(questions, rest[i])
        ensures rest[i].QuestionId != answers[0].QuestionId
      {
        assert answers[i + 1] == rest[i];
      }
    }
  }

  lemma {:induction false} FilledIdsCount(questions: seq<Question>, answers: seq<Answer>)
    requires NoRepeatedRequiredAnswer(questions, answers)
    ensures AnsweredRequired(questions, answers) == |FilledIds(questions, answers)|
  {
    if |answers| > 0 {
      NoRepeatedHead(questions, answers);
      FilledIdsCount(questions, answers[1..]);
      FilledIdsUnfold(questions, answers);
    } else {
      assert FilledIds(questions, answers) == {};
    }
  }

  lemma FilledIdsAreRequiredIds(questions: seq<Question>, answers: seq<Answer>)
    ensures FilledIds(questions, answers) <= RequiredIds(questions)
  {
    forall id | id in FilledIds(questions, answers)
      ensures id in RequiredIds(questions)
    {
      var i :| 0 <= i < |answers| && FillsRequiredSlot(questions, answers[i]) && answers[i].QuestionId == id;
      FindQuestionFirstMatch(questions, id);
      var k :| 0 <= k < |questions| && questions[k] == FindQuestion(questions, id).value
               && IdString(questions[k]) == id
               && forall j :: 0 <= j < k ==> IdString(questions[j]) != id;
      assert questions[k].Required;
    }
  }

  lemma {:induction false} RequiredIdsCount(questions: seq<Question>)
    ensures |RequiredIds(questions)| <= RequiredCount(questions)
  {
    if |questions| > 0 {
      var rest := questions[1..];
      RequiredIdsCount(rest);
      var head := if questions[0].Required then {IdString(questions[0])} else {};
      assert RequiredIds(questions) == head + RequiredIds(rest) by {
        forall id | id in RequiredIds(questions)
          ensures id in head + RequiredIds(rest)
        {
          var i :| 0 <= i < |questions| && questions[i].Required && IdString(questions[i]) == id;
          if i > 0 { assert rest[i - 1] == questions[i]; }
        }
        forall id | id in RequiredIds(rest)
          ensures id in RequiredIds(questions)
        {
          var i :| 0 <= i < |rest| && rest[i].Required && IdString(rest[i]) == id;
          assert questions[i + 1] == rest[i];
        }
      }
    } else {
      assert RequiredIds(questions) == {};
    }
  }

  lemma SubsetCardinality(a: set<string>, b: set<string>)
    requires a <= b
    ensures |a| <= |b|
  {
    assert b == a + (b - a);
  }

  /** Without repeated answers one response fills at most as many slots as there are required questions. */
  lemma AnsweredRequiredAtMostRequired(questions: seq<Question>, answers: seq<Answer>)
    requires NoRepeatedRequiredAnswer(questions, answers)
    ensures AnsweredRequired(questions, answers) <= RequiredCount(questions)
  {
    FilledIdsCount(questions, answers);
    FilledIdsAreRequiredIds(questions, answers);
    SubsetCardinality(FilledIds(questions, answers), RequiredIds(questions));
    RequiredIdsCount(questions);
  }

  lemma {:induction false} TotalAnsweredAtMostSlots(questions: seq<Question>, responses: seq<seq<Answer>>)
    requires forall i :: 0 <= i < |responses| ==> NoRepeatedRequiredAnswer(questions, responses[i])
    ensures TotalAnswered(questions, responses) <= |responses| * RequiredCount(questions)
  {
    if |responses| > 0 {
      var n := |responses|;
      TotalAnsweredAtMostSlots(questions, responses[..n - 1]);
      AnsweredRequiredAtMostRequired(questions, responses[n - 1]);
      Arithmetic.MultiplySuccessor(n - 1, RequiredCount(questions));
    }
  }

  lemma PercentageCap(rate: int, answered: nat, slots: int)
    requires slots > 0 && answered <= slots && TruncatedPercentage(rate, answered, slots)
    ensures rate <= 100
  {
  }

  /** The rate never exceeds 100 when no response answers a required question twice. */
  lemma CompletionRateAtMost100(questions: seq<Question>, responses: seq<seq<Answer>>)
    requires forall i :: 0 <= i < |responses| ==> NoRepeatedRequiredAnswer(questions, responses[i])
    ensures 0 <= CompletionRate(questions, responses) <= 100
  {
    if |responses| > 0 && RequiredCount(questions) > 0 {
      TotalAnsweredAtMostSlots(questions, responses);
      PercentageCap(CompletionRate(questions, responses), TotalAnswered(questions, responses),
                    |responses| * RequiredCount(questions));
    }
  }

  /** Repeated answers are counted twice: one required question answered twice in one response gives 200. */
  lemma RepeatedAnswersCountTwice()
    ensures var questions := [Question(1, Some("Q"), "text", true, [], None)];
            var a := Answer("1", None, "text", Some("x"), true);
            CompletionRate(questions, [[a, a]]) == 200
  {
    var questions := [Question(1, Some("Q"), "text", true, [], None)];
    var a := Answer("1", None, "text", Some("x"), true);
    assert FillsRequiredSlot(questions, a);
    assert [[a, a]][..0] == [];
    assert [a, a][1..] == [a];
  }
}
