/**
 * `SupabaseSurveyRepository` (the `src` web client): the survey row mapper and the
 * statistics computed from a survey and its response rows. Ratios are JavaScript numbers in
 * the program; here they are exact reals.
 */
module SurveyRepository {
  import opened Common
  import Numerals
  import Arithmetic

  /** A JSON value of a `jsonb` column; numbers are integers in this model. */
  datatype Json =
    | JNull
    | JBool(b: bool)
    | JNum(n: int)
    | JStr(s: string)
    | JArr(items: seq<Json>)
    | JObj(fields: map<string, Json>)

  /** JavaScript truthiness: `null`, `false`, `0` and `""` are falsy; arrays and objects are truthy. */
  predicate Truthy(v: Json)
    ensures !Truthy(v) <==> v == JNull || v == JBool(false) || v == JNum(0) || v == JStr("")
  {
    match v
    case JNull => false
    case JBool(b) => b
    case JNum(n) => n != 0
    case JStr(s) => s != ""
    case _ => true
  }

  /** The total number of characters of some strings. */
  function TotalLength(parts: seq<string>): nat
  {
    if |parts| == 0 then 0 else |parts[0]| + TotalLength(parts[1..])
  }

  /** `a.join(",")` of already converted elements: the parts with one comma between neighbours. */
  function JoinWithComma(parts: seq<string>): (joined: string)
    ensures |parts| == 0 ==> joined == ""
    ensures |parts| == 1 ==> joined == parts[0]
    ensures |parts| > 0 ==> |joined| == TotalLength(parts) + |parts| - 1
    ensures |parts| > 0 ==> joined[..|parts[0]|] == parts[0]
  {
    if |parts| == 0 then ""
    else if |parts| == 1 then parts[0]
    else parts[0] + "," + JoinWithComma(parts[1..])
  }

  /** Appending a part to a non-empty list appends a comma and that part to the joined text. */
  lemma {:induction false} JoinWithCommaSnoc(parts: seq<string>, p: string)
    requires |parts| > 0
    ensures JoinWithComma(parts + [p]) == JoinWithComma(parts) + "," + p
  {
    if |parts| > 1 {
      assert (parts + [p])[1..] == parts[1..] + [p];
      JoinWithCommaSnoc(parts[1..], p);
    }
  }

  /** `String(v)`, the property key JavaScript uses when `v` indexes an object. */
  function KeyString(v: Json): (k: string)
    ensures v.JNull? ==> k == "null"
    ensures v.JBool? ==> k == (if v.b then "true" else "false")
    ensures v.JNum? ==> k == Numerals.IntToString(v.n) && Numerals.ParseInt(k) == Some(v.n)
    ensures v.JStr? ==> k == v.s
    ensures v.JObj? ==> k == "[object Object]"
    ensures v.JArr? && |v.items| == 0 ==> k == ""
    ensures v.JArr? && |v.items| == 1 && !v.items[0].JNull? ==> k == KeyString(v.items[0])
  {
    match v
    case JNull => "null"
    case JBool(b) => if b then "true" else "false"
    case JNum(n) =>
      Numerals.ParseIntToString(n);
      Numerals.IntToString(n)
    case JStr(s) => s
    // Array.prototype.join writes null elements as the empty string.
    case JArr(items) =>
      JoinWithComma(seq(|items|, i requires 0 <= i < |items| =>
                          if items[i].JNull? then "" else KeyString(items[i])))
    case JObj(_) => "[object Object]"
  }

  /** A question as the `questions` column of a survey row holds it. */
  datatype SurveyQuestion = SurveyQuestion(
    id: string,
    title: string,
    questionType: string,
    required: bool,
    options: seq<string>)

  /** A row of the `surveys` table. */
  datatype SurveyRow = SurveyRow(
    id: string,
    title: string,
    description: Option<string>,
    questions: Option<seq<SurveyQuestion>>,
    created_at: string,
    delivery_config: Option<Json>)

  /** The domain survey the repository hands out. */
  datatype Survey = Survey(
    id: string,
    title: string,
    description: Option<string>,
    questions: seq<SurveyQuestion>,
    createdAt: string,
    deliveryConfig: Option<Json>)

  /** `mapToSurvey`: rename the columns; a missing question list becomes the empty list. */
  function MapToSurvey(row: SurveyRow): (s: Survey)
    ensures row.questions.None? ==> s.questions == []
    ensures row.questions.Some? ==> s.questions == row.questions.value
    ensures s.id == row.id && s.title == row.title && s.description == row.description
    ensures s.createdAt == row.created_at && s.deliveryConfig == row.delivery_config
  {
    Survey(row.id, row.title, row.description,
           match row.questions case Some(qs) => qs case None => [],
           row.created_at, row.delivery_config)
  }

  /** The two columns of a `survey_responses` row that the statistics read. */
  datatype ResponseRow = ResponseRow(
    answers: Option<map<string, Json>>,
    completion_time: Option<real>)

  // ---------------------------------------------------------------------------
  // Average completion time

  /** `completion_time || 0`. */
  function TimeOrZero(r: ResponseRow): (t: real)
    ensures r.completion_time.None? ==> t == 0.0
    ensures r.completion_time.Some? ==> t == r.completion_time.value
  {
    match r.completion_time case Some(t) => t case None => 0.0
  }

  /** `map(r => r.completion_time || 0).filter(t => t > 0)`: row by row, see `PositiveTimesSnoc`. */
  function PositiveTimes(rows: seq<ResponseRow>): (ts: seq<real>)
    ensures forall i :: 0 <= i < |ts| ==> ts[i] > 0.0
    ensures |ts| <= |rows|
  {
    if |rows| == 0 then []
    else PositiveTimes(rows[..|rows| - 1])
         + (if TimeOrZero(rows[|rows| - 1]) > 0.0 then [TimeOrZero(rows[|rows| - 1])] else [])
  }

  function Sum(xs: seq<real>): real
  {
    if |xs| == 0 then 0.0 else Sum(xs[..|xs| - 1]) + xs[|xs| - 1]
  }

  /** `reduce((sum, time) => sum + time, 0)` over two lists one after the other adds their sums. */
  lemma {:induction false} SumAppend(xs: seq<real>, ys: seq<real>)
    ensures Sum(xs + ys) == Sum(xs) + Sum(ys)
  {
    if |ys| == 0 {
      assert xs + ys == xs;
    } else {
      var zs := xs + ys;
      assert zs[..|zs| - 1] == xs + ys[..|ys| - 1] && zs[|zs| - 1] == ys[|ys| - 1];
      SumAppend(xs, ys[..|ys| - 1]);
    }
  }

  /** The sum of one time is that time. */
  lemma SumSingle(t: real)
    ensures Sum([t]) == t
  {
    assert [t][..0] == [];
  }

  lemma {:induction false} SumOfPositives(xs: seq<real>)
    requires forall i :: 0 <= i < |xs| ==> xs[i] > 0.0
    ensures |xs| > 0 ==> Sum(xs) > 0.0
    ensures |xs| == 0 ==> Sum(xs) == 0.0
  {
    if |xs| > 0 {
      SumOfPositives(xs[..|xs| - 1]);
    }
  }

  /** The arithmetic mean of a list of positive numbers, 0 for the empty list. */
  function Mean(ts: seq<real>): (avg: real)
    requires forall i :: 0 <= i < |ts| ==> ts[i] > 0.0
    ensures |ts| == 0 ==> avg == 0.0
    ensures |ts| > 0 ==> avg > 0.0 && avg * (|ts| as real) == Sum(ts)
  {
    if |ts| > 0 then
      SumOfPositives(ts);
      Quotient(Sum(ts), |ts| as real);
      Sum(ts) / (|ts| as real)
    else 0.0
  }

  /** Extending the rows by one keeps the times so far and adds the new row's time exactly when it is positive. */
  lemma PositiveTimesSnoc(rows: seq<ResponseRow>, r: ResponseRow)
    ensures PositiveTimes([]) == []
    ensures TimeOrZero(r) > 0.0 ==> PositiveTimes(rows + [r]) == PositiveTimes(rows) + [TimeOrZero(r)]
    ensures TimeOrZero(r) <= 0.0 ==> PositiveTimes(rows + [r]) == PositiveTimes(rows)
  {
    assert (rows + [r])[..|rows|] == rows;
  }

  /** The kept times are exactly the positive `completion_time || 0` values of the rows. */
  lemma {:induction false} PositiveTimesMembers(rows: seq<ResponseRow>, t: real)
    ensures t in PositiveTimes(rows) <==> t > 0.0 && exists i :: 0 <= i < |rows| && TimeOrZero(rows[i]) == t
  {
    if |rows| > 0 {
      var n := |rows| - 1;
      var prefix := rows[..n];
      PositiveTimesMembers(prefix, t);
      if t > 0.0 && exists i :: 0 <= i < |rows| && TimeOrZero(rows[i]) == t {
        var i :| 0 <= i < |rows| && TimeOrZero(rows[i]) == t;
        if i < n {
          assert prefix[i] == rows[i];
        }
      }
      if t in PositiveTimes(prefix) {
        var i :| 0 <= i < |prefix| && TimeOrZero(prefix[i]) == t;
        assert rows[i] == prefix[i];
      }
    }
  }

  /** The indices of the rows with a strictly positive completion time. */
  function TimedRows(rows: seq<ResponseRow>): set<int>
  {
    set i | 0 <= i < |rows| && TimeOrZero(rows[i]) > 0.0
  }

  /** One time is kept per row with a positive completion time, and no other. */
  lemma {:induction false} PositiveTimesCount(rows: seq<ResponseRow>)
    ensures |PositiveTimes(rows)| == |TimedRows(rows)|
  {
    if |rows| > 0 {
      var n := |rows| - 1;
      var prefix := rows[..n];
      PositiveTimesCount(prefix);
      var extra: set<int> := if TimeOrZero(rows[n]) > 0.0 then {n} else {};
      assert TimedRows(rows) == TimedRows(prefix) + extra by {
        forall i ensures i in TimedRows(rows) <==> i in TimedRows(prefix) + extra {
          if 0 <= i < n { assert prefix[i] == rows[i]; }
        }
      }
      assert n !in TimedRows(prefix);
    }
  }

  lemma Quotient(a: real, b: real)
    requires b > 0.0
    ensures (a / b) * b == a
    ensures a > 0.0 ==> a / b > 0.0
  {
  }

  lemma ScaledQuotient(a: real, b: real)
    requires b > 0.0
    ensures (a / b * 100.0) * b == a * 100.0
    ensures a >= 0.0 ==> a / b * 100.0 >= 0.0
  {
    Quotient(a, b);
  }

  /** `averageCompletionTime`: the mean of the strictly positive completion times, or 0 when there is none. */
  function AverageCompletionTime(rows: seq<ResponseRow>): (avg: real)
    ensures var ts := PositiveTimes(rows);
      && (|ts| == 0 ==> avg == 0.0)
      && (|ts| > 0 ==> avg > 0.0 && avg * (|ts| as real) == Sum(ts))
  {
    var ts := PositiveTimes(rows);
    Mean(ts)
  }

  /**
   * A response with a positive completion time becomes one more term of the mean: the new
   * average is the old sum plus that time, over one more time than before.
   */
  lemma PositiveTimeCounted(rows: seq<ResponseRow>, r: ResponseRow)
    requires TimeOrZero(r) > 0.0
    ensures AverageCompletionTime(rows + [r])
      == (Sum(PositiveTimes(rows)) + TimeOrZero(r)) / ((|PositiveTimes(rows)| + 1) as real)
  {
    var ts := PositiveTimes(rows + [r]);
    PositiveTimesSnoc(rows, r);
    assert ts == PositiveTimes(rows) + [TimeOrZero(r)];
    assert ts[..|ts| - 1] == PositiveTimes(rows) && ts[|ts| - 1] == TimeOrZero(r);
    assert Sum(ts) == Sum(PositiveTimes(rows)) + TimeOrZero(r);
    assert AverageCompletionTime(rows + [r]) == Sum(ts) / (|ts| as real);
  }

  /** A response without a positive completion time does not move the average. */
  lemma NonPositiveTimeIgnored(rows: seq<ResponseRow>, r: ResponseRow)
    requires TimeOrZero(r) <= 0.0
    ensures AverageCompletionTime(rows + [r]) == AverageCompletionTime(rows)
  {
    assert (rows + [r])[..|rows|] == rows;
    assert PositiveTimes(rows + [r]) == PositiveTimes(rows);
  }

  // ---------------------------------------------------------------------------
  // Completion rate

  /** `survey.questions.filter(q => q.required).length`. */
  function RequiredCount(questions: seq<SurveyQuestion>): (n: nat)
    ensures n <= |questions|
  {
    if |questions| == 0 then 0
    else RequiredCount(questions[..|questions| - 1]) + (if questions[|questions| - 1].required then 1 else 0)
  }

  /** Counting over two question lists one after the other adds their counts. */
  lemma {:induction false} RequiredCountAppend(xs: seq<SurveyQuestion>, ys: seq<SurveyQuestion>)
    ensures RequiredCount(xs + ys) == RequiredCount(xs) + RequiredCount(ys)
  {
    if |ys| == 0 {
      assert xs + ys == xs;
    } else {
      var zs := xs + ys;
      assert zs[..|zs| - 1] == xs + ys[..|ys| - 1] && zs[|zs| - 1] == ys[|ys| - 1];
      RequiredCountAppend(xs, ys[..|ys| - 1]);
    }
  }

  /** A single question counts 1 exactly when it is required. */
  lemma RequiredCountSingle(q: SurveyQuestion)
    ensures RequiredCount([q]) == (if q.required then 1 else 0)
  {
    assert [q][..0] == [];
  }

  /** The count is 0 exactly when no question is required, and all of them exactly when every one is. */
  lemma {:induction false} RequiredCountMeaning(questions: seq<SurveyQuestion>)
    ensures RequiredCount(questions) == 0 <==> forall i :: 0 <= i < |questions| ==> !questions[i].required
    ensures RequiredCount(questions) == |questions| <==> forall i :: 0 <= i < |questions| ==> questions[i].required
  {
    if |questions| > 0 {
      var prefix := questions[..|questions| - 1];
      RequiredCountMeaning(prefix);
      assert forall i :: 0 <= i < |prefix| ==> prefix[i] == questions[i];
    }
  }

  /** `Object.keys(response.answers || {}).length`: every key counts, whatever its value. */
  function AnswerKeyCount(r: ResponseRow): (n: nat)
    ensures r.answers.None? ==> n == 0
    ensures r.answers.Some? ==> n == |r.answers.value.Keys|
  {
    match r.answers case Some(m) => |m.Keys| case None => 0
  }

  function TotalAnswerKeys(rows: seq<ResponseRow>): nat
  {
    if |rows| == 0 then 0 else TotalAnswerKeys(rows[..|rows| - 1]) + AnswerKeyCount(rows[|rows| - 1])
  }

  /** The key total over two groups of rows is the sum of the groups' totals. */
  lemma {:induction false} TotalAnswerKeysAppend(xs: seq<ResponseRow>, ys: seq<ResponseRow>)
    ensures TotalAnswerKeys(xs + ys) == TotalAnswerKeys(xs) + TotalAnswerKeys(ys)
  {
    if |ys| == 0 {
      assert xs + ys == xs;
    } else {
      var zs := xs + ys;
      assert zs[..|zs| - 1] == xs + ys[..|ys| - 1] && zs[|zs| - 1] == ys[|ys| - 1];
      TotalAnswerKeysAppend(xs, ys[..|ys| - 1]);
    }
  }

  /** One row contributes the number of keys of its answer record. */
  lemma TotalAnswerKeysSingle(r: ResponseRow)
    ensures TotalAnswerKeys([r]) == AnswerKeyCount(r)
  {
    assert [r][..0] == [];
  }

  /**
   * The completion rate: 0 without responses, 100 with responses but no required question,
   * otherwise all answer keys as a percentage of responses times required questions.
   */
  function CompletionRate(questions: seq<SurveyQuestion>, rows: seq<ResponseRow>): (rate: real)
    ensures |rows| == 0 ==> rate == 0.0
    ensures |rows| > 0 && RequiredCount(questions) == 0 ==> rate == 100.0
    ensures |rows| > 0 && RequiredCount(questions) > 0 ==>
      rate * ((|rows| * RequiredCount(questions)) as real) == (TotalAnswerKeys(rows) as real) * 100.0
    ensures rate >= 0.0
  {
    var required := RequiredCount(questions);
    if |rows| > 0 && required > 0 then
      Arithmetic.PositiveProduct(|rows|, required);
      var slots := (|rows| * required) as real;
      ScaledQuotient(TotalAnswerKeys(rows) as real, slots);
      (TotalAnswerKeys(rows) as real) / slots * 100.0
    else if |rows| > 0 then 100.0
    else 0.0
  }

  /** With responses but no required question the rate is 100, whatever the answers. */
  lemma CompletionRateWithoutRequired(questions: seq<SurveyQuestion>, rows: seq<ResponseRow>)
    requires |rows| > 0 && forall i :: 0 <= i < |questions| ==> !questions[i].required
    ensures CompletionRate(questions, rows) == 100.0
  {
    RequiredCountMeaning(questions);
  }

  /** Keys of optional questions count too, so the rate can pass 100. */
  lemma CompletionRateCanExceed100()
    ensures var questions := [SurveyQuestion("q1", "Q1", "text", true, []),
                              SurveyQuestion("q2", "Q2", "text", false, [])];
            CompletionRate(questions, [ResponseRow(Some(map["q1" := JStr("a"), "q2" := JStr("b")]), None)]) == 200.0
  {
    var questions := [SurveyQuestion("q1", "Q1", "text", true, []),
                      SurveyQuestion("q2", "Q2", "text", false, [])];
    assert questions[..1] == [questions[0]] && questions[..1][..0] == [];
    var rows := [ResponseRow(Some(map["q1" := JStr("a"), "q2" := JStr("b")]), None)];
    assert |map["q1" := JStr("a"), "q2" := JStr("b")].Keys| == 2 by {
      assert map["q1" := JStr("a"), "q2" := JStr("b")].Keys == {"q1", "q2"};
    }
    assert rows[..0] == [];
  }

  // ---------------------------------------------------------------------------
  // Per-question answer frequencies

  /** `r.answers && r.answers[id]`: the row holds a truthy answer under `id`. */
  predicate Answered(r: ResponseRow, id: string)
  {
    r.answers.Some? && id in r.answers.value && Truthy(r.answers.value[id])
  }

  /** A row answers `id` exactly when it has an answer record whose value under `id` is not falsy. */
  lemma AnsweredMeaning(r: ResponseRow, id: string)
    ensures Answered(r, id) <==>
      r.answers.Some? && id in r.answers.value
      && r.answers.value[id] !in [JNull, JBool(false), JNum(0), JStr("")]
  {
  }

  /** `responses.filter(r => r.answers && r.answers[id]).map(r => r.answers[id])`. */
  function QuestionAnswers(rows: seq<ResponseRow>, id: string): (vs: seq<Json>)
    ensures |vs| <= |rows|
    ensures forall i :: 0 <= i < |vs| ==> Truthy(vs[i])
  {
    if |rows| == 0 then []
    else
      var r := rows[|rows| - 1];
      QuestionAnswers(rows[..|rows| - 1], id) + (if Answered(r, id) then [r.answers.value[id]] else [])
  }

  /** Row by row, in order: a row adds its answer under `id` exactly when that answer is truthy. */
  lemma QuestionAnswersSnoc(rows: seq<ResponseRow>, r: ResponseRow, id: string)
    ensures QuestionAnswers([], id) == []
    ensures Answered(r, id) ==> QuestionAnswers(rows + [r], id) == QuestionAnswers(rows, id) + [r.answers.value[id]]
    ensures !Answered(r, id) ==> QuestionAnswers(rows + [r], id) == QuestionAnswers(rows, id)
  {
    assert (rows + [r])[..|rows|] == rows;
  }

  /** The selected values are exactly the truthy answers that the rows hold under `id`. */
  lemma {:induction false} QuestionAnswersMembers(rows: seq<ResponseRow>, id: string, v: Json)
    ensures v in QuestionAnswers(rows, id) <==>
      exists i :: 0 <= i < |rows| && Answered(rows[i], id) && rows[i].answers.value[id] == v
  {
    if |rows| > 0 {
      var n := |rows| - 1;
      var prefix := rows[..n];
      QuestionAnswersMembers(prefix, id, v);
      if exists i :: 0 <= i < |rows| && Answered(rows[i], id) && rows[i].answers.value[id] == v {
        var i :| 0 <= i < |rows| && Answered(rows[i], id) && rows[i].answers.value[id] == v;
        if i < n {
          assert prefix[i] == rows[i];
        }
      }
      if v in QuestionAnswers(prefix, id) {
        var i :| 0 <= i < |prefix| && Answered(prefix[i], id) && prefix[i].answers.value[id] == v;
        assert rows[i] == prefix[i];
      }
    }
  }

  /** The indices of the rows that answer the question `id`. */
  function AnsweringRows(rows: seq<ResponseRow>, id: string): set<int>
  {
    set i | 0 <= i < |rows| && Answered(rows[i], id)
  }

  /** One value is selected per answering row, and no other. */
  lemma {:induction false} QuestionAnswersCount(rows: seq<ResponseRow>, id: string)
    ensures |QuestionAnswers(rows, id)| == |AnsweringRows(rows, id)|
  {
    if |rows| > 0 {
      var n := |rows| - 1;
      var prefix := rows[..n];
      QuestionAnswersCount(prefix, id);
      var extra: set<int> := if Answered(rows[n], id) then {n} else {};
      assert AnsweringRows(rows, id) == AnsweringRows(prefix, id) + extra by {
        forall i ensures i in AnsweringRows(rows, id) <==> i in AnsweringRows(prefix, id) + extra {
          if 0 <= i < n { assert prefix[i] == rows[i]; }
        }
      }
      assert n !in AnsweringRows(prefix, id);
    }
  }

  /**
   * The buckets one answer adds 1 to: one per element of an array (each element keyed by
   * `String(a)`), otherwise one for the answer itself when it is truthy.
   */
  function BucketKeys(v: Json): (ks: seq<string>)
    ensures v.JArr? ==> |ks| == |v.items|
    ensures !v.JArr? && Truthy(v) ==> ks == [KeyString(v)]
    ensures !v.JArr? && !Truthy(v) ==> ks == []
  {
    if v.JArr? then seq(|v.items|, i requires 0 <= i < |v.items| => KeyString(v.items[i]))
    else if Truthy(v) then [KeyString(v)]
    else []
  }

  /** An array answer's buckets are `String(a)` of its elements, in order. */
  lemma ArrayBucketKeys(items: seq<Json>)
    ensures forall i :: 0 <= i < |items| ==> BucketKeys(JArr(items))[i] == KeyString(items[i])
  {
  }

  /** The number 5 and the string "5" land in the same bucket, as do `true` and "true". */
  lemma SharedBuckets()
    ensures BucketKeys(JNum(5)) == BucketKeys(JStr("5")) == ["5"]
    ensures BucketKeys(JBool(true)) == BucketKeys(JStr("true"))
    ensures BucketKeys(JArr([JNum(5), JStr("5")])) == ["5", "5"]
  {
    assert Numerals.NatToString(5) == "5";
  }

  /** The buckets of all answers, in the order the loop visits them. */
  function AllBucketKeys(answers: seq<Json>): seq<string>
  {
    if |answers| == 0 then []
    else AllBucketKeys(answers[..|answers| - 1]) + BucketKeys(answers[|answers| - 1])
  }

  /** `answerCounts[k] = (answerCounts[k] || 0) + 1`. */
  function Bump(counts: map<string, nat>, k: string): (r: map<string, nat>)
    ensures r.Keys == counts.Keys + {k}
    ensures k in counts ==> r[k] == counts[k] + 1
    ensures k !in counts ==> r[k] == 1
    ensures forall j :: j in counts && j != k ==> r[j] == counts[j]
  {
    counts[k := (if k in counts then counts[k] else 0) + 1]
  }

  /** The frequency record left by bumping every key in turn, starting from `{}`. */
  function Tally(keys: seq<string>): (counts: map<string, nat>)
    ensures |keys| == 0 <==> counts == map[]
    ensures |keys| > 0 ==> keys[|keys| - 1] in counts
  {
    if |keys| == 0 then map[] else Bump(Tally(keys[..|keys| - 1]), keys[|keys| - 1])
  }

  /**
   * The keys of the frequency record are exactly the keys seen, each mapped to the number
   * of times it occurs (so every count is at least 1).
   */
  lemma {:induction false} TallyCounts(keys: seq<string>)
    ensures forall k :: k in Tally(keys) <==> k in keys
    ensures forall k :: k in Tally(keys) ==> Tally(keys)[k] == multiset(keys)[k] && Tally(keys)[k] >= 1
  {
    if |keys| > 0 {
      var prefix := keys[..|keys| - 1];
      assert keys == prefix + [keys[|keys| - 1]];
      TallyCounts(prefix);
    }
  }

  lemma TallySnoc(keys: seq<string>, k: string)
    ensures Tally(keys + [k]) == Bump(Tally(keys), k)
  {
    assert (keys + [k])[..|keys|] == keys;
  }

  lemma AllBucketKeysSnoc(answers: seq<Json>, i: nat)
    requires i < |answers|
    ensures AllBucketKeys(answers[..i + 1]) == AllBucketKeys(answers[..i]) + BucketKeys(answers[i])
  {
    assert answers[..i + 1][..i] == answers[..i];
  }

  lemma ExtendPrefix(done: seq<string>, keys: seq<string>, j: nat)
    requires j < |keys|
    ensures done + keys[..j + 1] == (done + keys[..j]) + [keys[j]]
  {
    assert keys[..j + 1] == keys[..j] + [keys[j]];
  }

  /** Bumping the buckets of an array answer one element at a time. */
  method CountArray(counts: map<string, nat>, ghost done: seq<string>, items: seq<Json>)
    returns (updated: map<string, nat>)
    requires counts == Tally(done)
    ensures updated == Tally(done + BucketKeys(JArr(items)))
  {
    ghost var keys := BucketKeys(JArr(items));
    ArrayBucketKeys(items);
    updated := counts;
    var j := 0;
    assert done + keys[..0] == done;
    while j < |items|
      invariant 0 <= j <= |items|
      invariant updated == Tally(done + keys[..j])
    {
      var key := KeyString(items[j]);
      ExtendPrefix(done, keys, j);
      TallySnoc(done + keys[..j], key);
      updated := Bump(updated, key);
      j := j + 1;
    }
    assert keys[..j] == keys;
  }

  /**
   * The `answerCounts` loop of `getSurveyStatistics` for one question: arrays are walked
   * element by element, other (truthy) answers add one to their own bucket.
   */
  method CountAnswers(answers: seq<Json>) returns (counts: map<string, nat>)
    ensures counts == Tally(AllBucketKeys(answers))
  {
    counts := map[];
    var i := 0;
    while i < |answers|
      invariant 0 <= i <= |answers|
      invariant counts == Tally(AllBucketKeys(answers[..i]))
    {
      AllBucketKeysSnoc(answers, i);
      counts := CountAnswer(counts, AllBucketKeys(answers[..i]), answers[i]);
      i := i + 1;
    }
    assert answers[..i] == answers;
  }

  /** One pass of the `forEach`: an array is walked, another truthy answer bumps its own bucket. */
  method CountAnswer(counts: map<string, nat>, ghost done: seq<string>, answer: Json)
    returns (updated: map<string, nat>)
    requires counts == Tally(done)
    ensures updated == Tally(done + BucketKeys(answer))
  {
    if answer.JArr? {
      updated := CountArray(counts, done, answer.items);
    } else if Truthy(answer) {
      TallySnoc(done, KeyString(answer));
      updated := Bump(counts, KeyString(answer));
    } else {
      assert done + BucketKeys(answer) == done;
      updated := counts;
    }
  }

  /** No key listed twice, as in the key list of an object. */
  predicate Distinct(ks: seq<string>)
  {
    forall i, j :: 0 <= i < j < |ks| ==> ks[i] != ks[j]
  }

  /** The total of the counts listed under the keys `ks`. */
  function SumCounts(counts: map<string, nat>, ks: seq<string>): nat
    requires forall i :: 0 <= i < |ks| ==> ks[i] in counts
  {
    if |ks| == 0 then 0 else counts[ks[0]] + SumCounts(counts, ks[1..])
  }

  function SumMultiplicities(ms: multiset<string>, ks: seq<string>): nat
  {
    if |ks| == 0 then 0 else ms[ks[0]] + SumMultiplicities(ms, ks[1..])
  }

  lemma {:induction false} SumMultiplicitiesEmpty(ks: seq<string>)
    ensures SumMultiplicities(multiset{}, ks) == 0
  {
    if |ks| > 0 { SumMultiplicitiesEmpty(ks[1..]); }
  }

  lemma {:induction false} SumMultiplicitiesAdd(ms: multiset<string>, x: string, ks: seq<string>)
    ensures SumMultiplicities(ms + multiset{x}, ks) == SumMultiplicities(ms, ks) + multiset(ks)[x]
  {
    if |ks| > 0 {
      assert ks == [ks[0]] + ks[1..];
      assert multiset(ks) == multiset{ks[0]} + multiset(ks[1..]);
      SumMultiplicitiesAdd(ms, x, ks[1..]);
    }
  }

  lemma {:induction false} DistinctOnce(ks: seq<string>, x: string)
    requires Distinct(ks) && x in ks
    ensures multiset(ks)[x] == 1
  {
    assert ks == [ks[0]] + ks[1..];
    assert multiset(ks) == multiset{ks[0]} + multiset(ks[1..]);
    if ks[0] == x {
      assert x !in ks[1..] by {
        forall i | 0 <= i < |ks[1..]| ensures ks[1..][i] != x {
          assert ks[1..][i] == ks[i + 1];
        }
      }
    } else {
      assert Distinct(ks[1..]) by {
        forall i, j | 0 <= i < j < |ks[1..]| ensures ks[1..][i] != ks[1..][j] {
          assert ks[1..][i] == ks[i + 1] && ks[1..][j] == ks[j + 1];
        }
      }
      DistinctOnce(ks[1..], x);
    }
  }

  lemma {:induction false} SumMultiplicitiesCovers(keys: seq<string>, ks: seq<string>)
    requires Distinct(ks) && forall k :: k in keys ==> k in ks
    ensures SumMultiplicities(multiset(keys), ks) == |keys|
  {
    if |keys| == 0 {
      SumMultiplicitiesEmpty(ks);
    } else {
      var prefix, x := keys[..|keys| - 1], keys[|keys| - 1];
      assert keys == prefix + [x];
      assert multiset(keys) == multiset(prefix) + multiset{x};
      SumMultiplicitiesCovers(prefix, ks);
      SumMultiplicitiesAdd(multiset(prefix), x, ks);
      DistinctOnce(ks, x);
    }
  }

  lemma {:induction false} SumCountsOfTally(keys: seq<string>, ks: seq<string>)
    requires forall i :: 0 <= i < |ks| ==> ks[i] in Tally(keys)
    ensures SumCounts(Tally(keys), ks) == SumMultiplicities(multiset(keys), ks)
  {
    if |ks| > 0 {
      TallyCounts(keys);
      SumCountsOfTally(keys, ks[1..]);
    }
  }

  /**
   * Listing every key of a frequency record once, in any order (as `Object.entries` does),
   * the counts add up to the number of bucket keys counted.
   */
  lemma CountsSumToKeys(keys: seq<string>, ks: seq<string>)
    requires Distinct(ks) && forall k :: k in Tally(keys) <==> k in ks
    ensures SumCounts(Tally(keys), ks) == |keys|
  {
    TallyCounts(keys);
    SumCountsOfTally(keys, ks);
    SumMultiplicitiesCovers(keys, ks);
  }

  /** No answer is an array. */
  predicate ScalarOnly(answers: seq<Json>)
  {
    forall i :: 0 <= i < |answers| ==> !answers[i].JArr?
  }

  /** Truthy scalar answers add exactly one bucket key each. */
  lemma {:induction false} ScalarBucketKeys(answers: seq<Json>)
    requires ScalarOnly(answers) && forall i :: 0 <= i < |answers| ==> Truthy(answers[i])
    ensures |AllBucketKeys(answers)| == |answers|
  {
    if |answers| > 0 {
      ScalarBucketKeys(answers[..|answers| - 1]);
    }
  }

  lemma {:induction false} MultiplicityAtMostLength(keys: seq<string>, k: string)
    ensures multiset(keys)[k] <= |keys|
  {
    if |keys| > 0 {
      var prefix := keys[..|keys| - 1];
      assert keys == prefix + [keys[|keys| - 1]];
      MultiplicityAtMostLength(prefix, k);
    }
  }

  /**
   * With scalar answers only, the counts of a question (each key listed once) add up to the
   * number of rows that answer it, and no count exceeds that number.
   */
  lemma ScalarCountsSumToAnswered(rows: seq<ResponseRow>, id: string, ks: seq<string>)
    requires ScalarOnly(QuestionAnswers(rows, id))
    requires Distinct(ks) && forall k :: k in Tally(AllBucketKeys(QuestionAnswers(rows, id))) <==> k in ks
    ensures SumCounts(Tally(AllBucketKeys(QuestionAnswers(rows, id))), ks) == |AnsweringRows(rows, id)|
    ensures forall k :: k in Tally(AllBucketKeys(QuestionAnswers(rows, id))) ==>
      1 <= Tally(AllBucketKeys(QuestionAnswers(rows, id)))[k] <= |AnsweringRows(rows, id)|
  {
    var answers := QuestionAnswers(rows, id);
    var keys := AllBucketKeys(answers);
    ScalarBucketKeys(answers);
    QuestionAnswersCount(rows, id);
    CountsSumToKeys(keys, ks);
    TallyBounded(keys);
  }

  /** Every count of a frequency record lies between 1 and the number of keys counted. */
  lemma TallyBounded(keys: seq<string>)
    ensures forall k :: k in Tally(keys) ==> 1 <= Tally(keys)[k] <= |keys|
  {
    TallyCounts(keys);
    forall k | k in Tally(keys)
      ensures Tally(keys)[k] <= |keys|
    {
      MultiplicityAtMostLength(keys, k);
    }
  }

  /** Percentages of counts between 1 and the total lie in (0, 100]. */
  lemma AnswerStatsBounded(counts: map<string, nat>, total: nat)
    requires forall k :: k in counts ==> 1 <= counts[k] <= total
    ensures forall k :: k in AnswerStats(counts, total) ==>
      1 <= AnswerStats(counts, total)[k].count <= total
      && 0.0 < AnswerStats(counts, total)[k].percentage <= 100.0
  {
    forall k | k in counts
      ensures 0.0 < Percentage(counts[k], total) <= 100.0
    {
      PercentageMeaning(counts[k], total);
    }
  }

  /** With truthy scalar answers only, counted against at least as many responses, every entry lies in (0, 100]. */
  lemma ScalarAnswerStatsBounded(answers: seq<Json>, total: nat)
    requires ScalarOnly(answers) && forall i :: 0 <= i < |answers| ==> Truthy(answers[i])
    requires |answers| <= total
    ensures forall k :: k in AnswerStats(Tally(AllBucketKeys(answers)), total) ==>
      1 <= AnswerStats(Tally(AllBucketKeys(answers)), total)[k].count <= total
      && 0.0 < AnswerStats(Tally(AllBucketKeys(answers)), total)[k].percentage <= 100.0
  {
    var keys := AllBucketKeys(answers);
    ScalarBucketKeys(answers);
    TallyBounded(keys);
    AnswerStatsBounded(Tally(keys), total);
  }

  /** With scalar answers only, every answer percentage of a question lies in (0, 100]. */
  lemma ScalarPercentagesAtMost100(q: SurveyQuestion, rows: seq<ResponseRow>)
    requires ScalarOnly(QuestionAnswers(rows, q.id))
    ensures var stats := QuestionStatOf(q, rows).responses;
      forall k :: k in stats ==> 1 <= stats[k].count && 0.0 < stats[k].percentage <= 100.0
  {
    ScalarAnswerStatsBounded(QuestionAnswers(rows, q.id), |rows|);
  }

  /**
   * Example: one required rating question and two responses answering "5" and "": the
   * question has the single entry "5" with count 1 and 50 percent, and since both responses
   * carry the key the completion rate is 100.
   */
  lemma StatisticsExample()
    ensures var q := SurveyQuestion("q1", "Score", "rating", true, []);
            var rows := [ResponseRow(Some(map["q1" := JStr("5")]), None),
                         ResponseRow(Some(map["q1" := JStr("")]), None)];
            && QuestionStatOf(q, rows).responses == map["5" := AnswerStat(1, 50.0)]
            && CompletionRate([q], rows) == 100.0
  {
    var q := SurveyQuestion("q1", "Score", "rating", true, []);
    var r1 := ResponseRow(Some(map["q1" := JStr("5")]), None);
    var r2 := ResponseRow(Some(map["q1" := JStr("")]), None);
    ExampleAnswers(r1, r2);
    ExampleTally();
    assert Percentage(1, 2) == 50.0;
    ExampleRate(q, r1, r2);
  }

  lemma ExampleAnswers(r1: ResponseRow, r2: ResponseRow)
    requires r1 == ResponseRow(Some(map["q1" := JStr("5")]), None)
    requires r2 == ResponseRow(Some(map["q1" := JStr("")]), None)
    ensures QuestionAnswers([r1, r2], "q1") == [JStr("5")]
  {
    var rows := [r1, r2];
    assert rows[..1] == [r1] && rows[..1][..0] == [];
    assert Answered(r1, "q1") && !Answered(r2, "q1");
  }

  lemma ExampleTally()
    ensures Tally(AllBucketKeys([JStr("5")])) == map["5" := 1]
  {
    assert [JStr("5")][..0] == [];
    assert AllBucketKeys([JStr("5")]) == ["5"];
    assert ["5"][..0] == [];
  }

  lemma ExampleRate(q: SurveyQuestion, r1: ResponseRow, r2: ResponseRow)
    requires q == SurveyQuestion("q1", "Score", "rating", true, [])
    requires r1 == ResponseRow(Some(map["q1" := JStr("5")]), None)
    requires r2 == ResponseRow(Some(map["q1" := JStr("")]), None)
    ensures CompletionRate([q], [r1, r2]) == 100.0
  {
    var rows := [r1, r2];
    assert rows[..1] == [r1] && rows[..1][..0] == [];
    assert [q][..0] == [];
    assert map["q1" := JStr("5")].Keys == {"q1"};
    assert map["q1" := JStr("")].Keys == {"q1"};
    assert AnswerKeyCount(r1) == 1 && AnswerKeyCount(r2) == 1;
    assert TotalAnswerKeys([r1]) == 1;
    assert TotalAnswerKeys(rows) == 2;
  }

  /** One observed answer value's frequency: its count and its share of all responses. */
  datatype AnswerStat = AnswerStat(count: nat, percentage: real)

  /** The statistics of one question; answers are keys, since their listing order is unspecified. */
  datatype QuestionStat = QuestionStat(questionId: string, questionTitle: string, responses: map<string, AnswerStat>)

  /** `count / totalResponses * 100`, and 0 when there are no responses. */
  function Percentage(count: nat, total: nat): (p: real)
    ensures total == 0 ==> p == 0.0
    ensures p >= 0.0
  {
    if total > 0 then
      ScaledQuotient(count as real, total as real);
      (count as real) / (total as real) * 100.0
    else 0.0
  }

  /** The percentage is the count's share of the total, scaled to 100. */
  lemma PercentageMeaning(count: nat, total: nat)
    ensures total == 0 ==> Percentage(count, total) == 0.0
    ensures total > 0 ==> Percentage(count, total) * (total as real) == (count as real) * 100.0
    ensures Percentage(count, total) >= 0.0
    ensures count <= total ==> Percentage(count, total) <= 100.0
    ensures 0 < count && 0 < total ==> Percentage(count, total) > 0.0
  {
    if total > 0 {
      Quotient(count as real, total as real);
    }
  }

  /** `Object.entries(answerCounts).map(...)`, keyed by answer. */
  function AnswerStats(counts: map<string, nat>, total: nat): (stats: map<string, AnswerStat>)
    ensures stats.Keys == counts.Keys
    ensures forall k :: k in stats ==> stats[k] == AnswerStat(counts[k], Percentage(counts[k], total))
  {
    map k | k in counts :: AnswerStat(counts[k], Percentage(counts[k], total))
  }

  /** The statistics of question `q` over all response rows. */
  function QuestionStatOf(q: SurveyQuestion, rows: seq<ResponseRow>): (stat: QuestionStat)
    ensures stat.questionId == q.id && stat.questionTitle == q.title
  {
    QuestionStat(q.id, q.title, AnswerStats(Tally(AllBucketKeys(QuestionAnswers(rows, q.id))), |rows|))
  }

  /**
   * A question's statistics list exactly the bucket keys of its selected answers, each with
   * its number of occurrences and that number's share of all responses.
   */
  lemma QuestionStatCounts(q: SurveyQuestion, rows: seq<ResponseRow>)
    ensures var keys := AllBucketKeys(QuestionAnswers(rows, q.id));
      var stats := QuestionStatOf(q, rows).responses;
      && (forall k :: k in stats <==> k in keys)
      && (forall k :: k in stats ==>
            stats[k].count == multiset(keys)[k] && stats[k].percentage == Percentage(multiset(keys)[k], |rows|))
  {
    TallyCounts(AllBucketKeys(QuestionAnswers(rows, q.id)));
  }

  /** `survey.questions.map(...)`: one entry per question, in survey order. */
  function QuestionStats(questions: seq<SurveyQuestion>, rows: seq<ResponseRow>): (stats: seq<QuestionStat>)
    ensures |stats| == |questions|
    ensures forall i :: 0 <= i < |stats| ==>
      stats[i] == QuestionStatOf(questions[i], rows)
      && stats[i].questionId == questions[i].id && stats[i].questionTitle == questions[i].title
  {
    seq(|questions|, i requires 0 <= i < |questions| => QuestionStatOf(questions[i], rows))
  }

  /** The report `getSurveyStatistics` returns. */
  datatype SurveyStatistics = SurveyStatistics(
    totalResponses: nat,
    averageCompletionTime: real,
    completionRate: real,
    questionStats: seq<QuestionStat>)

  /** The report, or the "Survey not found" error for a missing survey. */
  function Statistics(survey: Option<Survey>, rows: seq<ResponseRow>): (r: Result<SurveyStatistics>)
    ensures survey.None? <==> r == Err("Survey not found")
    ensures survey.Some? ==>
      && r.Ok?
      && r.value.totalResponses == |rows|
      && r.value.averageCompletionTime == AverageCompletionTime(rows)
      && r.value.completionRate == CompletionRate(survey.value.questions, rows)
      && r.value.questionStats == QuestionStats(survey.value.questions, rows)
  {
    match survey
    case None => Err("Survey not found")
    case Some(s) =>
      Ok(SurveyStatistics(|rows|, AverageCompletionTime(rows), CompletionRate(s.questions, rows),
                          QuestionStats(s.questions, rows)))
  }

  /** The statistics of one question, its answers counted by the `answerCounts` loop. */
  method ComputeQuestionStat(q: SurveyQuestion, rows: seq<ResponseRow>) returns (stat: QuestionStat)
    ensures stat == QuestionStatOf(q, rows)
  {
    var counts := CountAnswers(QuestionAnswers(rows, q.id));
    stat := QuestionStat(q.id, q.title, AnswerStats(counts, |rows|));
  }

  /** `survey.questions.map(...)` as a loop over the questions. */
  method ComputeQuestionStats(questions: seq<SurveyQuestion>, rows: seq<ResponseRow>)
    returns (stats: seq<QuestionStat>)
    ensures stats == QuestionStats(questions, rows)
  {
    stats := [];
    var i := 0;
    while i < |questions|
      invariant 0 <= i <= |questions|
      invariant |stats| == i
      invariant forall k :: 0 <= k < i ==> stats[k] == QuestionStatOf(questions[k], rows)
    {
      var stat := ComputeQuestionStat(questions[i], rows);
      stats := stats + [stat];
      i := i + 1;
    }
  }

  /**
   * `getSurveyStatistics` after both queries: `survey` is what `getSurveyById` returned and
   * `rows` the response rows of the survey.
   */
  method GetSurveyStatistics(survey: Option<Survey>, rows: seq<ResponseRow>) returns (r: Result<SurveyStatistics>)
    ensures r == Statistics(survey, rows)
  {
    if survey.None? {
      return Err("Survey not found");
    }
    var questions := survey.value.questions;
    var stats := ComputeQuestionStats(questions, rows);
    r := Ok(SurveyStatistics(|rows|, AverageCompletionTime(rows), CompletionRate(questions, rows), stats));
  }
}
