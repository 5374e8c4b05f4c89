# Survey toolkit: a verified model of its survey and response logic

This project models the logic of a survey application that exists in two implementations.

- **The ASP.NET back end.**
  - `SurveyResponseService` validates and enriches a submitted response.
  - `SurveyService` stamps new surveys, lists surveys by status, guards survey e-mails and builds the statistics report.
  - `SurveysController` computes a survey's completion rate and filters the survey list by status.
- **The TypeScript clients.**
  - `SupabaseSurveyRepository` (the `src` client) maps a survey row to a survey and computes the survey statistics: the average completion time, the completion rate, and the per-question answer frequencies.
  - `SupabaseSurveyResponseRepository` (the `SurveyApp` client) maps responses to and from their database rows and builds the response a submission produces.

Each source file has its own Dafny module:

| module | file | models |
|---|---|---|
| `Common` | `common.dfy` | the `Option` and `Result` types |
| `Numerals` | `numerals.dfy` | `Int32.ToString()` / `String(n)` and `int.TryParse` |
| `Arithmetic` | `arithmetic.dfy` | bounds of integer division used by the rate and average computations |
| `Domain` | `domain.dfy` | C# entities; `Find`/`FirstOrDefault` by printed id; default time stamps |
| `ResponseService` | `response_service.dfy` | `SurveyResponseService` |
| `Completion` | `completion.dfy` | the completion-rate rule (identical code in `SurveysController` and `SurveyService`) |
| `SurveysController` | `surveys_controller.dfy` | `SurveysController` |
| `SurveyService` | `survey_service.dfy` | `SurveyService` |
| `SurveyRepository` | `survey_repository.dfy` | `src/.../SupabaseSurveyRepository.ts` |
| `ResponseRepository` | `response_repository.dfy` | `SurveyApp/.../SupabaseSurveyResponseRepository.ts` |

How the C# entities are modelled:

- `Survey` and `SurveyResponse` are classes, because the services update their fields in place.
- A response's answers are an `array<Answer>`, and `SubmitResponse` rewrites its elements.
- `DateTime` is a tick count. `default(DateTime)` is `0`.
- The clock is a parameter `now`, and so is every value a repository would load.

The methods with loops are proved against specification functions:

- `CalculateCompletionRate` and `GetSurveyStatistics` against `Completion.CompletionRate`;
- `EnrichAnswers` (the loop inside `SubmitResponse`) against `Enriched`;
- the TypeScript `CountAnswers` against `Tally`.

The lemmas about integer division and products live in a small `Arithmetic` module (`arithmetic.dfy`).

Properties proved include:

- the exact acceptance condition of every answer type;
- that `ParseInt` reads back any printed integer;
- idempotence of enrichment and of time stamping;
- truncation of the completion rate, and its bound of 100 when no response answers a required question twice;
- that the TypeScript answer counts are the multiplicities of the bucket keys of the selected answers (for keys that are not names of `Object.prototype` members), and, for scalar answers, add up to the number of answering responses and give percentages in (0, 100];
- both round trips of the response row mapping, and that a submission's answer list reproduces its record.

## Model

| member | source | states |
|---|---|---|
| Numerals.NatToString | ASP.NET/SurveyApp.Application/Services/SurveyResponseService.cs:53 | the printed id is a non-empty digit string with a leading zero only for 0 |
| Numerals.IntToString | ASP.NET/SurveyApp.Application/Services/SurveyResponseService.cs:53 | a non-negative id prints as its digits, a negative one as "-" and the digits of its magnitude; the text is all digits exactly when the id is non-negative |
| Numerals.ParseInt | ASP.NET/SurveyApp.Application/Services/SurveyResponseService.cs:93 | `int.TryParse`: the empty string, a bare sign, a first character that is neither digit nor sign, and any later non-digit all fail; a digit string parses to its value, after an optional `+` or `-` |
| Numerals.ParseIntRejects | ASP.NET/SurveyApp.Application/Services/SurveyResponseService.cs:93-96 | "abc", "1a", "1.5", "", "-" and "+-1" do not parse; "-12", "+7" and "007" parse to -12, 7 and 7 |
| Numerals.ParseIntToString | ASP.NET/SurveyApp.Application/Services/SurveyResponseService.cs:93 | parsing the printed form of any integer gives that integer back |
| Numerals.IntToStringInjective | ASP.NET/SurveyApp.Application/Services/SurveyResponseService.cs:53 | two question ids print the same exactly when they are equal, so an answer's `QuestionId` names at most one id |
| Domain.FindQuestion | ASP.NET/SurveyApp.Application/Services/SurveyResponseService.cs:53 | a found question carries exactly the printed id that was looked up |
| Domain.IdStringParses | ASP.NET/SurveyApp.Application/Services/SurveyResponseService.cs:53 | `q.Id.ToString()` parses back to the id, and two questions have the same key exactly when they have the same id |
| Domain.IsNullOrEmpty | ASP.NET/SurveyApp.Web/Controllers/SurveysController.cs:357 | `string.IsNullOrEmpty`: true exactly for null and for the empty string |
| Domain.FindQuestionFirstMatch | ASP.NET/SurveyApp.Application/Services/SurveyResponseService.cs:53 | `FindQuestion` returns the first question in survey order whose printed id equals the key, and none exactly when no question matches |
| Domain.Stamped | ASP.NET/SurveyApp.Application/Services/SurveyResponseService.cs:42-45 | a default time becomes `now`; any other time is kept |
| Domain.StampedIdempotent | ASP.NET/SurveyApp.Application/Services/SurveyResponseService.cs:42-45 | stamping a stamped time again (any later clock) changes nothing, given a non-default clock |
| ResponseService.RatingMin | ASP.NET/SurveyApp.Application/Services/SurveyResponseService.cs:95 | the minimum is the setting when present, else 1 |
| ResponseService.RatingMax | ASP.NET/SurveyApp.Application/Services/SurveyResponseService.cs:96 | the maximum is the setting when present, else 5 |
| ResponseService.ValidateAnswer | ASP.NET/SurveyApp.Application/Services/SurveyResponseService.cs:82-114 | a required question with a null/empty value is invalid; a rating is valid iff it parses to an integer within [min, max]; a single choice is valid iff the question is optional or the value is a non-empty option; every other type is valid iff optional or non-empty |
| ResponseService.RatingAcceptsExactlyInRange | ASP.NET/SurveyApp.Application/Services/SurveyResponseService.cs:91-99 | a rating question accepts the printed integer k iff min <= k <= max |
| ResponseService.MultipleChoiceIgnoresContent | ASP.NET/SurveyApp.Application/Services/SurveyResponseService.cs:105-108 | any two non-empty multiple-choice values receive the same verdict |
| ResponseService.EnrichAnswer | ASP.NET/SurveyApp.Application/Services/SurveyResponseService.cs:53-64 | id, value and type are kept; an answer whose question is not found is unchanged; otherwise its validity is the verdict of `ValidateAnswer` and an empty title becomes the question text |
| ResponseService.Enriched | ASP.NET/SurveyApp.Application/Services/SurveyResponseService.cs:51-65 | one answer out per answer in, each the `EnrichAnswer` of the answer at its position, so validity is recorded for found questions, unmatched answers stay as they were, and ids, values and types are kept |
| ResponseService.EnrichAnswerIdempotent | ASP.NET/SurveyApp.Application/Services/SurveyResponseService.cs:53-64 | enriching an enriched answer again changes nothing |
| ResponseService.EnrichedIdempotent | ASP.NET/SurveyApp.Application/Services/SurveyResponseService.cs:51-65 | submitting an already enriched response gives the same answers |
| ResponseService.UpdateAnswer | ASP.NET/SurveyApp.Application/Services/SurveyResponseService.cs:57-63 | for an answer whose question was found, the statements give exactly `EnrichAnswer` |
| ResponseService.EnrichAnswers | ASP.NET/SurveyApp.Application/Services/SurveyResponseService.cs:51-65 | the in-place loop leaves the array holding `Enriched` of its old contents |
| ResponseService.SubmitResponse | ASP.NET/SurveyApp.Application/Services/SurveyResponseService.cs:39-66 | the submission time is stamped; without a survey the answers are unchanged, with one they become `Enriched` of the old answers |
| ResponseService.ValidationExamples | ASP.NET/SurveyApp.Application/Services/SurveyResponseService.cs:84-112 | "3" passes and "0"/"abc" fail a 1..5 rating; "A" passes and "C"/"" fail a required A/B choice; "" passes an optional text question |
| Completion.FillsRequiredSlotMeaning | ASP.NET/SurveyApp.Web/Controllers/SurveysController.cs:356-357 | an answer counts exactly when its value is neither null nor empty and the first question with its printed id exists and is required |
| Completion.RequiredCount | ASP.NET/SurveyApp.Web/Controllers/SurveysController.cs:346 | between 0 and the number of questions; 0 exactly when no question is required, and all of them exactly when every question is |
| Completion.RequiredCountAppend | ASP.NET/SurveyApp.Web/Controllers/SurveysController.cs:346 | the count over two concatenated question lists is the sum of the counts |
| Completion.RequiredCountSingle | ASP.NET/SurveyApp.Web/Controllers/SurveysController.cs:346 | one question counts 1 exactly when it is required, else 0 |
| Completion.TotalAnsweredAppend | ASP.NET/SurveyApp.Web/Controllers/SurveysController.cs:353-359 | the filled-slot total over two concatenated response lists is the sum of the totals |
| Completion.TotalAnsweredSingle | ASP.NET/SurveyApp.Web/Controllers/SurveysController.cs:353-359 | one response contributes the number of its answers that fill a required slot |
| Completion.AnsweredRequired | ASP.NET/SurveyApp.Web/Controllers/SurveysController.cs:355-357 | at most one count per answer |
| Completion.CompletionRate | ASP.NET/SurveyApp.Web/Controllers/SurveysController.cs:341-363 | 0 without responses; 100 without required questions; otherwise the filled slots as a percentage of responses × required questions, truncated (rate·slots <= answered·100 < (rate+1)·slots) |
| Completion.TruncatedQuotient | ASP.NET/SurveyApp.Web/Controllers/SurveysController.cs:362 | integer division of answered·100 by the slots is the truncated percentage |
| Completion.AnsweredRequiredAppend | ASP.NET/SurveyApp.Web/Controllers/SurveysController.cs:355-357 | the count over two concatenated answer lists is the sum of the counts |
| Completion.NonFillingAnswerAddsNothing | ASP.NET/SurveyApp.Web/Controllers/SurveysController.cs:356-357 | an answer to an unknown or optional question, or with an empty value, adds nothing |
| Completion.FilledIdsCount | ASP.NET/SurveyApp.Web/Controllers/SurveysController.cs:355-357 | without repeated required answers the count is the number of distinct filled ids |
| Completion.AnsweredRequiredAtMostRequired | ASP.NET/SurveyApp.Web/Controllers/SurveysController.cs:346-357 | without repeated required answers one response fills at most as many slots as there are required questions |
| Completion.TotalAnsweredAtMostSlots | ASP.NET/SurveyApp.Web/Controllers/SurveysController.cs:350-360 | the total never exceeds responses × required questions when no response repeats a required answer |
| Completion.PercentageCap | ASP.NET/SurveyApp.Web/Controllers/SurveysController.cs:362 | a truncated percentage of at most all slots is at most 100 |
| Completion.CompletionRateAtMost100 | ASP.NET/SurveyApp.Web/Controllers/SurveysController.cs:341-363 | the rate lies in [0, 100] when no response answers a required question twice |
| Completion.RepeatedAnswersCountTwice | ASP.NET/SurveyApp.Web/Controllers/SurveysController.cs:355-362 | a required question answered twice in its only response gives rate 200 |
| SurveysController.CalculateCompletionRate | ASP.NET/SurveyApp.Web/Controllers/SurveysController.cs:341-363 | the loop computes exactly `CompletionRate` of the survey's questions and the responses' answers |
| SurveysController.WithStatus | ASP.NET/SurveyApp.Web/Controllers/SurveysController.cs:40-42 | a row is kept iff it is in the list and has exactly that status |
| SurveysController.WithStatusAppend | ASP.NET/SurveyApp.Web/Controllers/SurveysController.cs:40-42 | `Where` distributes over concatenation, so the kept rows stay in their original order |
| SurveysController.WithStatusIdempotent | ASP.NET/SurveyApp.Web/Controllers/SurveysController.cs:40-42 | filtering an already filtered list by the same status changes nothing |
| SurveysController.Filter | ASP.NET/SurveyApp.Web/Controllers/SurveysController.cs:38-44 | "active"/"draft"/"archived" keep exactly the rows with that status (as `WithStatus`, so in list order); any other filter (null included) keeps the whole list |
| SurveysController.FilterAppend | ASP.NET/SurveyApp.Web/Controllers/SurveysController.cs:38-44 | the filtered list keeps its order: filtering two lists one after the other gives the first one's rows followed by the second one's |
| SurveysController.FilterIdempotent | ASP.NET/SurveyApp.Web/Controllers/SurveysController.cs:38-44 | applying the same filter twice shows the same rows as applying it once |
| SurveysController.FilterLabel | ASP.NET/SurveyApp.Web/Controllers/SurveysController.cs:46 | the filter string, or "all" when it is null |
| SurveyService.CreateSurvey | ASP.NET/SurveyApp.Application/Services/SurveyService.cs:33-42 | `CreatedAt` is stamped with `now` iff it is the default; nothing else changes |
| SurveyService.LowerChar | ASP.NET/SurveyApp.Application/Services/SurveyService.cs:57 | upper-case ASCII letters map to lower case, every other character is kept, and the result is never upper case |
| SurveyService.ToLower | ASP.NET/SurveyApp.Application/Services/SurveyService.cs:57 | same length, lower-cased character by character |
| SurveyService.ToLowerIdempotent | ASP.NET/SurveyApp.Application/Services/SurveyService.cs:57 | lower-casing twice is lower-casing once |
| SurveyService.WithStatus | ASP.NET/SurveyApp.Application/Services/SurveyService.cs:59-61 | every kept survey has that status and every survey with that status is kept |
| SurveyService.WithStatusAppend | ASP.NET/SurveyApp.Application/Services/SurveyService.cs:59-61 | filtering distributes over concatenation |
| SurveyService.SurveysByStatus | ASP.NET/SurveyApp.Application/Services/SurveyService.cs:54-64 | a key that lower-cases to one of the three statuses keeps exactly the surveys with that stored status; any other key keeps all surveys |
| SurveyService.StatusKeyIsCaseInsensitive | ASP.NET/SurveyApp.Application/Services/SurveyService.cs:57-59 | the key "ACTIVE" selects exactly the surveys whose status is "active" |
| SurveyService.SendSurveyEmails | ASP.NET/SurveyApp.Application/Services/SurveyService.cs:66-76 | success iff the survey exists and there is at least one address |
| SurveyService.TruncDiv | ASP.NET/SurveyApp.Application/Services/SurveyService.cs:131 | C# integer division, truncated toward zero, for either sign of the total |
| SurveyService.SumCompletionTimes | ASP.NET/SurveyApp.Application/Services/SurveyService.cs:130 | non-negative when no time is negative, 0 when every time is missing |
| SurveyService.SumCompletionTimesSnoc | ASP.NET/SurveyApp.Application/Services/SurveyService.cs:130 | the sum of no times is 0; a further present time adds itself, a further missing time adds 0 |
| SurveyService.AverageCompletionTime | ASP.NET/SurveyApp.Application/Services/SurveyService.cs:126-132 | 0 without responses; otherwise the total time (missing times as 0) over the response count, truncated toward zero: for a non-negative total the largest integer whose product with the count does not exceed it, for a negative total the smallest integer whose product with the count is at least it |
| SurveyService.MissingTimeCountsAsZero | ASP.NET/SurveyApp.Application/Services/SurveyService.cs:130-131 | a response without a time adds 0 to the total but 1 to the divisor |
| SurveyService.GetSurveyStatistics | ASP.NET/SurveyApp.Application/Services/SurveyService.cs:79-143 | a missing survey gives zeros with start date `now`; otherwise the response count, `CompletionRate`, `AverageCompletionTime`, start date `CreatedAt`, no end date and no question stats |
| SurveyService.AverageExample | ASP.NET/SurveyApp.Application/Services/SurveyService.cs:126-132 | times 10 and missing over two responses average to 5 |
| SurveyRepository.MapToSurvey | src/infrastructure/repositories/SupabaseSurveyRepository.ts:173-182 | missing questions become `[]`; every other field is copied |
| SurveyRepository.PositiveTimes | src/infrastructure/repositories/SupabaseSurveyRepository.ts:100 | only strictly positive times are kept, at most one per response |
| SurveyRepository.TimeOrZero | src/infrastructure/repositories/SupabaseSurveyRepository.ts:100 | `completion_time or 0`: a missing time reads as 0, a present one as itself |
| SurveyRepository.SumAppend | src/infrastructure/repositories/SupabaseSurveyRepository.ts:102 | the sum over two concatenated lists of times is the sum of their sums |
| SurveyRepository.SumSingle | src/infrastructure/repositories/SupabaseSurveyRepository.ts:102 | the sum of one time is that time |
| SurveyRepository.PositiveTimesSnoc | src/infrastructure/repositories/SupabaseSurveyRepository.ts:100 | row by row in order: a row adds its time (a missing one read as 0) exactly when it is positive, nothing otherwise |
| SurveyRepository.PositiveTimesMembers | src/infrastructure/repositories/SupabaseSurveyRepository.ts:100 | a time is kept iff it is positive and some row has it as its time (a missing one read as 0) |
| SurveyRepository.PositiveTimesCount | src/infrastructure/repositories/SupabaseSurveyRepository.ts:100 | as many times are kept as there are rows with a positive time |
| SurveyRepository.SumOfPositives | src/infrastructure/repositories/SupabaseSurveyRepository.ts:101-103 | a non-empty sum of positive times is positive |
| SurveyRepository.Mean | src/infrastructure/repositories/SupabaseSurveyRepository.ts:101-103 | 0 for no times; otherwise a positive value whose product with the count is the sum |
| SurveyRepository.AverageCompletionTime | src/infrastructure/repositories/SupabaseSurveyRepository.ts:100-103 | 0 without positive times; otherwise the positive mean of the positive times |
| SurveyRepository.PositiveTimeCounted | src/infrastructure/repositories/SupabaseSurveyRepository.ts:100-103 | a row with a positive time makes the average the old sum plus that time over one more time |
| SurveyRepository.NonPositiveTimeIgnored | src/infrastructure/repositories/SupabaseSurveyRepository.ts:100 | a response with a missing, zero or negative time leaves the average unchanged |
| SurveyRepository.RequiredCount | src/infrastructure/repositories/SupabaseSurveyRepository.ts:106 | at most the number of questions |
| SurveyRepository.RequiredCountAppend | src/infrastructure/repositories/SupabaseSurveyRepository.ts:106 | the count over two concatenated question lists is the sum of the counts |
| SurveyRepository.RequiredCountSingle | src/infrastructure/repositories/SupabaseSurveyRepository.ts:106 | one question counts 1 exactly when it is required, else 0 |
| SurveyRepository.AnswerKeyCount | src/infrastructure/repositories/SupabaseSurveyRepository.ts:111 | a row without an answer record has 0 keys; otherwise the number of keys of the record, whatever their values |
| SurveyRepository.TotalAnswerKeysAppend | src/infrastructure/repositories/SupabaseSurveyRepository.ts:110-113 | the key total over two concatenated row lists is the sum of the totals |
| SurveyRepository.TotalAnswerKeysSingle | src/infrastructure/repositories/SupabaseSurveyRepository.ts:110-113 | one row contributes the key count of its answer record |
| SurveyRepository.RequiredCountMeaning | src/infrastructure/repositories/SupabaseSurveyRepository.ts:106 | 0 exactly when no question is required, and all of them exactly when every question is |
| SurveyRepository.CompletionRate | src/infrastructure/repositories/SupabaseSurveyRepository.ts:105-117 | 0 without responses; 100 without required questions; otherwise rate × responses × required = all answer keys × 100 |
| SurveyRepository.CompletionRateWithoutRequired | src/infrastructure/repositories/SupabaseSurveyRepository.ts:108-116 | with responses and no required question the rate is 100, whatever the answers |
| SurveyRepository.CompletionRateCanExceed100 | src/infrastructure/repositories/SupabaseSurveyRepository.ts:110-114 | keys of optional questions count too: one response answering one required and one optional question gives 200 |
| SurveyRepository.Truthy | src/infrastructure/repositories/SupabaseSurveyRepository.ts:122 | the falsy values are exactly `null`, `false`, `0` and `""` |
| SurveyRepository.AnsweredMeaning | src/infrastructure/repositories/SupabaseSurveyRepository.ts:122 | a row answers a question exactly when it has an answer record holding, under the question's id, a value other than `null`, `false`, `0` and `""` |
| SurveyRepository.QuestionAnswers | src/infrastructure/repositories/SupabaseSurveyRepository.ts:121-123 | at most one answer per response, each truthy |
| SurveyRepository.QuestionAnswersSnoc | src/infrastructure/repositories/SupabaseSurveyRepository.ts:121-123 | row by row in order: a row adds its answer under the question id exactly when that answer is truthy, nothing otherwise |
| SurveyRepository.QuestionAnswersMembers | src/infrastructure/repositories/SupabaseSurveyRepository.ts:121-123 | a value is selected iff some row holds it, truthy, under the question id |
| SurveyRepository.QuestionAnswersCount | src/infrastructure/repositories/SupabaseSurveyRepository.ts:121-123 | one value is selected per answering row |
| SurveyRepository.KeyString | src/infrastructure/repositories/SupabaseSurveyRepository.ts:131-134 | `String(v)`: "null", "true"/"false", a number's printed form `IntToString` (which parses back to it), a string itself, "[object Object]", "" for an empty array and the element's key for a one-element array |
| SurveyRepository.JoinWithComma | src/infrastructure/repositories/SupabaseSurveyRepository.ts:131-134 | `join(",")`: "" for no parts, the part itself for one; otherwise the parts' total length plus one comma between each two neighbours, starting with the first part |
| SurveyRepository.JoinWithCommaSnoc | src/infrastructure/repositories/SupabaseSurveyRepository.ts:131-134 | joining a non-empty list with one more part appends "," and that part, so the joined text is fixed for every list |
| SurveyRepository.BucketKeys | src/infrastructure/repositories/SupabaseSurveyRepository.ts:128-135 | an array answer adds one bucket per element; any other truthy answer adds the single bucket `String(v)`, a falsy one none |
| SurveyRepository.ArrayBucketKeys | src/infrastructure/repositories/SupabaseSurveyRepository.ts:129-131 | the buckets of an array answer are `String(a)` of its elements, in order |
| SurveyRepository.SharedBuckets | src/infrastructure/repositories/SupabaseSurveyRepository.ts:128-135 | the number 5 and the string "5" share a bucket, as do `true` and "true" |
| SurveyRepository.Bump | src/infrastructure/repositories/SupabaseSurveyRepository.ts:131-134 | the bumped key is present with its old count (0 if absent) plus one; every other count and key is kept |
| SurveyRepository.Tally | src/infrastructure/repositories/SupabaseSurveyRepository.ts:126-136 | no keys give the empty record, and the last key counted is present |
| SurveyRepository.TallyCounts | src/infrastructure/repositories/SupabaseSurveyRepository.ts:126-136 | the frequency record holds exactly the keys seen, each with its number of occurrences (at least 1) |
| SurveyRepository.CountArray | src/infrastructure/repositories/SupabaseSurveyRepository.ts:130-132 | the inner loop adds one to the bucket of every element of an array answer |
| SurveyRepository.CountAnswer | src/infrastructure/repositories/SupabaseSurveyRepository.ts:128-135 | one pass of the `forEach` adds the answer's buckets to the record |
| SurveyRepository.CountAnswers | src/infrastructure/repositories/SupabaseSurveyRepository.ts:126-136 | the counting loop leaves exactly `Tally` of all bucket keys |
| SurveyRepository.CountsSumToKeys | src/infrastructure/repositories/SupabaseSurveyRepository.ts:139-143 | listing each key once, the counts add up to the number of bucket keys |
| SurveyRepository.ScalarBucketKeys | src/infrastructure/repositories/SupabaseSurveyRepository.ts:133-135 | truthy scalar answers add exactly one bucket each |
| SurveyRepository.ScalarCountsSumToAnswered | src/infrastructure/repositories/SupabaseSurveyRepository.ts:121-143 | when no selected answer is an array, the counts listed for a question add up to the number of rows with a truthy answer to it, and each lies between 1 and that number |
| SurveyRepository.TallyBounded | src/infrastructure/repositories/SupabaseSurveyRepository.ts:126-136 | every count lies between 1 and the number of keys counted |
| SurveyRepository.Percentage | src/infrastructure/repositories/SupabaseSurveyRepository.ts:142 | 0 without responses, never negative |
| SurveyRepository.PercentageMeaning | src/infrastructure/repositories/SupabaseSurveyRepository.ts:142 | 0 without responses; otherwise percentage × total = count × 100, non-negative, at most 100 when count <= total, positive when the count is |
| SurveyRepository.AnswerStats | src/infrastructure/repositories/SupabaseSurveyRepository.ts:139-143 | one entry per counted answer, holding its count and percentage |
| SurveyRepository.AnswerStatsBounded | src/infrastructure/repositories/SupabaseSurveyRepository.ts:139-143 | counts between 1 and the total give entries with percentages in (0, 100] |
| SurveyRepository.ScalarAnswerStatsBounded | src/infrastructure/repositories/SupabaseSurveyRepository.ts:121-143 | with truthy scalar answers, counted against at least as many responses, every entry has count in [1, total] and percentage in (0, 100] |
| SurveyRepository.ScalarPercentagesAtMost100 | src/infrastructure/repositories/SupabaseSurveyRepository.ts:120-149 | when no answer to a question is an array, each of its entries has a positive count and a percentage in (0, 100] |
| SurveyRepository.QuestionStatOf | src/infrastructure/repositories/SupabaseSurveyRepository.ts:120-148 | the statistics carry the question's id and title |
| SurveyRepository.QuestionStatCounts | src/infrastructure/repositories/SupabaseSurveyRepository.ts:121-143 | a question's statistics list exactly the bucket keys of its selected answers, each with its number of occurrences and that number's percentage of all responses |
| SurveyRepository.QuestionStats | src/infrastructure/repositories/SupabaseSurveyRepository.ts:120-150 | one entry per question, in order, with its id, title and answer statistics |
| SurveyRepository.Statistics | src/infrastructure/repositories/SupabaseSurveyRepository.ts:95-157 | the "Survey not found" error exactly when the survey is missing; otherwise a report holding the number of rows, `AverageCompletionTime` of the rows, `CompletionRate` of the questions and rows, and `QuestionStats` of the questions and rows |
| SurveyRepository.ComputeQuestionStat | src/infrastructure/repositories/SupabaseSurveyRepository.ts:121-149 | one question's statistics, counted by the loop, are exactly `QuestionStatOf` |
| SurveyRepository.ComputeQuestionStats | src/infrastructure/repositories/SupabaseSurveyRepository.ts:120-150 | the loop over questions gives exactly `QuestionStats` |
| SurveyRepository.GetSurveyStatistics | src/infrastructure/repositories/SupabaseSurveyRepository.ts:96-157 | the error for a missing survey, otherwise the report; exactly `Statistics` |
| SurveyRepository.StatisticsExample | src/infrastructure/repositories/SupabaseSurveyRepository.ts:99-157 | answers "5" and "" give the single entry "5" with count 1 and 50 percent, and a completion rate of 100 |
| ResponseRepository.MapFromDatabase | SurveyApp/src/infrastructure/repositories/SupabaseSurveyResponseRepository.ts:107-120 | every column is copied to its domain field |
| ResponseRepository.MapToDatabase | SurveyApp/src/infrastructure/repositories/SupabaseSurveyResponseRepository.ts:123-136 | every domain field is copied to its column |
| ResponseRepository.ResponseRoundTrip | SurveyApp/src/infrastructure/repositories/SupabaseSurveyResponseRepository.ts:107-137 | reading back a written response gives the response, on all eleven fields |
| ResponseRepository.RowRoundTrip | SurveyApp/src/infrastructure/repositories/SupabaseSurveyResponseRepository.ts:107-137 | writing back a read row gives the row, on all eleven columns |
| ResponseRepository.MappersInjective | SurveyApp/src/infrastructure/repositories/SupabaseSurveyResponseRepository.ts:107-137 | distinct responses give distinct rows, and distinct rows give distinct responses |
| ResponseRepository.TypeOf | SurveyApp/src/infrastructure/repositories/SupabaseSurveyResponseRepository.ts:55 | "text" iff the value is a string, "multiple-choice" iff it is a list |
| ResponseRepository.ToQuestionResponses | SurveyApp/src/infrastructure/repositories/SupabaseSurveyResponseRepository.ts:48-60 | one response per entry, in order, with the key as question id, the value unchanged, the type chosen by the value, the title "Question " + key, and valid |
| ResponseRepository.Placeholder | SurveyApp/src/infrastructure/repositories/SupabaseSurveyResponseRepository.ts:54 | the title is "Question " followed by the question id |
| ResponseRepository.EntriesOfResponses | SurveyApp/src/infrastructure/repositories/SupabaseSurveyResponseRepository.ts:48-60 | the submitted entries can be read back from the answer list, so the conversion loses nothing |
| ResponseRepository.ConvertedAnswersAreValid | SurveyApp/src/infrastructure/repositories/SupabaseSurveyResponseRepository.ts:54-57 | every converted answer is valid, and is typed "text" iff its value is a string |
| ResponseRepository.OneResponsePerKey | SurveyApp/src/infrastructure/repositories/SupabaseSurveyResponseRepository.ts:48-60 | for a record with distinct keys, the question ids are exactly the keys and no two answers share one |
| ResponseRepository.SubmittedAt | SurveyApp/src/infrastructure/repositories/SupabaseSurveyResponseRepository.ts:69 | a present, non-empty submitted time is kept; otherwise the time is `now` |
| ResponseRepository.BuildResponse | SurveyApp/src/infrastructure/repositories/SupabaseSurveyResponseRepository.ts:62-73 | the new id; survey, respondent and client-link fields copied; the submitted time rule; the converted answers; no completion time |
| ResponseRepository.SubmitReturnsBuiltResponse | SurveyApp/src/infrastructure/repositories/SupabaseSurveyResponseRepository.ts:75-83 | if the database echoes the inserted row, the returned response is the one built, and its answers reproduce the submitted record |
| ResponseRepository.SubmissionExample | SurveyApp/src/infrastructure/repositories/SupabaseSurveyResponseRepository.ts:48-73 | an empty submitted time is replaced by the clock; a string answer is typed "text" and a list "multiple-choice" |

## Left out

- All database, HTTP, Supabase and Entity Framework calls (`GetByIdAsync`, `AddAsync`, `supabase.from(...)`, `uuidv4()`, the `PGRST116` branch, the `Task<bool>` results). Their inputs and outputs are parameters.
- `DateTime.UtcNow` and `new Date().toISOString()` are the parameter `now`. Dates are tick counts or opaque strings.
- Numerals.ParseInt: `int.TryParse` also accepts surrounding white space and rejects values outside Int32. The model omits both. The range does not change any rating verdict, because the bounds are themselves Int32.
- Completion.CompletionRate: the source computes `(int)(answered * 100.0 / slots)` in double precision. The model uses exact integer division. The two agree unless the double quotient rounds up to an integer, which needs totals far beyond any survey.
- Completion.CompletionRate: Int32 overflow of `responses × required questions` is not modelled. Integers are unbounded.
- SurveyService.AverageCompletionTime: Int32 overflow of the summed completion times is not modelled.
- SurveyService.GetSurveyStatistics: `QuestionStats` is always the empty list, as the source never fills it.
- SurveyRepository: JavaScript numbers are exact reals for the average, the completion rate and the percentages, and integers inside answer JSON. IEEE rounding is not modelled.
- SurveyRepository.KeyString: `String(n)` prints an integer of magnitude 1e21 or more in exponent form (such as "1e+21"). The model prints every integer in plain decimal digits with `IntToString`, so such numbers get a different bucket key.
- SurveyRepository.QuestionStat: `Object.entries` lists answer frequencies as an array. The model keys them by answer in a map, so their order is not modelled.
- SurveyRepository.QuestionAnswers: `r.answers[question.id]` also finds keys inherited from `Object.prototype` (such as "toString"). The model only sees the row's own keys.
- SurveyRepository.Tally: `answerCounts` is a plain `{}` that inherits from `Object.prototype`. For an answer such as "constructor", "toString" or "valueOf", `answerCounts[a] || 0` reads an inherited function, so that count becomes a string and its percentage `NaN`. For "__proto__" the assignment is ignored and the key disappears. The model counts every key exactly, as if the record had no prototype.
- SurveyRepository: an `answers` column holding JSON other than an object, and a null `responses` result (`responses?.length || 0`), are not modelled.
- ResponseRepository: the `answers` column is the answer list itself. JSON serialisation in the database is not modelled.
- ResponseRepository.SurveyResponse: carries the eleven fields the mappers read and write. The declared TypeScript interface lists only eight of them.
- ResponseRepository.Submission: the answer record is the list of its entries in `Object.entries` order. The model does not define how JavaScript orders the keys.
- ResponseRepository.SubmitReturnsBuiltResponse: database defaults and triggers that could change the inserted row are not modelled.
- Domain.SurveyResponse: answer objects updated in place are array elements. Aliasing of one answer object from several places is not modelled.
- Domain.Question: a null `Options` list and a null `Type`, `Status` or `QuestionId` make the C# code throw or fall through. The model's fields cannot be null.
- SurveyService.SurveysByStatus: C# `status.ToLower()` throws on a null `status`. The model's `status` is a string and cannot be null, so that exception is not modelled.
- SurveyService.ToLower: only ASCII letters are lower-cased. Culture-specific and non-ASCII case mappings are not modelled.
- `getResponseById`, `getResponsesBySurveyId` and `deleteResponse` are pure data access, with no logic beyond the mappers.
- The controller actions that only build view models or redirect are not part of this model. The same holds for the clients' `fetch` repositories and the React components.
