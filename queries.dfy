/** The read-only handlers: the survey list, the view and take pages of one
    survey, and its results page (app.py:127-169, 212-240). */
module Queries {
  import opened Ordering
  import opened Tables

  /** A handler's answer: a page, a 400 or a 404 with its message. */
  datatype Outcome<T> = Ok(value: T) | BadRequest(message: string) | NotFound(message: string)

  const SurveyNotFound := "Survey not found"

  /** What the view and take pages show: the survey and its questions. */
  datatype SurveyPage = SurveyPage(survey: Survey, questions: seq<Question>)

  /** What the results page shows: the survey, its questions and the
      answers of each of its responses. */
  datatype ResultsPage = ResultsPage(survey: Survey, questions: seq<Question>, responses: seq<map<string, string>>)

  /** ORDER BY id DESC, as an ascending key. */
  function Newness(s: Survey): int { -(s.id as int) }

  /** The survey with the larger id comes first. */
  lemma NewerFirst(a: Survey, b: Survey)
    ensures Newness(a) < Newness(b) <==> a.id > b.id
  {
  }

  /** SELECT * FROM surveys ORDER BY id DESC: every survey row, the
      highest id first. */
  function ListSurveys(surveys: seq<Survey>): (r: seq<Survey>)
    ensures multiset(r) == multiset(surveys)
    ensures forall i, j :: 0 <= i < j < |r| ==> r[i].id >= r[j].id
  {
    SortBy(surveys, Newness)
  }

  /** The survey row with the id and its questions by question_order, or
      404 "Survey not found" when no survey row has the id. */
  function LookupSurvey(surveys: seq<Survey>, questions: seq<Question>, surveyId: nat): (r: Outcome<SurveyPage>)
    ensures !r.BadRequest?
    ensures r.NotFound? <==> !HasSurvey(surveys, surveyId)
    ensures r.NotFound? ==> r.message == SurveyNotFound
    ensures r.Ok? ==> r.value.survey in surveys && r.value.survey.id == surveyId
    ensures r.Ok? ==> SortedBy(r.value.questions, QuestionOrder)
    ensures r.Ok? ==> multiset(r.value.questions) == multiset(Where(questions, QuestionSurvey, surveyId))
  {
    var matches := Where(surveys, SurveyKey, surveyId);
    WhereMembers(surveys, SurveyKey, surveyId);
    if matches == [] then
      assert forall i :: 0 <= i < |surveys| ==> surveys[i] !in matches;
      NotFound(SurveyNotFound)
    else
      assert matches[0] in matches;
      Ok(SurveyPage(matches[0], SortBy(Where(questions, QuestionSurvey, surveyId), QuestionOrder)))
  }

  /** The answers of each response row, in row order. */
  function AnswersOf(rows: seq<Response>): (r: seq<map<string, string>>)
    ensures |r| == |rows|
    ensures forall k :: 0 <= k < |rows| ==> r[k] == rows[k].answers
  {
    if rows == [] then [] else [rows[0].answers] + AnswersOf(rows[1..])
  }

  /** The results page: 404 "Survey not found" as for the survey page,
      otherwise the survey, its questions by question_order and the answers
      of every response row with the survey id, in row order. */
  function SurveyResults(surveys: seq<Survey>, questions: seq<Question>, responses: seq<Response>, surveyId: nat)
    : (r: Outcome<ResultsPage>)
    ensures !r.BadRequest?
    ensures r.NotFound? <==> !HasSurvey(surveys, surveyId)
    ensures r.NotFound? ==> r.message == SurveyNotFound
    ensures r.Ok? ==> r.value.survey in surveys && r.value.survey.id == surveyId
    ensures r.Ok? ==> SortedBy(r.value.questions, QuestionOrder)
    ensures r.Ok? ==> multiset(r.value.questions) == multiset(Where(questions, QuestionSurvey, surveyId))
    ensures r.Ok? ==> |r.value.responses| == |Where(responses, ResponseSurvey, surveyId)|
    ensures r.Ok? ==> forall k :: 0 <= k < |r.value.responses| ==>
                        r.value.responses[k] == Where(responses, ResponseSurvey, surveyId)[k].answers
  {
    match LookupSurvey(surveys, questions, surveyId)
    case Ok(page) => Ok(ResultsPage(page.survey, page.questions, AnswersOf(Where(responses, ResponseSurvey, surveyId))))
    case NotFound(message) => NotFound(message)
    case BadRequest(message) => BadRequest(message)
  }

  lemma {:induction false} AnswersOfAppend(rows: seq<Response>, row: Response)
    ensures AnswersOf(rows + [row]) == AnswersOf(rows) + [row.answers]
  {
    if rows != [] {
      AnswersOfAppend(rows[1..], row);
      assert (rows + [row])[1..] == rows[1..] + [row];
    }
  }

  /** With ids ascending in insertion order, the list is the table read
      backwards. */
  lemma ListNewestFirst(surveys: seq<Survey>)
    requires StrictlyAscending(surveys, SurveyKey)
    ensures ListSurveys(surveys) == Reverse(surveys)
  {
    SortByDescending(surveys, Newness);
  }

  /** When the orders of one survey's questions ascend in insertion order
      (as every handler keeps them), its pages list its questions exactly
      as they were stored. */
  lemma LookupStoredOrder(surveys: seq<Survey>, questions: seq<Question>, surveyId: nat)
    requires OrdersAscend(questions)
    requires HasSurvey(surveys, surveyId)
    ensures LookupSurvey(surveys, questions, surveyId).value.questions == Where(questions, QuestionSurvey, surveyId)
  {
    WhereAscendingWithin(questions, QuestionSurvey, surveyId, QuestionOrder);
    SortBySorted(Where(questions, QuestionSurvey, surveyId), QuestionOrder);
  }

  /** After the rows of one survey id are deleted from all three tables,
      that id is not found, and every other id reads as before. */
  lemma QueriesAfterDelete(surveys: seq<Survey>, questions: seq<Question>, responses: seq<Response>, deleted: nat, other: nat)
    ensures LookupSurvey(WhereNot(surveys, SurveyKey, deleted), WhereNot(questions, QuestionSurvey, deleted), deleted).NotFound?
    ensures SurveyResults(WhereNot(surveys, SurveyKey, deleted), WhereNot(questions, QuestionSurvey, deleted),
                          WhereNot(responses, ResponseSurvey, deleted), deleted).NotFound?
    ensures other != deleted ==>
              LookupSurvey(WhereNot(surveys, SurveyKey, deleted), WhereNot(questions, QuestionSurvey, deleted), other)
              == LookupSurvey(surveys, questions, other)
    ensures other != deleted ==>
              SurveyResults(WhereNot(surveys, SurveyKey, deleted), WhereNot(questions, QuestionSurvey, deleted),
                            WhereNot(responses, ResponseSurvey, deleted), other)
              == SurveyResults(surveys, questions, responses, other)
  {
    var left := WhereNot(surveys, SurveyKey, deleted);
    WhereAbsent(left, SurveyKey, deleted);
    WhereMembers(left, SurveyKey, deleted);
    assert !HasSurvey(left, deleted) by {
      forall i | 0 <= i < |left| ensures left[i].id != deleted {
        assert left[i] in left;
      }
    }
    if other != deleted {
      WhereAfterDelete(surveys, SurveyKey, deleted, other);
      WhereAfterDelete(questions, QuestionSurvey, deleted, other);
      WhereAfterDelete(responses, ResponseSurvey, deleted, other);
    }
  }

  /** A response stored under the id of an existing survey is shown last
      on that survey's results page; whether or not a survey has its id,
      the results of every other id are unchanged. */
  lemma ResultsAfterSubmit(surveys: seq<Survey>, questions: seq<Question>, responses: seq<Response>, response: Response, other: nat)
    ensures HasSurvey(surveys, response.surveyId) ==>
              SurveyResults(surveys, questions, responses + [response], response.surveyId).value.responses
              == SurveyResults(surveys, questions, responses, response.surveyId).value.responses + [response.answers]
    ensures other != response.surveyId ==>
              SurveyResults(surveys, questions, responses + [response], other)
              == SurveyResults(surveys, questions, responses, other)
  {
    WhereAppend(responses, [response], ResponseSurvey, response.surveyId);
    assert Where([response], ResponseSurvey, response.surveyId) == [response];
    var before := Where(responses, ResponseSurvey, response.surveyId);
    var after := Where(responses + [response], ResponseSurvey, response.surveyId);
    AnswersOfAppend(before, response);
    if other != response.surveyId {
      WhereAppend(responses, [response], ResponseSurvey, other);
      assert Where([response], ResponseSurvey, other) == [];
      assert Where(responses + [response], ResponseSurvey, other) == Where(responses, ResponseSurvey, other);
    }
  }
}
