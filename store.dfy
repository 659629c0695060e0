/** The survey database and the three handlers that change it: create a
    survey from its form (app.py:83-124), store a submitted response
    (app.py:177-199) and delete a survey with its questions and responses
    (app.py:249-265). */
module SurveyStore {
  import opened Ordering
  import opened Forms
  import opened Tables
  import opened Creation
  import opened Queries

  /** The three tables and, per table, the AUTOINCREMENT counter: the id
      the next inserted row gets. Deleted ids are never handed out again. */
  class Store {
    var surveys: seq<Survey>
    var questions: seq<Question>
    var responses: seq<Response>
    var nextSurveyId: nat
    var nextQuestionId: nat
    var nextResponseId: nat

    ghost predicate Valid()
      reads this
    {
      WellFormed(surveys, questions, responses, nextSurveyId, nextQuestionId, nextResponseId)
    }

    /** A fresh database: empty tables, every counter at 1. */
    constructor ()
      ensures Valid()
      ensures surveys == [] && questions == [] && responses == []
      ensures nextSurveyId == 1 && nextQuestionId == 1 && nextResponseId == 1
    {
      surveys := [];
      questions := [];
      responses := [];
      nextSurveyId := 1;
      nextQuestionId := 1;
      nextResponseId := 1;
    }

    /** POST /surveys/create. A title that strips to nothing is answered
        with 400 and changes nothing. Otherwise one survey row is added
        with the next survey id, then one question row per form position
        1..5 whose stripped text is not empty; the answer carries the new
        survey's id. */
    method CreateSurvey(form: Form) returns (r: Outcome<nat>)
      requires Valid()
      modifies this
      ensures Valid()
      ensures Title(form) == "" ==> r == BadRequest(TitleRequired) && unchanged(this)
      ensures Title(form) != "" ==>
                && r == Ok(old(nextSurveyId))
                && surveys == old(surveys) + [Survey(old(nextSurveyId), Title(form), Description(form))]
                && questions == old(questions) + QuestionRows(Drafts(form), old(nextSurveyId), 1, old(nextQuestionId))
                && responses == old(responses)
                && nextSurveyId == old(nextSurveyId) + 1
                && nextQuestionId == old(nextQuestionId) + |QuestionRows(Drafts(form), old(nextSurveyId), 1, old(nextQuestionId))|
                && nextResponseId == old(nextResponseId)
    {
      var title := Title(form);
      var description := Description(form);
      if title == "" {
        return BadRequest(TitleRequired);
      }
      var surveyId := InsertSurvey(title, description);
      InsertQuestions(form, surveyId);
      r := Ok(surveyId);
    }

    /** The survey INSERT of the create handler: one row with the next
        survey id. No question belongs to that id yet. */
    method InsertSurvey(title: string, description: string) returns (id: nat)
      requires Valid()
      modifies this
      ensures Valid()
      ensures id == old(nextSurveyId)
      ensures surveys == old(surveys) + [Survey(id, title, description)]
      ensures questions == old(questions) && responses == old(responses)
      ensures nextSurveyId == id + 1
      ensures nextQuestionId == old(nextQuestionId) && nextResponseId == old(nextResponseId)
      ensures HasSurvey(surveys, id)
      ensures forall i :: 0 <= i < |questions| ==> questions[i].surveyId < id
    {
      id := nextSurveyId;
      var survey := Survey(id, title, description);
      AddSurveyKeepsWellFormed(surveys, questions, responses, nextSurveyId, nextQuestionId, nextResponseId, survey);
      surveys := surveys + [survey];
      nextSurveyId := nextSurveyId + 1;
    }

    /** The loop of the create handler over form positions 1..5: a
        question row with the next question id for each position whose
        stripped text is not empty. */
    method InsertQuestions(form: Form, surveyId: nat)
      requires Valid()
      requires HasSurvey(surveys, surveyId)
      requires forall i :: 0 <= i < |questions| ==> questions[i].surveyId < surveyId
      modifies this
      ensures Valid()
      ensures questions == old(questions) + QuestionRows(Drafts(form), surveyId, 1, old(nextQuestionId))
      ensures nextQuestionId == old(nextQuestionId) + |QuestionRows(Drafts(form), surveyId, 1, old(nextQuestionId))|
      ensures surveys == old(surveys) && responses == old(responses)
      ensures nextSurveyId == old(nextSurveyId) && nextResponseId == old(nextResponseId)
    {
      ghost var drafts := DraftsByPosition(form);
      ghost var rows := QuestionRows(drafts, surveyId, 1, nextQuestionId);
      ghost var target := questions + rows;
      ghost var last := nextQuestionId + |rows|;
      PlannedQuestionsKeepWellFormed(surveys, questions, responses, nextSurveyId, nextQuestionId, nextResponseId,
                                     surveyId, drafts);
      for i := 1 to MaxQuestions + 1
        invariant surveys == old(surveys) && responses == old(responses)
        invariant nextSurveyId == old(nextSurveyId) && nextResponseId == old(nextResponseId)
        invariant questions + QuestionRows(drafts, surveyId, i, nextQuestionId) == target
        invariant nextQuestionId + |QuestionRows(drafts, surveyId, i, nextQuestionId)| == last
      {
        var draft := ReadDraft(form, i, drafts);
        if draft.text != "" {
          var question := Question(nextQuestionId, surveyId, draft.text, draft.kind, draft.required, i, draft.checkboxOptions);
          InsertQuestionStep(questions, drafts, surveyId, i, nextQuestionId, question, target);
          questions := questions + [question];
          nextQuestionId := nextQuestionId + 1;
        } else {
          SkipQuestionStep(drafts, surveyId, i, nextQuestionId);
        }
      }
      assert questions + [] == questions;
      SameDrafts(form, drafts);
    }

    /** POST /surveys/<id>/submit: appends one response row with the next
        response id, the path's survey id and the flattened question
        fields of the form. Whether a survey has that id is not checked. */
    method SubmitResponse(surveyId: nat, form: Form)
      requires Valid()
      modifies this
      ensures Valid()
      ensures responses == old(responses) + [Response(old(nextResponseId), surveyId, Answers(form))]
      ensures nextResponseId == old(nextResponseId) + 1
      ensures surveys == old(surveys) && questions == old(questions)
      ensures nextSurveyId == old(nextSurveyId) && nextQuestionId == old(nextQuestionId)
    {
      var answers := CollectAnswers(form);
      SubmitKeepsWellFormed(surveys, questions, responses, nextSurveyId, nextQuestionId, nextResponseId,
                            Response(nextResponseId, surveyId, answers));
      responses := responses + [Response(nextResponseId, surveyId, answers)];
      nextResponseId := nextResponseId + 1;
    }

    /** POST /surveys/<id>/delete: removes the responses, then the
        questions, then the survey row with the id; every other row stays,
        in its order, and the counters are not rewound. */
    method DeleteSurvey(surveyId: nat)
      requires Valid()
      modifies this
      ensures Valid()
      ensures responses == WhereNot(old(responses), ResponseSurvey, surveyId)
      ensures questions == WhereNot(old(questions), QuestionSurvey, surveyId)
      ensures surveys == WhereNot(old(surveys), SurveyKey, surveyId)
      ensures nextSurveyId == old(nextSurveyId) && nextQuestionId == old(nextQuestionId)
      ensures nextResponseId == old(nextResponseId)
    {
      DeleteKeepsWellFormed(surveys, questions, responses, nextSurveyId, nextQuestionId, nextResponseId, surveyId);
      responses := WhereNot(responses, ResponseSurvey, surveyId);
      questions := WhereNot(questions, QuestionSurvey, surveyId);
      surveys := WhereNot(surveys, SurveyKey, surveyId);
    }
  }

  /** The form fields of one position: its stripped text, its type, its
      required flag and its stripped checkbox options. */
  method ReadDraft(form: Form, position: nat, ghost drafts: seq<Draft>) returns (d: Draft)
    requires 1 <= position <= MaxQuestions == |drafts|
    requires forall p :: 1 <= p <= MaxQuestions ==> drafts[p - 1] == DraftAt(form, p)
    ensures d == drafts[position - 1]
  {
    var text := QuestionText(form, position);
    var kind := QuestionKind(form, position);
    var required := IsRequired(form, position);
    var options := CheckboxOptions(form, position);
    d := Draft(text, kind, required, options);
    assert d == DraftAt(form, position);
  }

  /** One turn of the creation loop at a position with text: the row it
      inserts is the first of the rows still to come. */
  lemma InsertQuestionStep(questions: seq<Question>, drafts: seq<Draft>, surveyId: nat, position: nat, id: nat,
                            question: Question, target: seq<Question>)
    requires 1 <= position <= |drafts|
    requires drafts[position - 1].text != ""
    requires question == Question(id, surveyId, drafts[position - 1].text, drafts[position - 1].kind,
                                  drafts[position - 1].required, position, drafts[position - 1].checkboxOptions)
    requires questions + QuestionRows(drafts, surveyId, position, id) == target
    ensures (questions + [question]) + QuestionRows(drafts, surveyId, position + 1, id + 1) == target
    ensures |QuestionRows(drafts, surveyId, position, id)| == 1 + |QuestionRows(drafts, surveyId, position + 1, id + 1)|
  {
    var rest := QuestionRows(drafts, surveyId, position + 1, id + 1);
    assert QuestionRows(drafts, surveyId, position, id) == [question] + rest;
    assert (questions + [question]) + rest == questions + ([question] + rest);
  }

  /** One turn of the creation loop at a blank position inserts nothing. */
  lemma SkipQuestionStep(drafts: seq<Draft>, surveyId: nat, position: nat, id: nat)
    requires 1 <= position <= |drafts|
    requires drafts[position - 1].text == ""
    ensures QuestionRows(drafts, surveyId, position, id) == QuestionRows(drafts, surveyId, position + 1, id)
  {
  }

  /** Adding a survey with the next survey id keeps the database well
      formed; the new id has the survey and no question yet. */
  lemma AddSurveyKeepsWellFormed(
    surveys: seq<Survey>, questions: seq<Question>, responses: seq<Response>,
    nextSurveyId: nat, nextQuestionId: nat, nextResponseId: nat, survey: Survey)
    requires WellFormed(surveys, questions, responses, nextSurveyId, nextQuestionId, nextResponseId)
    requires survey.id == nextSurveyId
    ensures WellFormed(surveys + [survey], questions, responses, nextSurveyId + 1, nextQuestionId, nextResponseId)
    ensures HasSurvey(surveys + [survey], survey.id)
    ensures forall i :: 0 <= i < |questions| ==> questions[i].surveyId < survey.id
  {
    AppendKeepsIds(surveys, [survey], SurveyKey, nextSurveyId, nextSurveyId + 1);
    OwnersBelow(surveys, questions, nextSurveyId);
    AddSurveyKeepsOwners(surveys, questions, survey);
    assert (surveys + [survey])[|surveys|] == survey;
  }

  /** A question's survey id is below the survey counter. */
  lemma OwnersBelow(surveys: seq<Survey>, questions: seq<Question>, nextSurveyId: nat)
    requires QuestionsOwned(surveys, questions)
    requires IdsBelow(surveys, SurveyKey, nextSurveyId)
    ensures forall i :: 0 <= i < |questions| ==> questions[i].surveyId < nextSurveyId
  {
    forall i | 0 <= i < |questions| ensures questions[i].surveyId < nextSurveyId {
      var j :| 0 <= j < |surveys| && surveys[j].id == questions[i].surveyId;
    }
  }

  lemma AddSurveyKeepsOwners(surveys: seq<Survey>, questions: seq<Question>, survey: Survey)
    requires QuestionsOwned(surveys, questions)
    ensures QuestionsOwned(surveys + [survey], questions)
  {
    forall i | 0 <= i < |questions| ensures HasSurvey(surveys + [survey], questions[i].surveyId) {
      var j :| 0 <= j < |surveys| && surveys[j].id == questions[i].surveyId;
      assert (surveys + [survey])[j] == surveys[j];
    }
  }

  /** The question rows planned from any drafts for a survey that has no
      question yet keep the database well formed. */
  lemma PlannedQuestionsKeepWellFormed(
    surveys: seq<Survey>, questions: seq<Question>, responses: seq<Response>,
    nextSurveyId: nat, nextQuestionId: nat, nextResponseId: nat, surveyId: nat, drafts: seq<Draft>)
    requires WellFormed(surveys, questions, responses, nextSurveyId, nextQuestionId, nextResponseId)
    requires HasSurvey(surveys, surveyId)
    requires forall i :: 0 <= i < |questions| ==> questions[i].surveyId < surveyId
    ensures WellFormed(surveys, questions + QuestionRows(drafts, surveyId, 1, nextQuestionId), responses,
                       nextSurveyId, nextQuestionId + |QuestionRows(drafts, surveyId, 1, nextQuestionId)|, nextResponseId)
  {
    QuestionRowsAscending(drafts, surveyId, 1, nextQuestionId);
    AddQuestionsKeepsWellFormed(surveys, questions, responses, nextSurveyId, nextQuestionId, nextResponseId,
                                surveyId, QuestionRows(drafts, surveyId, 1, nextQuestionId));
  }

  /** Adding the question rows of an existing survey that has none yet,
      with ids from the question counter on, keeps the database well
      formed. */
  lemma AddQuestionsKeepsWellFormed(
    surveys: seq<Survey>, questions: seq<Question>, responses: seq<Response>,
    nextSurveyId: nat, nextQuestionId: nat, nextResponseId: nat, surveyId: nat, rows: seq<Question>)
    requires WellFormed(surveys, questions, responses, nextSurveyId, nextQuestionId, nextResponseId)
    requires HasSurvey(surveys, surveyId)
    requires forall i :: 0 <= i < |questions| ==> questions[i].surveyId < surveyId
    requires forall k :: 0 <= k < |rows| ==> rows[k].id == nextQuestionId + k && rows[k].surveyId == surveyId
    requires StrictlyAscending(rows, QuestionOrder)
    ensures WellFormed(surveys, questions + rows, responses, nextSurveyId, nextQuestionId + |rows|, nextResponseId)
  {
    assert StrictlyAscending(rows, QuestionKey);
    AppendKeepsIds(questions, rows, QuestionKey, nextQuestionId, nextQuestionId + |rows|);
    var all := questions + rows;
    forall i | 0 <= i < |all| ensures HasSurvey(surveys, all[i].surveyId) {
      if i >= |questions| {
        assert all[i] == rows[i - |questions|];
      }
    }
    CreateKeepsOrders(questions, rows, surveyId);
  }

  lemma CreateKeepsOrders(questions: seq<Question>, rows: seq<Question>, surveyId: nat)
    requires OrdersAscend(questions)
    requires forall i :: 0 <= i < |questions| ==> questions[i].surveyId < surveyId
    requires forall k :: 0 <= k < |rows| ==> rows[k].surveyId == surveyId
    requires StrictlyAscending(rows, QuestionOrder)
    ensures OrdersAscend(questions + rows)
  {
    var all := questions + rows;
    forall i, j | 0 <= i < j < |all| && all[i].surveyId == all[j].surveyId
      ensures all[i].order < all[j].order
    {
      if |questions| <= i {
        assert all[i] == rows[i - |questions|] && all[j] == rows[j - |questions|];
      }
    }
  }

  /** Appending a response with the next response id keeps the database
      well formed, whatever survey id it carries. */
  lemma SubmitKeepsWellFormed(
    surveys: seq<Survey>, questions: seq<Question>, responses: seq<Response>,
    nextSurveyId: nat, nextQuestionId: nat, nextResponseId: nat, response: Response)
    requires WellFormed(surveys, questions, responses, nextSurveyId, nextQuestionId, nextResponseId)
    requires response.id == nextResponseId
    ensures WellFormed(surveys, questions, responses + [response], nextSurveyId, nextQuestionId, nextResponseId + 1)
  {
    AppendKeepsIds(responses, [response], ResponseKey, nextResponseId, nextResponseId + 1);
  }

  /** Deleting the rows of one survey id from the three tables keeps the
      database well formed: in particular no question is left without its
      survey. */
  lemma DeleteKeepsWellFormed(
    surveys: seq<Survey>, questions: seq<Question>, responses: seq<Response>,
    nextSurveyId: nat, nextQuestionId: nat, nextResponseId: nat, surveyId: nat)
    requires WellFormed(surveys, questions, responses, nextSurveyId, nextQuestionId, nextResponseId)
    ensures WellFormed(WhereNot(surveys, SurveyKey, surveyId), WhereNot(questions, QuestionSurvey, surveyId),
                       WhereNot(responses, ResponseSurvey, surveyId), nextSurveyId, nextQuestionId, nextResponseId)
  {
    DeleteKeepsIds(surveys, SurveyKey, surveyId, SurveyKey, nextSurveyId);
    DeleteKeepsIds(questions, QuestionSurvey, surveyId, QuestionKey, nextQuestionId);
    DeleteKeepsIds(responses, ResponseSurvey, surveyId, ResponseKey, nextResponseId);
    DeleteKeepsOwners(surveys, questions, surveyId);
    WhereNotAscendingWithin(questions, QuestionSurvey, surveyId, QuestionSurvey, QuestionOrder);
  }

  /** Deleting a survey together with its questions leaves every remaining
      question with its survey. */
  lemma DeleteKeepsOwners(surveys: seq<Survey>, questions: seq<Question>, surveyId: nat)
    requires QuestionsOwned(surveys, questions)
    ensures QuestionsOwned(WhereNot(surveys, SurveyKey, surveyId), WhereNot(questions, QuestionSurvey, surveyId))
  {
    var keptSurveys := WhereNot(surveys, SurveyKey, surveyId);
    var keptQuestions := WhereNot(questions, QuestionSurvey, surveyId);
    WhereMembers(surveys, SurveyKey, surveyId);
    WhereMembers(questions, QuestionSurvey, surveyId);
    forall i | 0 <= i < |keptQuestions| ensures HasSurvey(keptSurveys, keptQuestions[i].surveyId) {
      var q := keptQuestions[i];
      assert q in questions;
      var k :| 0 <= k < |questions| && questions[k] == q;
      var j :| 0 <= j < |surveys| && surveys[j].id == q.surveyId;
      assert surveys[j] in keptSurveys;
      var m :| 0 <= m < |keptSurveys| && keptSurveys[m] == surveys[j];
    }
  }

  /** A survey created with the next id is listed first. */
  lemma CreatedListedFirst(surveys: seq<Survey>, nextSurveyId: nat, survey: Survey)
    requires IdsValid(surveys, SurveyKey, nextSurveyId)
    requires survey.id == nextSurveyId
    ensures ListSurveys(surveys + [survey])[0] == survey
  {
    AppendKeepsIds(surveys, [survey], SurveyKey, nextSurveyId, nextSurveyId + 1);
    ListNewestFirst(surveys + [survey]);
  }

  /** The pages of a survey right after its creation show it with exactly
      the questions created with it, in position order. */
  lemma CreatedLookup(
    surveys: seq<Survey>, questions: seq<Question>, nextSurveyId: nat,
    survey: Survey, drafts: seq<Draft>, firstId: nat)
    requires IdsBelow(surveys, SurveyKey, nextSurveyId)
    requires QuestionsOwned(surveys, questions)
    requires survey.id == nextSurveyId
    ensures LookupSurvey(surveys + [survey], questions + QuestionRows(drafts, nextSurveyId, 1, firstId), nextSurveyId)
            == Ok(SurveyPage(survey, QuestionRows(drafts, nextSurveyId, 1, firstId)))
  {
    var rows := QuestionRows(drafts, nextSurveyId, 1, firstId);
    NewSurveyMatches(surveys, nextSurveyId, survey);
    OwnersBelow(surveys, questions, nextSurveyId);
    NewQuestionsMatch(questions, rows, nextSurveyId);
    QuestionRowsAscending(drafts, nextSurveyId, 1, firstId);
    SortBySorted(rows, QuestionOrder);
  }

  /** The only survey with the next survey id is the one just added. */
  lemma NewSurveyMatches(surveys: seq<Survey>, nextSurveyId: nat, survey: Survey)
    requires IdsBelow(surveys, SurveyKey, nextSurveyId)
    requires survey.id == nextSurveyId
    ensures Where(surveys + [survey], SurveyKey, nextSurveyId) == [survey]
  {
    WhereAbsent(surveys, SurveyKey, nextSurveyId);
    WhereAppend(surveys, [survey], SurveyKey, nextSurveyId);
    assert Where([survey], SurveyKey, nextSurveyId) == [survey];
  }

  /** The only questions with a fresh survey id are the ones just added. */
  lemma NewQuestionsMatch(questions: seq<Question>, rows: seq<Question>, surveyId: nat)
    requires forall i :: 0 <= i < |questions| ==> questions[i].surveyId < surveyId
    requires forall k :: 0 <= k < |rows| ==> rows[k].surveyId == surveyId
    ensures Where(questions + rows, QuestionSurvey, surveyId) == rows
  {
    WhereAbsent(questions, QuestionSurvey, surveyId);
    WhereEvery(rows, QuestionSurvey, surveyId);
    WhereAppend(questions, rows, QuestionSurvey, surveyId);
  }

  /** The results page of a survey right after its creation shows the
      responses submitted earlier under its id: none unless a response was
      posted to that id before the survey existed. */
  lemma CreatedResults(
    surveys: seq<Survey>, questions: seq<Question>, responses: seq<Response>, survey: Survey, rows: seq<Question>)
    ensures SurveyResults(surveys + [survey], questions + rows, responses, survey.id).Ok?
    ensures SurveyResults(surveys + [survey], questions + rows, responses, survey.id).value.responses
            == AnswersOf(Where(responses, ResponseSurvey, survey.id))
  {
    assert (surveys + [survey])[|surveys|] == survey;
  }

  /** Creating a survey changes nothing any other survey id shows. */
  lemma CreateKeepsOtherSurveys(
    surveys: seq<Survey>, questions: seq<Question>, responses: seq<Response>,
    survey: Survey, drafts: seq<Draft>, firstId: nat, other: nat)
    requires other != survey.id
    ensures LookupSurvey(surveys + [survey], questions + QuestionRows(drafts, survey.id, 1, firstId), other)
            == LookupSurvey(surveys, questions, other)
    ensures SurveyResults(surveys + [survey], questions + QuestionRows(drafts, survey.id, 1, firstId), responses, other)
            == SurveyResults(surveys, questions, responses, other)
  {
    var rows := QuestionRows(drafts, survey.id, 1, firstId);
    WhereAppend(surveys, [survey], SurveyKey, other);
    assert Where([survey], SurveyKey, other) == [];
    assert Where(surveys + [survey], SurveyKey, other) == Where(surveys, SurveyKey, other);
    WhereAbsent(rows, QuestionSurvey, other);
    WhereAppend(questions, rows, QuestionSurvey, other);
    assert Where(questions + rows, QuestionSurvey, other) == Where(questions, QuestionSurvey, other);
  }
}
