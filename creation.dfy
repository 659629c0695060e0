/** What the create-survey handler reads from its form (app.py:88-113):
    the stripped title and description, and for each form position 1..5 a
    question row when the stripped question text is not empty. */
module Creation {
  import opened Text
  import opened Forms
  import opened Tables
  import opened Ordering

  /** The form offers question positions 1 through MaxQuestions. */
  const MaxQuestions: nat := 5

  /** The type a question gets when the form sends none. */
  const DefaultKind := "text"

  /** The body of the 400 answer to a blank title. */
  const TitleRequired := "Survey title is required"

  /** The f-string field name f'{prefix}{position}' for a position of one
      decimal digit, as all form positions are. */
  function Field(prefix: string, position: nat): string
    requires position < 10
  {
    prefix + [Digit(position)]
  }

  function Title(form: Form): string {
    Strip(Get(form, "survey_title", ""))
  }

  function Description(form: Form): string {
    Strip(Get(form, "survey_description", ""))
  }

  function QuestionText(form: Form, position: nat): string
    requires position < 10
  {
    Strip(Get(form, Field("question_text_", position), ""))
  }

  /** question_type_i as sent (not stripped), "text" when absent. */
  function QuestionKind(form: Form, position: nat): string
    requires position < 10
  {
    Get(form, Field("question_type_", position), DefaultKind)
  }

  /** required_i is truthy: present with a non-empty first value. */
  predicate IsRequired(form: Form, position: nat)
    requires position < 10
  {
    Get(form, Field("required_", position), "") != ""
  }

  function CheckboxOptions(form: Form, position: nat): string
    requires position < 10
  {
    Strip(Get(form, Field("checkbox_options_", position), ""))
  }

  /** The title and the description are the first values sent under
      their names, stripped; a field the form lacks reads as "". */
  lemma TitleRead(form: Form)
    ensures ValuesOf(form, "survey_title") == [] ==> Title(form) == ""
    ensures ValuesOf(form, "survey_title") != [] ==> Title(form) == Strip(ValuesOf(form, "survey_title")[0])
    ensures ValuesOf(form, "survey_description") == [] ==> Description(form) == ""
    ensures ValuesOf(form, "survey_description") != [] ==>
              Description(form) == Strip(ValuesOf(form, "survey_description")[0])
  {
  }

  /** The four fields of a position read from the first value sent under
      each name: text and options stripped (absent reads as ""), the type
      as sent (absent reads as "text"), and required when the first
      value is not empty. */
  lemma QuestionFieldsRead(form: Form, position: nat)
    requires position < 10
    ensures ValuesOf(form, Field("question_text_", position)) == [] ==> QuestionText(form, position) == ""
    ensures ValuesOf(form, Field("question_text_", position)) != [] ==>
              QuestionText(form, position) == Strip(ValuesOf(form, Field("question_text_", position))[0])
    ensures ValuesOf(form, Field("question_type_", position)) == [] ==> QuestionKind(form, position) == DefaultKind
    ensures ValuesOf(form, Field("question_type_", position)) != [] ==>
              QuestionKind(form, position) == ValuesOf(form, Field("question_type_", position))[0]
    ensures IsRequired(form, position) <==>
              ValuesOf(form, Field("required_", position)) != [] && ValuesOf(form, Field("required_", position))[0] != ""
    ensures ValuesOf(form, Field("checkbox_options_", position)) == [] ==> CheckboxOptions(form, position) == ""
    ensures ValuesOf(form, Field("checkbox_options_", position)) != [] ==>
              CheckboxOptions(form, position) == Strip(ValuesOf(form, Field("checkbox_options_", position))[0])
  {
  }

  /** What the form says about the question at one position. */
  datatype Draft = Draft(text: string, kind: string, required: bool, checkboxOptions: string)

  function DraftAt(form: Form, position: nat): Draft
    requires position < 10
  {
    Draft(QuestionText(form, position), QuestionKind(form, position),
          IsRequired(form, position), CheckboxOptions(form, position))
  }

  /** The drafts of positions 1..MaxQuestions; position p is drafts[p - 1]. */
  function Drafts(form: Form): seq<Draft> {
    seq(MaxQuestions, i requires 0 <= i < MaxQuestions => DraftAt(form, i + 1))
  }

  lemma DraftsAt(form: Form, position: nat)
    requires 1 <= position <= MaxQuestions
    ensures Drafts(form)[position - 1] == DraftAt(form, position)
  {
  }

  /** The drafts of all positions, described position by position. */
  lemma DraftsByPosition(form: Form) returns (drafts: seq<Draft>)
    ensures |drafts| == MaxQuestions
    ensures forall p :: 1 <= p <= MaxQuestions ==> drafts[p - 1] == DraftAt(form, p)
  {
    drafts := Drafts(form);
    forall p | 1 <= p <= MaxQuestions ensures drafts[p - 1] == DraftAt(form, p) {
      DraftsAt(form, p);
    }
  }

  /** Drafts that agree with the form at every position are its drafts. */
  lemma SameDrafts(form: Form, drafts: seq<Draft>)
    requires |drafts| == MaxQuestions
    requires forall p :: 1 <= p <= MaxQuestions ==> drafts[p - 1] == DraftAt(form, p)
    ensures drafts == Drafts(form)
  {
    forall k | 0 <= k < MaxQuestions ensures drafts[k] == Drafts(form)[k] {
      DraftsAt(form, k + 1);
    }
  }

  /** The rows the creation loop inserts for positions from..|drafts|, with
      ids handed out from firstId on: one row per position whose text is
      not empty, its order the position, so a blank position leaves a gap
      in the orders. */
  function QuestionRows(drafts: seq<Draft>, surveyId: nat, from: nat, firstId: nat): (rows: seq<Question>)
    requires 1 <= from <= |drafts| + 1
    ensures |rows| <= |drafts| + 1 - from
    ensures forall k :: 0 <= k < |rows| ==>
              && rows[k].id == firstId + k
              && rows[k].surveyId == surveyId
              && from <= rows[k].order <= |drafts|
    decreases |drafts| + 1 - from
  {
    if from > |drafts| then []
    else
      var d := drafts[from - 1];
      var rest := QuestionRows(drafts, surveyId, from + 1, if d.text == "" then firstId else firstId + 1);
      if d.text == "" then rest
      else [Question(firstId, surveyId, d.text, d.kind, d.required, from, d.checkboxOptions)] + rest
  }

  /** The rows come in ascending position order. */
  lemma {:induction false} QuestionRowsAscending(drafts: seq<Draft>, surveyId: nat, from: nat, firstId: nat)
    requires 1 <= from <= |drafts| + 1
    ensures StrictlyAscending(QuestionRows(drafts, surveyId, from, firstId), QuestionOrder)
    decreases |drafts| + 1 - from
  {
    if from <= |drafts| {
      var d := drafts[from - 1];
      var next := if d.text == "" then firstId else firstId + 1;
      QuestionRowsAscending(drafts, surveyId, from + 1, next);
    }
  }

  /** The question row carries the text, type, required flag and checkbox
      options of the draft at the position its order names, and its text
      is not empty. */
  predicate FromDraft(drafts: seq<Draft>, q: Question)
    requires 1 <= q.order <= |drafts|
  {
    var d := drafts[q.order - 1];
    && q.text == d.text && q.text != ""
    && q.kind == d.kind
    && q.required == d.required
    && q.checkboxOptions == d.checkboxOptions
  }

  lemma {:induction false} QuestionRowsFields(drafts: seq<Draft>, surveyId: nat, from: nat, firstId: nat)
    requires 1 <= from <= |drafts| + 1
    ensures forall k :: 0 <= k < |QuestionRows(drafts, surveyId, from, firstId)| ==>
              FromDraft(drafts, QuestionRows(drafts, surveyId, from, firstId)[k])
    decreases |drafts| + 1 - from
  {
    if from <= |drafts| {
      var d := drafts[from - 1];
      var next := if d.text == "" then firstId else firstId + 1;
      QuestionRowsFields(drafts, surveyId, from + 1, next);
    }
  }

  predicate HasOrder(rows: seq<Question>, order: nat) {
    exists k :: 0 <= k < |rows| && rows[k].order == order
  }

  /** A position gets a question exactly when its text is not empty. */
  lemma {:induction false} QuestionRowsPositions(drafts: seq<Draft>, surveyId: nat, from: nat, firstId: nat, position: nat)
    requires 1 <= from <= position <= |drafts|
    ensures HasOrder(QuestionRows(drafts, surveyId, from, firstId), position) <==> drafts[position - 1].text != ""
    decreases |drafts| + 1 - from
  {
    var rows := QuestionRows(drafts, surveyId, from, firstId);
    var d := drafts[from - 1];
    var next := if d.text == "" then firstId else firstId + 1;
    var rest := QuestionRows(drafts, surveyId, from + 1, next);
    if position > from {
      QuestionRowsPositions(drafts, surveyId, from + 1, next, position);
    }
    if d.text == "" {
      assert rows == rest;
    } else {
      assert rows == [rows[0]] + rest && rows[0].order == from;
      if position > from {
        HasOrderCons(rows[0], rest, position);
      }
    }
  }

  lemma HasOrderCons(q: Question, rest: seq<Question>, order: nat)
    requires q.order != order
    ensures HasOrder([q] + rest, order) <==> HasOrder(rest, order)
  {
    if HasOrder(rest, order) {
      var k :| 0 <= k < |rest| && rest[k].order == order;
      assert ([q] + rest)[k + 1] == rest[k];
    }
    if HasOrder([q] + rest, order) {
      var k :| 0 <= k < |[q] + rest| && ([q] + rest)[k].order == order;
      assert rest[k - 1] == ([q] + rest)[k];
    }
  }

  /** The questions a survey is created with are stored in position order,
      and position p is among them exactly when its stripped text is not
      empty. */
  lemma CreatedQuestionPositions(form: Form, surveyId: nat, firstId: nat)
    ensures StrictlyAscending(QuestionRows(Drafts(form), surveyId, 1, firstId), QuestionOrder)
    ensures forall p :: 1 <= p <= MaxQuestions ==>
              (HasOrder(QuestionRows(Drafts(form), surveyId, 1, firstId), p) <==> QuestionText(form, p) != "")
  {
    var drafts := Drafts(form);
    QuestionRowsAscending(drafts, surveyId, 1, firstId);
    forall p | 1 <= p <= MaxQuestions
      ensures HasOrder(QuestionRows(drafts, surveyId, 1, firstId), p) <==> QuestionText(form, p) != ""
    {
      QuestionRowsPositions(drafts, surveyId, 1, firstId, p);
      DraftsAt(form, p);
    }
  }

  /** Each question a survey is created with carries the stripped text, the
      type (default "text"), the required flag and the stripped checkbox
      options of the form position its order names. */
  lemma CreatedQuestionFields(form: Form, surveyId: nat, firstId: nat)
    ensures forall q :: q in QuestionRows(Drafts(form), surveyId, 1, firstId) ==>
              && 1 <= q.order <= MaxQuestions
              && q.text == QuestionText(form, q.order) && q.text != ""
              && q.kind == QuestionKind(form, q.order)
              && q.required == IsRequired(form, q.order)
              && q.checkboxOptions == CheckboxOptions(form, q.order)
  {
    var drafts := Drafts(form);
    var rows := QuestionRows(drafts, surveyId, 1, firstId);
    QuestionRowsFields(drafts, surveyId, 1, firstId);
    forall q | q in rows
      ensures && 1 <= q.order <= MaxQuestions
              && q.text == QuestionText(form, q.order) && q.text != ""
              && q.kind == QuestionKind(form, q.order)
              && q.required == IsRequired(form, q.order)
              && q.checkboxOptions == CheckboxOptions(form, q.order)
    {
      var k :| 0 <= k < |rows| && rows[k] == q;
      assert FromDraft(drafts, q);
      DraftsAt(form, q.order);
    }
  }
}
