/** The submitted form of a POST request and the flattening of a response
    submission into one answer per question field (app.py:179-192). */
module Forms {
  import opened Text

  /** A submitted form: its (field name, value) pairs in submission order,
      as werkzeug's MultiDict keeps them. A name may occur several times
      (a group of checkboxes). */
  type Form = seq<(string, string)>

  /** The prefix that marks a field as the answer to a question. */
  const AnswerPrefix := "question_"

  /** The separator between the values of a field submitted several times. */
  const ValueSeparator := ", "

  predicate IsAnswerField(name: string) {
    StartsWith(name, AnswerPrefix)
  }

  /** The field names of the form's pairs, one per pair. */
  function NamesOf(form: Form): (r: seq<string>)
    ensures |r| == |form|
    ensures forall i :: 0 <= i < |form| ==> r[i] == form[i].0
  {
    if form == [] then [] else NamesOf(form[..|form| - 1]) + [form[|form| - 1].0]
  }

  /** MultiDict.keys(): every field name once, in order of first appearance. */
  function FieldNames(form: Form): (r: seq<string>)
    ensures forall k :: k in r <==> k in NamesOf(form)
  {
    if form == [] then []
    else
      var names := FieldNames(form[..|form| - 1]);
      var last := form[|form| - 1].0;
      if last in names then names else names + [last]
  }

  /** MultiDict.getlist(name): the values submitted under name, in
      submission order; empty when the form has no such field. */
  function ValuesOf(form: Form, name: string): (r: seq<string>)
    ensures |r| <= |form|
    ensures r == [] <==> name !in NamesOf(form)
  {
    if form == [] then []
    else
      var last := form[|form| - 1];
      ValuesOf(form[..|form| - 1], name) + (if last.0 == name then [last.1] else [])
  }

  /** MultiDict.get(name, default): the value of the first pair named name,
      or default when the form has no such field. */
  function Get(form: Form, name: string, default: string): (r: string)
    ensures ValuesOf(form, name) == [] ==> r == default
    ensures ValuesOf(form, name) != [] ==> r == ValuesOf(form, name)[0]
  {
    if form == [] then default
    else
      var front := form[..|form| - 1];
      if name in NamesOf(front) then Get(front, name, default)
      else if form[|form| - 1].0 == name then form[|form| - 1].1
      else default
  }

  /** The answers a submission stores: one entry per question field of the
      form; a field submitted several times maps to its values joined by
      ", ", a field submitted once to its value. No other name appears. */
  function Answers(form: Form): (r: map<string, string>)
    ensures forall k :: k in r <==> IsAnswerField(k) && k in NamesOf(form)
    ensures forall k :: k in r && |ValuesOf(form, k)| == 1 ==> r[k] == ValuesOf(form, k)[0]
    ensures forall k :: k in r && |ValuesOf(form, k)| > 1 ==>
              r[k] == ValuesOf(form, k)[0] + ValueSeparator + Join(ValuesOf(form, k)[1..], ValueSeparator)
  {
    map k | k in FieldNames(form) && IsAnswerField(k) :: Join(ValuesOf(form, k), ValueSeparator)
  }

  /** The two loops of the submit handler over the form's field names:
      every question field first takes its first value, then is overwritten
      by its joined values (several) or its only value (one). */
  method CollectAnswers(form: Form) returns (answers: map<string, string>)
    ensures answers == Answers(form)
  {
    var names := FieldNames(form);
    answers := FirstValues(form, names);
    answers := JoinValues(form, names, answers);
    assert answers.Keys == Answers(form).Keys;
  }

  /** The first loop: each question field among names takes MultiDict.get. */
  method FirstValues(form: Form, names: seq<string>) returns (answers: map<string, string>)
    ensures forall k :: k in answers <==> k in names && IsAnswerField(k)
    ensures forall k :: k in answers ==> answers[k] == Get(form, k, "")
  {
    answers := map[];
    for i := 0 to |names|
      invariant forall k :: k in answers <==> k in names[..i] && IsAnswerField(k)
      invariant forall k :: k in answers ==> answers[k] == Get(form, k, "")
    {
      var name := names[i];
      assert names[..i + 1] == names[..i] + [name];
      if IsAnswerField(name) {
        answers := answers[name := Get(form, name, "")];
      }
    }
    assert names[..|names|] == names;
  }

  /** The second loop: each question field among names that the form holds
      is overwritten by its values joined (several) or its value (one). */
  method JoinValues(form: Form, names: seq<string>, first: map<string, string>)
    returns (answers: map<string, string>)
    requires forall k :: k in first <==> k in names && IsAnswerField(k)
    requires forall k :: k in names ==> k in NamesOf(form)
    ensures answers.Keys == first.Keys
    ensures forall k :: k in answers ==> answers[k] == Join(ValuesOf(form, k), ValueSeparator)
  {
    answers := first;
    for i := 0 to |names|
      invariant answers.Keys == first.Keys
      invariant forall k :: k in answers && k in names[..i] ==>
                  answers[k] == Join(ValuesOf(form, k), ValueSeparator)
    {
      var name := names[i];
      assert names[..i + 1] == names[..i] + [name];
      if IsAnswerField(name) {
        var values := ValuesOf(form, name);
        if |values| > 1 {
          answers := answers[name := Join(values, ValueSeparator)];
        } else if |values| == 1 {
          answers := answers[name := values[0]];
        }
      }
    }
    assert names[..|names|] == names;
  }

  /** keys() lists no name twice. */
  lemma {:induction false} FieldNamesDistinct(form: Form)
    ensures forall i, j :: 0 <= i < j < |FieldNames(form)| ==> FieldNames(form)[i] != FieldNames(form)[j]
  {
    if form != [] {
      FieldNamesDistinct(form[..|form| - 1]);
    }
  }

  /** getlist read from the front of the form: the values of a name are
      listed in submission order. */
  lemma {:induction false} ValuesOfPrepend(name: string, value: string, form: Form, field: string)
    ensures ValuesOf([(name, value)] + form, field)
            == (if name == field then [value] else []) + ValuesOf(form, field)
  {
    if form != [] {
      var whole := [(name, value)] + form;
      var front := form[..|form| - 1];
      assert whole[..|whole| - 1] == [(name, value)] + front;
      assert whole[|whole| - 1] == form[|form| - 1];
      ValuesOfPrepend(name, value, front, field);
    }
  }
}
