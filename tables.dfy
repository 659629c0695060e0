/** The three tables of the survey database (surveys, questions, responses)
    as sequences of rows in insertion order, the WHERE filters the handlers
    run over them, and the consistency the handlers maintain. */
module Tables {
  import opened Ordering

  /** A row of the surveys table. */
  datatype Survey = Survey(id: nat, title: string, description: string)

  /** A row of the questions table; `required` is the is_required column,
      stored as 1 or 0. */
  datatype Question = Question(
    id: nat,
    surveyId: nat,
    text: string,
    kind: string,
    required: bool,
    order: nat,
    checkboxOptions: string)

  /** A row of the responses table; the answers are the payload the source
      stores as JSON text. */
  datatype Response = Response(id: nat, surveyId: nat, answers: map<string, string>)

  // Columns, as functions a filter or a sort can take.
  function SurveyKey(s: Survey): int { s.id }
  function QuestionKey(q: Question): int { q.id }
  function ResponseKey(r: Response): int { r.id }
  function QuestionSurvey(q: Question): int { q.surveyId }
  function ResponseSurvey(r: Response): int { r.surveyId }
  function QuestionOrder(q: Question): int { q.order }

  /** SELECT ... WHERE column = value, in table order. */
  function Where<T>(table: seq<T>, column: T -> int, value: int): (r: seq<T>)
    ensures |r| <= |table|
    ensures forall k :: 0 <= k < |r| ==> column(r[k]) == value
  {
    if table == [] then []
    else (if column(table[0]) == value then [table[0]] else []) + Where(table[1..], column, value)
  }

  /** The rows DELETE ... WHERE column = value leaves, in table order. */
  function WhereNot<T>(table: seq<T>, column: T -> int, value: int): (r: seq<T>)
    ensures |r| <= |table|
    ensures forall k :: 0 <= k < |r| ==> column(r[k]) != value
  {
    if table == [] then []
    else (if column(table[0]) != value then [table[0]] else []) + WhereNot(table[1..], column, value)
  }

  /** Where keeps exactly the rows of the table with the value, and
      WhereNot exactly the others. */
  lemma {:induction false} WhereMembers<T(!new)>(table: seq<T>, column: T -> int, value: int)
    ensures forall x :: x in Where(table, column, value) <==> x in table && column(x) == value
    ensures forall x :: x in WhereNot(table, column, value) <==> x in table && column(x) != value
  {
    if table != [] {
      WhereMembers(table[1..], column, value);
      assert table == [table[0]] + table[1..];
    }
  }

  /** A filter distributes over appended rows. */
  lemma {:induction false} WhereAppend<T>(a: seq<T>, b: seq<T>, column: T -> int, value: int)
    ensures Where(a + b, column, value) == Where(a, column, value) + Where(b, column, value)
    ensures WhereNot(a + b, column, value) == WhereNot(a, column, value) + WhereNot(b, column, value)
  {
    if a != [] {
      assert (a + b)[0] == a[0];
      assert (a + b)[1..] == a[1..] + b;
      WhereAppend(a[1..], b, column, value);
      var keep := if column(a[0]) == value then [a[0]] else [];
      var drop := if column(a[0]) != value then [a[0]] else [];
      assert Where(a, column, value) == keep + Where(a[1..], column, value);
      assert WhereNot(a, column, value) == drop + WhereNot(a[1..], column, value);
      assert Where(a + b, column, value) == keep + Where(a[1..] + b, column, value);
      assert WhereNot(a + b, column, value) == drop + WhereNot(a[1..] + b, column, value);
      assert keep + (Where(a[1..], column, value) + Where(b, column, value))
          == (keep + Where(a[1..], column, value)) + Where(b, column, value);
      assert drop + (WhereNot(a[1..], column, value) + WhereNot(b, column, value))
          == (drop + WhereNot(a[1..], column, value)) + WhereNot(b, column, value);
    } else {
      assert a + b == b;
    }
  }

  /** A table with no row of the given value is empty under Where and
      untouched by WhereNot. */
  lemma {:induction false} WhereAbsent<T>(table: seq<T>, column: T -> int, value: int)
    requires forall k :: 0 <= k < |table| ==> column(table[k]) != value
    ensures Where(table, column, value) == []
    ensures WhereNot(table, column, value) == table
  {
    if table != [] {
      WhereAbsent(table[1..], column, value);
    }
  }

  /** A table whose every row has the value is kept whole by Where. */
  lemma {:induction false} WhereEvery<T>(table: seq<T>, column: T -> int, value: int)
    requires forall k :: 0 <= k < |table| ==> column(table[k]) == value
    ensures Where(table, column, value) == table
  {
    if table != [] {
      WhereEvery(table[1..], column, value);
    }
  }

  /** Deleting the rows of one value leaves the rows of every other value,
      in the same order, and none of the deleted value. */
  lemma {:induction false} WhereAfterDelete<T>(table: seq<T>, column: T -> int, deleted: int, other: int)
    requires other != deleted
    ensures Where(WhereNot(table, column, deleted), column, other) == Where(table, column, other)
  {
    if table != [] {
      WhereAfterDelete(table[1..], column, deleted, other);
      var drop := if column(table[0]) != deleted then [table[0]] else [];
      WhereAppend(drop, WhereNot(table[1..], column, deleted), column, other);
    }
  }

  /** The rows kept and the rows deleted are, together, the table. */
  lemma {:induction false} WherePartition<T>(table: seq<T>, column: T -> int, value: int)
    ensures multiset(Where(table, column, value)) + multiset(WhereNot(table, column, value))
            == multiset(table)
  {
    if table != [] {
      var rest := table[1..];
      WherePartition(rest, column, value);
      var keep := if column(table[0]) == value then [table[0]] else [];
      var drop := if column(table[0]) != value then [table[0]] else [];
      assert table == [table[0]] + rest;
      SplitHead(table[0], rest, keep, drop, Where(rest, column, value), WhereNot(rest, column, value));
    }
  }

  lemma SplitHead<T>(x: T, rest: seq<T>, keep: seq<T>, drop: seq<T>, kept: seq<T>, dropped: seq<T>)
    requires multiset(keep) + multiset(drop) == multiset{x}
    requires multiset(kept) + multiset(dropped) == multiset(rest)
    ensures multiset(keep + kept) + multiset(drop + dropped) == multiset([x] + rest)
  {
  }

  /** If the rows of a value all have keys above a bound, so do the rows
      Where selects. */
  lemma {:induction false} WhereAbove<T>(table: seq<T>, column: T -> int, value: int, key: T -> int, bound: int)
    requires forall k :: 0 <= k < |table| && column(table[k]) == value ==> bound < key(table[k])
    ensures forall k :: 0 <= k < |Where(table, column, value)| ==> bound < key(Where(table, column, value)[k])
  {
    if table != [] {
      WhereAbove(table[1..], column, value, key, bound);
    }
  }

  /** If all rows have keys above a bound, so do the rows WhereNot keeps. */
  lemma {:induction false} WhereNotAbove<T>(table: seq<T>, column: T -> int, value: int, key: T -> int, bound: int)
    requires forall k :: 0 <= k < |table| ==> bound < key(table[k])
    ensures forall k :: 0 <= k < |WhereNot(table, column, value)| ==> bound < key(WhereNot(table, column, value)[k])
  {
    if table != [] {
      WhereNotAbove(table[1..], column, value, key, bound);
    }
  }

  /** Filtering keeps rows in a strictly ascending order strictly ascending. */
  lemma {:induction false} FilterAscending<T>(table: seq<T>, column: T -> int, value: int, key: T -> int)
    requires StrictlyAscending(table, key)
    ensures StrictlyAscending(Where(table, column, value), key)
    ensures StrictlyAscending(WhereNot(table, column, value), key)
  {
    if table != [] {
      FilterAscending(table[1..], column, value, key);
      WhereAbove(table[1..], column, value, key, key(table[0]));
      WhereNotAbove(table[1..], column, value, key, key(table[0]));
    }
  }

  /** Rows that agree on column are ascending in key, so the rows of one
      value are ascending in key. */
  lemma {:induction false} WhereAscendingWithin<T>(table: seq<T>, column: T -> int, value: int, key: T -> int)
    requires forall i, j :: 0 <= i < j < |table| && column(table[i]) == column(table[j]) ==>
               key(table[i]) < key(table[j])
    ensures StrictlyAscending(Where(table, column, value), key)
  {
    if table != [] {
      WhereAscendingWithin(table[1..], column, value, key);
      if column(table[0]) == value {
        WhereAbove(table[1..], column, value, key, key(table[0]));
      }
    }
  }

  /** If the rows of one group all have keys above a bound, so do the rows
      of that group WhereNot keeps. */
  lemma {:induction false} WhereNotAboveWithin<T>(table: seq<T>, column: T -> int, value: int,
                                                  group: T -> int, g: int, key: T -> int, bound: int)
    requires forall k :: 0 <= k < |table| && group(table[k]) == g ==> bound < key(table[k])
    ensures forall k :: 0 <= k < |WhereNot(table, column, value)| && group(WhereNot(table, column, value)[k]) == g ==>
              bound < key(WhereNot(table, column, value)[k])
  {
    if table != [] {
      WhereNotAboveWithin(table[1..], column, value, group, g, key, bound);
    }
  }

  /** Deleting rows keeps the rows of each group ascending in key. */
  lemma {:induction false} WhereNotAscendingWithin<T>(table: seq<T>, column: T -> int, value: int, group: T -> int, key: T -> int)
    requires forall i, j :: 0 <= i < j < |table| && group(table[i]) == group(table[j]) ==>
               key(table[i]) < key(table[j])
    ensures forall i, j ::
              (0 <= i < j < |WhereNot(table, column, value)|
               && group(WhereNot(table, column, value)[i]) == group(WhereNot(table, column, value)[j]))
              ==> key(WhereNot(table, column, value)[i]) < key(WhereNot(table, column, value)[j])
  {
    if table != [] {
      WhereNotAscendingWithin(table[1..], column, value, group, key);
      WhereNotAboveWithin(table[1..], column, value, group, group(table[0]), key, key(table[0]));
    }
  }

  /** Every id of the table is below the next id its counter hands out. */
  predicate IdsBelow<T>(table: seq<T>, key: T -> int, next: nat) {
    forall i :: 0 <= i < |table| ==> key(table[i]) < next
  }

  /** A table's ids ascend in insertion order and stay below its counter. */
  predicate IdsValid<T>(table: seq<T>, key: T -> int, next: nat) {
    StrictlyAscending(table, key) && IdsBelow(table, key, next)
  }

  predicate HasSurvey(surveys: seq<Survey>, id: int) {
    exists i :: 0 <= i < |surveys| && surveys[i].id == id
  }

  /** Every question belongs to a stored survey. */
  predicate QuestionsOwned(surveys: seq<Survey>, questions: seq<Question>) {
    forall i :: 0 <= i < |questions| ==> HasSurvey(surveys, questions[i].surveyId)
  }

  /** The question orders of one survey are distinct and ascend in
      insertion order. */
  predicate OrdersAscend(questions: seq<Question>) {
    forall i, j :: 0 <= i < j < |questions| && questions[i].surveyId == questions[j].surveyId ==>
      questions[i].order < questions[j].order
  }

  /** What every handler keeps true of the database. Responses need not
      belong to a stored survey: submission does not check. */
  predicate WellFormed(
    surveys: seq<Survey>, questions: seq<Question>, responses: seq<Response>,
    nextSurveyId: nat, nextQuestionId: nat, nextResponseId: nat)
  {
    && IdsValid(surveys, SurveyKey, nextSurveyId)
    && IdsValid(questions, QuestionKey, nextQuestionId)
    && IdsValid(responses, ResponseKey, nextResponseId)
    && QuestionsOwned(surveys, questions)
    && OrdersAscend(questions)
  }

  /** Appending rows whose ids ascend from the counter on keeps a table's
      ids valid, with the counter moved past them. */
  lemma AppendKeepsIds<T>(table: seq<T>, rows: seq<T>, key: T -> int, next: nat, last: nat)
    requires IdsValid(table, key, next)
    requires StrictlyAscending(rows, key)
    requires forall k :: 0 <= k < |rows| ==> next <= key(rows[k]) < last
    requires next <= last
    ensures IdsValid(table + rows, key, last)
  {
    var all := table + rows;
    forall i, j | 0 <= i < j < |all| ensures key(all[i]) < key(all[j]) {
      if j < |table| {
      } else if i < |table| {
        assert key(all[i]) < next;
      } else {
        assert all[i] == rows[i - |table|] && all[j] == rows[j - |table|];
      }
    }
  }

  /** Deleting rows keeps a table's ids valid. */
  lemma DeleteKeepsIds<T(!new)>(table: seq<T>, column: T -> int, value: int, key: T -> int, next: nat)
    requires IdsValid(table, key, next)
    ensures IdsValid(WhereNot(table, column, value), key, next)
  {
    FilterAscending(table, column, value, key);
    var kept := WhereNot(table, column, value);
    WhereMembers(table, column, value);
    forall i | 0 <= i < |kept| ensures key(kept[i]) < next {
      assert kept[i] in table;
    }
  }
}
