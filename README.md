# Survey app: a Dafny model of its handlers

The application is a small Flask site backed by SQLite. People create
surveys of up to five questions, list them, view and take them, submit
responses, look at the results and delete a survey. This project models
the request handlers of `app.py` over an in-memory database and proves what
they guarantee.

The modules follow the program's structure:

- `Text` (`text.dfy`): the Python string operations the handlers rely on.
  These are `str.strip()` with Python's white-space set, `startswith`,
  `join`, and the digit an f-string writes.
- `Ordering` (`ordering.dfy`): `ORDER BY` as a stable insertion sort on an
  integer key.
  - Sorting rows that are already in order changes nothing.
  - Sorting rows whose keys strictly decrease reverses them.
- `Forms` (`forms.dfy`): the POST form as werkzeug's `MultiDict`, which is a
  sequence of (name, value) pairs, with `get`, `getlist` and `keys`.
  - `Answers` is the flattening a response submission stores.
  - `CollectAnswers` is the handler's two loops, proved equal to `Answers`.
- `Tables` (`tables.dfy`): the rows of the three tables (`surveys`,
  `questions` and `responses`), the `WHERE` filters, and `WellFormed`, the
  consistency every handler keeps:
  - ids ascend in insertion order and stay below each table's
    AUTOINCREMENT counter;
  - every question belongs to an existing survey;
  - within one survey, question orders ascend in insertion order.
- `Creation` (`creation.dfy`): what the create handler reads from its
  form, and the question rows it inserts for form positions 1..5.
- `Queries` (`queries.dfy`): the read-only handlers. These are the list,
  the view and take pages (the same query) and the results page.
- `SurveyStore` (`store.dfy`): class `Store` holds the three tables and the
  three AUTOINCREMENT counters as fields. Its methods are the handlers that
  change the database: create, submit and delete.

A handler's answer is an `Outcome`:

- `Ok` with the page's data. A create answers with the new survey's id
  where the handler redirects to the list.
- `BadRequest(message)` for a 400.
- `NotFound(message)` for a 404.

The model and the source agree on these points:

- A response can be submitted to any survey id, because the handler does
  not check that the survey exists. SQLite does not enforce the declared
  foreign keys either. Such a response shows up on the results page of a
  survey that is created later with that id. `SurveyStore.CreatedResults`
  states this.
- Deleting an id that has no survey row still deletes the responses stored
  under it.

## Model

| member | source | states |
|---|---|---|
| Text.StripTrims | app.py:88-89 | `strip()` removes a white-space prefix and suffix and nothing else; the result is empty exactly when the input is all white space, and otherwise it begins and ends with a non-space character |
| Text.SkipSpacesStops | app.py:88 | the leading cut of `strip()` passes over white space only and stops at the first non-space character |
| Text.SkipSpacesBackStops | app.py:88 | the trailing cut of `strip()` passes over white space only and stops after the last non-space character |
| Text.Strip | app.py:88-89 | Python's `str.strip()`: the slice between the first and after the last non-space character; `Text.StripTrims` states what it keeps and cuts |
| Text.StartsWith | app.py:182 | `key.startswith(prefix)`: the first characters of the key are the prefix |
| Text.StartsWithSplit | app.py:182 | a key starts with the prefix exactly when it is the prefix followed by the rest of the key |
| Text.Join | app.py:190 | `sep.join(values)`: the empty string for no values, the value itself for one value, the values with the separator between them otherwise |
| Text.JoinAppend | app.py:190 | the separator stands between consecutive values: joining one more value appends the separator and that value |
| Ordering.SortBy | app.py:148 | `ORDER BY` yields the same rows (as a multiset) in non-decreasing key order |
| Ordering.Insert | app.py:148 | inserting into sorted rows keeps them sorted and adds exactly that row |
| Ordering.SortBySorted | app.py:148 | rows already in key order come back unchanged |
| Ordering.SortByDescending | app.py:131 | rows whose keys strictly decrease come back reversed |
| Forms.NamesOf | app.py:186-188 | the name of every submitted pair, in submission order: the raw form that `keys()` and `getlist` read |
| Forms.IsAnswerField | app.py:182 | a field answers a question when its name starts with `question_` |
| Forms.FieldNames | app.py:186 | `keys()` lists exactly the names the form holds |
| Forms.FieldNamesDistinct | app.py:186 | `keys()` lists no name twice |
| Forms.ValuesOf | app.py:188 | `getlist(name)` is empty exactly when the form has no field of that name |
| Forms.ValuesOfPrepend | app.py:188 | `getlist` lists a name's values in submission order |
| Forms.Get | app.py:88 | `get(name, default)` is the first value sent under the name, or the default when there is none |
| Forms.Answers | app.py:179-192 | the stored answers have one key per field starting with `question_`; a single value is kept as sent; several values are joined with `", "` in submission order |
| Forms.CollectAnswers | app.py:179-192 | the handler's two loops compute exactly `Answers(form)` |
| Forms.FirstValues | app.py:181-183 | the first loop maps each question field to its first value |
| Forms.JoinValues | app.py:186-192 | the second loop overwrites each question field with its joined values, or with its only value |
| Tables.Where | app.py:147-150 | `WHERE column = value` keeps only rows with that value, in table order |
| Tables.WhereNot | app.py:254-260 | `DELETE ... WHERE column = value` leaves only the rows without that value, in table order |
| Tables.WhereMembers | app.py:147-150 | `Where` keeps exactly the table's rows with the value, and `WhereNot` exactly the others |
| Tables.WhereAppend | app.py:231-234 | filtering an appended table is filtering each part in turn |
| Tables.WhereAfterDelete | app.py:254-260 | deleting one value does not change what a filter on another value returns |
| Tables.WhereAscendingWithin | app.py:147-150 | if keys ascend within each group of the table, the rows one filter returns ascend too |
| Tables.WhereNotAscendingWithin | app.py:257 | if keys ascend within each group of the table, they still ascend after a delete |
| Tables.AppendKeepsIds | app.py:97-101 | appending rows whose ids ascend from the counter on keeps the table's ids ascending and below the advanced counter |
| Tables.DeleteKeepsIds | app.py:254-260 | a delete keeps the table's ids ascending and below the counter |
| Creation.Title | app.py:88 | `request.form.get('survey_title', '').strip()` |
| Creation.Description | app.py:89 | `request.form.get('survey_description', '').strip()` |
| Creation.TitleRead | app.py:88-89 | the title and the description are the first values sent under their names, stripped; a missing field reads as "" |
| Creation.QuestionText | app.py:105 | `question_text_p` read with default "" and stripped |
| Creation.QuestionKind | app.py:107 | `question_type_p` read with default "text", not stripped |
| Creation.IsRequired | app.py:108 | `required_p` is truthy: present with a non-empty first value |
| Creation.CheckboxOptions | app.py:109 | `checkbox_options_p` read with default "" and stripped |
| Creation.QuestionFieldsRead | app.py:105-109 | a position's text and options are the first value sent, stripped, or "" when absent; its type is the first value sent, or "text" when absent; it is required exactly when a first value is sent and is not empty |
| Creation.QuestionRows | app.py:104-114 | one row per position with text; the ids run consecutively from the question counter; each row has the new survey's id and an order within 1..5 |
| Creation.QuestionRowsAscending | app.py:104-114 | the inserted rows come in ascending `question_order` |
| Creation.QuestionRowsFields | app.py:105-113 | each row carries the text, type, required flag and options of the position its order names, and its text is not empty |
| Creation.QuestionRowsPositions | app.py:104-106 | a position gets a row exactly when its stripped text is not empty |
| Creation.CreatedQuestionPositions | app.py:104-114 | the rows ascend by position, and position p (1..5) has a row exactly when `question_text_p` strips to something non-empty |
| Creation.CreatedQuestionFields | app.py:105-113 | each created question has a position in 1..5 and non-empty text. Its text is `question_text_p` stripped, its type is `question_type_p` (default "text"), it is required exactly when `required_p` is non-empty, and its options are `checkbox_options_p` stripped |
| Queries.Newness | app.py:131 | `ORDER BY id DESC` as an ascending sort key |
| Queries.NewerFirst | app.py:131 | a survey sorts before another exactly when its id is larger |
| Queries.ListSurveys | app.py:130-132 | the list holds every survey row, highest id first |
| Queries.ListNewestFirst | app.py:130-132 | when ids ascend in insertion order, the list is the table read backwards |
| Queries.LookupSurvey | app.py:140-150 | the answer is 404 "Survey not found" exactly when no survey has the id; otherwise it is that survey with exactly its questions (as a multiset) sorted by `question_order` |
| Queries.LookupStoredOrder | app.py:147-150 | in a well-formed database, the pages list a survey's questions exactly as they were inserted |
| Queries.SurveyResults | app.py:219-240 | the same 404 as the survey page; otherwise the survey, its questions by order, and the answers of every response with the id, in insertion order |
| Queries.AnswersOf | app.py:237-240 | one parsed answer map per response row, in row order |
| Queries.AnswersOfAppend | app.py:237-240 | answers of appended rows are the earlier answers followed by the new one |
| Queries.QueriesAfterDelete | app.py:254-260 | after a delete the id is not found on any page, and every other id reads exactly as before |
| Queries.ResultsAfterSubmit | app.py:196-199 | a response submitted to an existing survey appears last on its results; whether or not a survey has the id, no other id's results change |
| SurveyStore.Store.constructor | app.py:24-60 | a new database has empty tables and every counter at 1, and is well formed |
| SurveyStore.Store.CreateSurvey | app.py:84-124 | a blank title answers 400 "Survey title is required" and changes nothing. Otherwise one survey row with the next id is added, followed by the question rows of the form; the database stays well formed |
| SurveyStore.Store.InsertSurvey | app.py:97-101 | the survey row gets the next survey id; no question belongs to that id yet; the database stays well formed |
| SurveyStore.Store.InsertQuestions | app.py:103-114 | the loop over positions 1..5 appends exactly `QuestionRows` of the form; the database stays well formed |
| SurveyStore.ReadDraft | app.py:105-109 | reads a position's stripped text, type, required flag and stripped options |
| SurveyStore.Store.SubmitResponse | app.py:179-199 | appends one response with the next id, the path's survey id and `Answers(form)`; the other tables are unchanged; the database stays well formed |
| SurveyStore.Store.DeleteSurvey | app.py:254-260 | removes exactly the responses, the questions and the survey with the id; the remaining rows keep their order; counters are not rewound; the database stays well formed |
| SurveyStore.AddSurveyKeepsWellFormed | app.py:97-101 | adding a survey with the next id keeps the database well formed, and no existing question refers to the new id |
| SurveyStore.AddQuestionsKeepsWellFormed | app.py:111-114 | adding ascending question rows for a survey that has none yet keeps the database well formed |
| SurveyStore.PlannedQuestionsKeepWellFormed | app.py:104-114 | the question rows the loop will insert for a survey that has none yet keep the database well formed, whatever the form |
| SurveyStore.SubmitKeepsWellFormed | app.py:196-199 | appending a response with the next id keeps the database well formed |
| SurveyStore.DeleteKeepsWellFormed | app.py:254-260 | the three deletes keep the database well formed |
| SurveyStore.DeleteKeepsOwners | app.py:257-260 | deleting a survey together with its questions leaves no question without a survey |
| SurveyStore.CreatedListedFirst | app.py:130-132 | a newly created survey is listed first |
| SurveyStore.CreatedLookup | app.py:140-150 | right after creation, the survey's page shows it with exactly the questions created with it, in position order |
| SurveyStore.CreatedResults | app.py:219-240 | right after creation, the results page shows the responses submitted earlier under the new id |
| SurveyStore.CreateKeepsOtherSurveys | app.py:96-114 | creating a survey changes nothing that any other id's pages show |

## Left out

- Flask routing, templates, redirects and the secret key are not modelled. A create answers `Ok(id)` where the source redirects to the list; the other handlers answer with the page's data.
- SQLite connections, commits and the table DDL (including the `ALTER TABLE` migration) are not modelled. The tables are sequences in insertion order with one AUTOINCREMENT counter each.
- The responses table stores the answers as JSON text, which the results page parses again. The model stores the map itself, so the JSON round trip is taken to be the identity.
- The 500 answers and the error logging through `print` are not modelled, because they only occur when SQLite fails.
- The home page counts and `static/index.js` are not part of this model.
- Creation.Field: writes only one-digit positions, which covers positions 1..5, the only ones the handler uses.
- SurveyStore.ReadDraft: reads a position's type, required flag and options even when its text is blank. The source reads them only for non-empty text, and the difference is not observable.
- Ordering.SortBy: breaks ties in `question_order` by insertion order. SQLite leaves the order of tied rows unspecified.
- Queries.SurveyResults: the results page's `SELECT` has no `ORDER BY`. The model returns the rows in insertion order, which is what SQLite does for a plain table scan but does not promise.
- Forms.Answers: a Dafny map has no key order. The source builds its dict in the order `keys()` lists the fields (first appearance in the form), and `json.dumps` and `json.loads` keep that order. The model therefore does not capture the order of the answers within one response.
- Queries.LookupSurvey: ids are unbounded integers. Flask's `<int:...>` route accepts any digit string, and an id of 2^63 or more makes sqlite3 raise `OverflowError` when it binds the parameter. The source then fails with a 500 that nothing catches, where the model answers 404 "Survey not found".
- Queries.SurveyResults: the same overflow for ids of 2^63 or more gives a 500 in the source, where the model answers 404.
- SurveyStore.Store.SubmitResponse: for a path id of 2^63 or more the source fails with its caught 500, "Error submitting response", and stores nothing. The model stores the response.
- SurveyStore.Store.DeleteSurvey: for a path id of 2^63 or more the first `DELETE` raises the same overflow, and the source answers its caught 500, "Error deleting survey". The model answers nothing and deletes the rows with that id. There are none, because no submit can store a response under such an id.
