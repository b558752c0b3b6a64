# Trivia API backend — a Dafny model of its decision logic

The trivia backend stores questions grouped by category. It serves them ten
per page, searches them, creates and deletes them, and picks a random unseen
question for a quiz. This project models the logic under the Flask and
SQLAlchemy glue of `backend/flaskr/__init__.py`, over an in-memory store:

- `Model` (`model.dfy`): the `Question` and `Category` rows, the replies, and
  the error kinds. Where a handler calls `abort(code)`, the model returns
  `Err(kind)`.
- `Pagination` (`pagination.dfy`): `paginate_questions`. It is a step-1 Python
  slice `[(page-1)*10 : (page-1)*10+10]`, with Python's rules for negative and
  out-of-range bounds.
- `Queries` (`queries.dfy`): the filtered reads. These are the `ilike` search,
  the filter by category, the quiz candidates, and the rows left after a
  delete. Each is one `Select` over the stored rows, kept in stored order.
- `Categories` (`categories.dfy`): the loop that builds `categories_list`.
  `BuildCategoryMap` is that loop, proved against the function `CategoryMap`.
- `Handlers` (`handlers.dfy`): the handlers that only read the store, namely
  `get_categories`, GET `/questions`, the search branch of POST `/questions`,
  `get_questions_by_category` and `get_quiz`.
- `Store` (`store.dfy`): the class `TriviaStore`, whose fields are the question
  rows, the category rows and the next autoincrement id. Two of its methods
  change the store: `PostQuestions` (search or create) and `DeleteQuestion`.
  `ListCategories` answers GET `/categories` from the stored category rows.

The store keeps question ids strictly increasing and below `nextId`. So the
stored order is the `order_by(Question.id)` order, and an id is never handed
out twice. Categories are kept in id order, as `order_by(Category.id)` returns
them.

Two behaviours of the code are easy to misread:

- Page 0 is the slice `[-10:0]`, which is always empty; it is not page 1. A
  negative page counts back from the end of the selection (`PageZeroIsEmpty`,
  `NegativePage`, `MinusOneIsNotPageOne`).
- Deleting a missing id answers 422, not 404. The `abort(404)` at line 135 is
  inside the `try`, and the bare `except` at line 146 turns it into 422
  (`DeleteQuestion`).

## Model

| member | source | states |
|---|---|---|
| `Pagination.Paginate` | backend/flaskr/__init__.py:11-21 | a page never holds more than `QUESTIONS_PER_PAGE` (10) records, for any page number |
| `Pagination.Slice` | backend/flaskr/__init__.py:19 | a Python slice never holds more elements than the sequence, and never fails |
| `Pagination.PageIsRun` | backend/flaskr/__init__.py:18-19 | every page, whatever its number, is one contiguous run of the selection in its original order |
| `Pagination.PageElementsFromItems` | backend/flaskr/__init__.py:18-19 | every record on a page comes from the selection |
| `Pagination.PositivePage` | backend/flaskr/__init__.py:14-19 | for page ≥ 1 the page starts at `10*(page-1)` and holds exactly `min(10, max(0, n - 10*(page-1)))` records |
| `Pagination.PastTheEndIsEmpty` | backend/flaskr/__init__.py:14-19 | a page past the end of the selection is empty, and is not an error |
| `Pagination.PageZeroIsEmpty` | backend/flaskr/__init__.py:14-19 | page 0 is the slice `[-10:0]` and is always empty |
| `Pagination.NegativePage` | backend/flaskr/__init__.py:14-19 | a negative page follows Python's negative slice bounds: page `p < 0` is `items[max(0, n-10*(1-p)) .. max(0, n+10*p)]` |
| `Pagination.MinusOneIsNotPageOne` | backend/flaskr/__init__.py:14-19 | with at least 20 records, page -1 is the run 20 to 10 from the end, and page 1 is the first ten |
| `Pagination.PageOfIndex` | backend/flaskr/__init__.py:15-19 | pages 1, 2, … cover the selection: record `i` sits at position `i % 10` of page `i / 10 + 1` |
| `Queries.Select` | backend/flaskr/__init__.py:152 | a filtered read returns exactly the stored rows its predicate accepts, no row more often than stored, in id order when the store is |
| `Queries.SelectNone` | backend/flaskr/__init__.py:179-186 | a filter that accepts no stored row returns nothing |
| `Queries.Contains` | backend/flaskr/__init__.py:103 | the scan finds the term exactly when it occurs at some index of the text |
| `Queries.MatchesTerm` | backend/flaskr/__init__.py:103 | the `ilike("%term%")` test holds exactly when the lower-cased term occurs at some index of the lower-cased question text |
| `Queries.Search` | backend/flaskr/__init__.py:102-104 | the search returns exactly the stored questions whose text contains the term (ASCII case-insensitive), in id order |
| `Queries.SearchIgnoresCase` | backend/flaskr/__init__.py:103 | two terms that differ only in letter case find the same questions |
| `Queries.InCategory` | backend/flaskr/__init__.py:152 | the selection holds exactly the stored questions with `category == id` |
| `Queries.QuizCandidates` | backend/flaskr/__init__.py:178-186 | the candidates are exactly the stored questions whose id is not in `previous_questions`, and, when the category is not 0, of that category |
| `Queries.QuizExhausted` | backend/flaskr/__init__.py:178-188 | once every question of a category is in `previous_questions`, no candidate is left |
| `Queries.QuizAllCandidates` | backend/flaskr/__init__.py:185-186 | with category 0 and nothing seen, every stored question is a candidate |
| `Queries.RemoveId` | backend/flaskr/__init__.py:132-137 | after a delete, exactly the rows with the other ids remain, still in id order |
| `Queries.RemoveAbsent` | backend/flaskr/__init__.py:132-135 | deleting an id that no row has changes nothing |
| `Queries.RemoveExactlyOne` | backend/flaskr/__init__.py:132-137 | in an id-ordered store, deleting the id at index `i` removes just that row and keeps the rest in order |
| `Categories.CategoryMap` | backend/flaskr/__init__.py:48-53 | the map's keys are exactly the fetched category ids |
| `Categories.CategoryMapLastWins` | backend/flaskr/__init__.py:50-53 | each id maps to the type of the last category carrying it |
| `Categories.CategoryMapOfOrdered` | backend/flaskr/__init__.py:48-53 | for categories fetched in id order, every id maps to that category's `type` |
| `Categories.BuildCategoryMap` | backend/flaskr/__init__.py:49-53 | the loop leaves exactly the map `CategoryMap` describes, keyed by the fetched ids |
| `Handlers.GetCategories` | backend/flaskr/__init__.py:45-62 | GET `/categories` always succeeds; for categories fetched in id order, its map has exactly the category ids as keys, each mapped to its `type` |
| `Handlers.ListQuestions` | backend/flaskr/__init__.py:64-87 | GET `/questions` fails with 404 exactly when the page of the shuffled questions is empty (for page ≥ 1, exactly when `n <= 10*(page-1)`); otherwise it returns that page, `totalQuestions` = number of stored questions, the full category map, and only stored questions |
| `Handlers.SearchQuestions` | backend/flaskr/__init__.py:98-113 | search always succeeds; its questions are exactly page `page` of the id-ordered matches (at most ten, each a stored question whose text contains the term), and `totalQuestions` = number of all matches |
| `Handlers.FirstCategory` | backend/flaskr/__init__.py:154 | `.first()` yields no category exactly when no category has the id, and otherwise yields one with that id |
| `Handlers.QuestionsByCategory` | backend/flaskr/__init__.py:149-165 | 404 exactly when the category id is unknown; otherwise its questions are exactly page `page` of the questions in that category (at most ten, all stored, all of that category), `totalQuestions` = number of all of them, and the category's own `type` is `currentCategory`; an empty page is not an error |
| `Handlers.Quiz` | backend/flaskr/__init__.py:167-197 | 405 when `quiz_category['id']` or `previous_questions` is missing; otherwise no question exactly when there are no candidates, and any question returned is a stored candidate, unseen, and of the category when it is not 0 |
| `Store.TriviaStore.ListCategories` | backend/flaskr/__init__.py:45-62 | GET `/categories` over the store's own category rows always succeeds; its map has exactly their ids as keys, each mapped to its `type` |
| `Store.TriviaStore.PostQuestions` | backend/flaskr/__init__.py:90-127 | the `if search:` test at line 101 is `SearchRequested`: `None` and `""` are falsy and take the create path. A non-empty search term never changes the store and returns the search reply; otherwise an accepted insert appends exactly one question with a fresh id and reports that id, and a rejected one leaves the store as it was and answers 422 |
| `Store.TriviaStore.DeleteQuestion` | backend/flaskr/__init__.py:129-147 | deleting an existing id removes exactly that question, changes nothing else and reports `deleted == id`; a missing id answers 422, with the store unchanged |
| `Store.DeletedNotListed` | backend/flaskr/__init__.py:66-69 | after a delete, no page of the listing, in any shuffled order, shows the deleted id |
| `Model.ErrorCode` | backend/flaskr/__init__.py:199-253 | the `error` field each error handler puts in its body |
| `Model.StatusAsWritten` | backend/flaskr/__init__.py:244-253 | the status line as written: equal to the body's code for every kind except the internal error |
| `Model.InternalErrorStatusMismatch` | backend/flaskr/__init__.py:244-253 | as written, the 500 handler answers with status 405 while its body says 500 |
| `Model.Status` | backend/flaskr/__init__.py:244-253 | the corrected status line equals the body's code for every error kind, 500 for the internal error |

## Left out

- Flask: app setup, routing, request parsing, `jsonify`, the CORS extension and the `after_request` headers (lines 25-43). These are framework I/O.
- SQLAlchemy: sessions, `setup_db`, and `insert()`/`delete()` persistence. `models` is not part of this model. An in-memory store stands in for the database.
- Database failures: reads never fail in the model. The only storage failure modelled is a rejected insert, given as the `accepted` parameter of `PostQuestions`. The other `except` branches (500 in `get_categories`, 422 on a failed search or delete, 404 in the category listing, 405 in the quiz) fire only on storage errors, except the cases the model does handle: a missing id in delete, an unknown category, a missing quiz field.
- `Question.format()` lives in `models`. Pages hold the `Question` records themselves.
- `Handlers.ListQuestions`: `random.shuffle` is not modelled. The shuffled order is the parameter `shuffled`, which must be some permutation of the stored questions.
- `Handlers.Quiz`: `random.choice` is modelled as a nondeterministic choice of some candidate. That the choice is uniform is not stated.
- `Queries.Search`: the match is a plain ASCII case-insensitive substring test. `%` and `_` inside the term are LIKE wildcards in the Python code's query, and the database's Unicode case folding is not modelled.
- Flask's `type=int` coercion of the `page` argument. The page is taken as an already-parsed integer.
- Create requests with missing fields. The Python code passes `None` to the columns, and the column constraints live in `models`. The model takes the four fields as given, and lets `accepted` stand for the database's verdict.
- `Handlers.QuestionsByCategory` and `Handlers.Quiz` read the rows in stored (id) order. The handlers' `.all()` there has no `order_by`, so the database may return them in another order.
- JSON values of the wrong type (a string category id, a non-string search term, a body that is not JSON). Ids are integers. A non-empty search term is a non-empty string.
- `one_or_none()` raising on duplicate ids cannot happen, because the store keeps ids unique.
- Negative ids in `DELETE /questions/<id>` and `GET /categories/<id>/questions`: the router's `<int:id>` does not match them, so they never reach the handler. The model types those ids as `nat`.
- The fixed `message` strings of the error handlers (lines 199-253). Only the codes are modelled.

## Findings

| source | as written | input that shows it | evidently intended | confidence | as-written member | corrected member |
|---|---|---|---|---|---|---|
| backend/flaskr/__init__.py:244-253 | the handler for 500 returns its body with HTTP status 405 | any `abort(500)`, for instance a failing query in `get_categories` | status 500, matching the body's `error` field | high (not executed) | `Model.StatusAsWritten` / `Model.InternalErrorStatusMismatch` | `Model.Status` |
