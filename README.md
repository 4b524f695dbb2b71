# Trivia API question engine, modelled in Dafny

This project models the decision logic of a small Flask trivia backend
(`backend/flaskr/__init__.py`). The backend serves a bank of trivia questions grouped
into categories. It lists questions ten per page, searches question texts, lists the
questions of a category, deletes questions, and serves a random unseen question of a
category for a quiz.

Each endpoint is a pure function of a snapshot of the record store (`Records.Db`: the
question rows and the category rows, each in the store's own row order) and of the
already-parsed request parameters. It returns an `Outcome`: a success payload, or an
abort with status 400, 404, 422 or 500. Deleting a question returns the outcome and
the store it leaves behind.

Files and modules:

- `records.dfy` (`Records`): the question and category rows, the store, the statuses, the outcome type and the primary-key invariants.
- `query.dfy` (`Query`): the query shapes the endpoints use. `Filter` is `filter(...).all()`, `SortBy` is `order_by(...).all()` and `OneOrNone` is `one_or_none()`, where `ManyRows` is the case in which it raises.
- `pagination.dfy` (`Pagination`): `paginated_questions`. It takes Python's slice `selection[(page-1)*10 : (page-1)*10+10]` with Python's rules: negative bounds count from the end, bounds are clamped, and crossed bounds give an empty list.
- `text_match.dfy` (`TextMatch`): `ilike('%term%')`. Both the text and the term are folded to lower case (ASCII), then the term is searched for as a substring.
- `endpoints.dfy` (`Endpoints`): the decisions of six of the backend's seven endpoints, and the `categories()` helper. The seventh endpoint, `create_question`, is left out (see "## Left out").
- `endpoint_properties.dfy` (`EndpointProperties`): properties that relate several calls or rely on the primary keys.

How the code behaves at a few points that are easy to misread. The model follows the code as written:

- Search results are not ordered by id. The search query has no `order_by`, so the matches keep store order.
- The category listing is neither ordered by id nor paginated. All of the category's questions are returned at once.
- A quiz always filters on `quiz_category['id']`. There is no "any category" branch.
- A delete of a missing id gives 422, not 404. The `abort(404)` is raised inside the `try` and caught by `except Exception`.
- `one_or_none()` raises when several rows match. In the category endpoint this happens outside the `try`, so it is modelled as a 500. In the delete endpoint it happens inside the `try`, so it ends as 422. Primary keys make both cases unreachable in a real database.

## Model

| member | source | states |
|---|---|---|
| Pagination.PySlice | backend/flaskr/__init__.py:20 | A Python slice never fails. It is never longer than the list. With non-negative bounds it is the clamped range. With negative bounds it is counted from the end. Bounds that cross on the same side of zero give an empty list. |
| Pagination.Paginate | backend/flaskr/__init__.py:14-20 | A page holds at most 10 records. It is a run of consecutive records of the selection, in their order, starting where the bound `(page-1)*10` lands. |
| Pagination.PageOfPositive | backend/flaskr/__init__.py:14-20 | For page ≥ 1, the page is the selection from `(page-1)*10` to `min(page*10, L)`. Its length is `min(10, max(0, L-(page-1)*10))`, so a huge page is empty and never fails. |
| Pagination.PageZeroIsEmpty | backend/flaskr/__init__.py:15-20 | Page 0 is the slice `[-10:0]`, which is always empty. |
| Pagination.PageOfNegative | backend/flaskr/__init__.py:14-20 | A page ≤ -1 counts blocks of ten back from the end: it is `[max(0, L+(page-1)*10) : max(0, L+page*10)]`. |
| Pagination.PageMinusOneOfTwentyFive | backend/flaskr/__init__.py:14-20 | On 25 items, page -1 returns items 5 to 14. |
| Pagination.PageEmptyIff | backend/flaskr/__init__.py:14-20 | A page is empty exactly when page ≥ 1 and `(page-1)*10 ≥ L`, or page = 0, or page ≤ -1 and `L + page*10 ≤ 0`. |
| Pagination.CollectPagesFrom | backend/flaskr/__init__.py:14-20 | The pages from `page` on, up to the first empty one, concatenate to the selection's suffix from `(page-1)*10`. |
| Pagination.PagesReassemble | backend/flaskr/__init__.py:14-20 | Pages 1, 2, … up to the first empty one concatenate to the whole selection, with no duplicates and no omissions. |
| Pagination.EveryElementOnSomePage | backend/flaskr/__init__.py:14-20 | Every element of the collected pages lies on some page at or after the starting one. |
| Query.Filter | backend/flaskr/__init__.py:193 | A filtered query returns only rows that pass. It returns every row that passes, as many times as it is stored, and no others. |
| Query.FilterCongruence | backend/flaskr/__init__.py:166-167 | Two filters that agree on every row return the same rows. |
| Query.FilterSingleton | backend/flaskr/__init__.py:109-110 | When exactly one stored row passes, the filter returns that row alone. |
| Query.InsertBy | backend/flaskr/__init__.py:81 | Inserting into a list ordered by key keeps it ordered and adds exactly that element. |
| Query.SortBy | backend/flaskr/__init__.py:81 | `order_by` returns the same rows, as a permutation, in ascending key order. |
| TextMatch.Lower | backend/flaskr/__init__.py:166-167 | Case folding keeps the length. No ASCII capital remains, every other character is kept, and each capital becomes the matching lower-case letter. |
| TextMatch.LowerIdempotent | backend/flaskr/__init__.py:166-167 | Folding twice is the same as folding once. |
| TextMatch.AlphabetFolds | backend/flaskr/__init__.py:166-167 | "ABC…Z" folds to "abc…z". |
| TextMatch.IsSubstring | backend/flaskr/__init__.py:166-167 | The scan returns true exactly when the pattern occurs somewhere in the text. |
| TextMatch.ILikeContains | backend/flaskr/__init__.py:166-167 | `ilike('%term%')` holds exactly when the lower-cased term occurs in the lower-cased text. |
| TextMatch.EmptyTermMatchesAll | backend/flaskr/__init__.py:166-167 | The empty search term matches every question text. |
| TextMatch.ILikeIgnoresCase | backend/flaskr/__init__.py:166-167 | Two terms with the same lower-case form match the same texts. |
| TextMatch.TitleFoldsToLower | backend/flaskr/__init__.py:157-159 | "TITLE" and "title" fold to the same term. |
| Endpoints.AllCategories | backend/flaskr/__init__.py:23-24 | `categories()` returns every category row, as a permutation, in ascending id order. |
| Endpoints.CategoryMap | backend/flaskr/__init__.py:61 | The id→type map has exactly the category ids as keys. Each id maps to the type of a category with that id. |
| Endpoints.RetrieveCategories | backend/flaskr/__init__.py:55-64 | 404 exactly when there are no categories. Otherwise the map's keys are exactly the category ids, and each value is the type of a category with that id. |
| Endpoints.QuestionsById | backend/flaskr/__init__.py:81 | The listing source is every stored question, as a permutation, in ascending id order. |
| Endpoints.RetrieveQuestions | backend/flaskr/__init__.py:80-96 | 404 exactly when the requested page of the id-ordered store is empty. Otherwise the page is page `page` of the id-ordered store: 1 to 10 stored questions in ascending id order. `totalQuestions` is the size of the whole store, not of the page. The category map has exactly the category ids as keys and equals the map GET /categories returns. `currentCategory` is "All". |
| Endpoints.DeleteQuestion | backend/flaskr/__init__.py:107-118 | Succeeds exactly when one row has the id, and reports that id. The new store has no row with the id, every other row keeps its multiplicity, and the categories are unchanged. On failure the outcome is 422 and the store is unchanged; in particular a missing id gives 422. |
| Endpoints.SearchQuestions | backend/flaskr/__init__.py:162-177 | A missing term gives 422 and nothing else does. On success, every returned question is stored and matches the term, and at most 10 are returned. The returned questions are page `page` of the matches in store order, and `totalQuestions` counts all matches before pagination. `currentCategory` is the first returned question's category, or `None` when the page is empty. |
| Endpoints.GetQuestionsByCategory | backend/flaskr/__init__.py:188-205 | 404 exactly when no category has the id. Two or more rows with the id give 500, and exactly one row gives success. On success, the result holds every question of that category as often as it is stored and no others, unpaginated. `totalQuestions` is its length, and `currentCategory` is the type of a category with that id. |
| Endpoints.Quiz | backend/flaskr/__init__.py:219-237 | A served question is stored, belongs to the requested category, and has an id not in `previous_questions`. The outcome is 400 exactly when no such question exists, and never a question then. |
| EndpointProperties.RetrieveCategoriesExact | backend/flaskr/__init__.py:55-64 | With unique category ids, every category's id maps to its own type. |
| EndpointProperties.EveryQuestionListed | backend/flaskr/__init__.py:80-96 | Every stored question appears on some successful listing page numbered 1 or more. |
| EndpointProperties.ListingPageIsBlock | backend/flaskr/__init__.py:80-96 | A successful listing page p ≥ 1 holds the id-ordered store from position `(p-1)*10` up to `min(p*10, L)`. |
| EndpointProperties.PageThreeThousandNotFound | backend/test_flaskr.py:46-51 | Page 3000 of a store of at most 29990 questions is a 404, with status code 404. |
| EndpointProperties.DeleteExisting | backend/flaskr/__init__.py:107-116 | With unique question ids, deleting a stored question reports its id. It removes exactly that row and leaves every other record unchanged. |
| EndpointProperties.DeleteMissingIsUnprocessable | backend/test_flaskr.py:73-79 | Deleting id 1000 when it is not stored is an Unprocessable abort, with status code 422, and changes nothing. |
| EndpointProperties.SearchIgnoresCase | backend/flaskr/__init__.py:166-168 | Searching with two terms that differ only in ASCII case gives the same outcome. |
| EndpointProperties.SearchTitleEqualsSearchTITLE | backend/flaskr/__init__.py:157-168 | Searching "TITLE" and "title" gives the same outcome. |
| EndpointProperties.SearchFindsEveryMatch | backend/flaskr/__init__.py:166-175 | Every stored question whose text contains the term is returned on some search page numbered 1 or more. |
| EndpointProperties.SearchSingleMatch | backend/test_flaskr.py:97-104 | When exactly one stored question matches, page 1 of the search returns exactly that question, with a total of 1 and its category as the current category. |
| EndpointProperties.SearchWithoutMatches | backend/test_flaskr.py:106-113 | A term matching nothing gives success with no questions, a total of 0 and no current category. |
| EndpointProperties.CategoryFound | backend/flaskr/__init__.py:189-201 | With unique category ids, the listing of a stored category succeeds and carries that category's type. |
| EndpointProperties.QuizCanServeEveryEligible | backend/flaskr/__init__.py:224-229 | Every eligible question is served for some outcome of the random draw. |
| EndpointProperties.QuizServesTheOnlyUnseenQuestion | backend/flaskr/__init__.py:221-235 | With questions 1 and 2 in category 4, question 3 in category 5, and question 1 already asked, a category-4 quiz serves question 2 whatever the draw. |

## Left out

- `Question.format()`: `models.py` is not part of this model. A page carries the question records themselves, and search's `currentCategory` reads the record's `category`.
- Request parsing: `request.args.get('page', 1, type=int)` with its fallback to page 1, and `get_json`. The page number, search term, previous-question ids and quiz category id arrive already parsed. Malformed bodies (a missing `previous_questions`, or a `quiz_category` that is not a dict) raise outside any `try`; those cases are not modelled.
- `create_question` (`backend/flaskr/__init__.py:132-149`): whether a payload is rejected depends on database column constraints, and those are not visible.
- The CORS setup, the `after_request` headers and the JSON bodies of the error handlers (`backend/flaskr/__init__.py:36-47`, `244-282`). An outcome carries only its status.
- `random.choice`: it becomes the `draw` argument of `Endpoints.Quiz`, and the served question is the eligible row at `draw` modulo their number. Uniformity of the choice is not modelled.
- TextMatch.ILikeContains: case folding is ASCII only, because the database's locale rules are not visible. `%` and `_` inside the term act as unescaped wildcards in the database, but here they are matched literally. `ilike` adds no ESCAPE clause, so PostgreSQL also treats a backslash in the term as an escape character: the term `C:\temp` does not match the text `C:\temp` there, but here it does.
- Question categories are integers. The test file posts them as strings, and the column type is not visible.
- Database errors inside the `try` blocks of the category and delete endpoints (other than `one_or_none` raising) are not modelled. Nothing else in the model can fail there.
- The test file's database setup and its quiz tests. Those tests pass a string as `quiz_category`, and `quiz_category['id']` then fails outside the `try`.
