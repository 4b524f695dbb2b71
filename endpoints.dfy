/** The decision logic of the trivia API's endpoints, each a function of a store snapshot
    and the already-parsed request parameters. */
module Endpoints {
  import opened Records
  import opened Query
  import opened Pagination
  import opened TextMatch

  // The row predicates the endpoints filter with.

  function WithCategoryId(k: int): Category -> bool { (c: Category) => c.id == k }

  function WithQuestionId(k: int): Question -> bool { (q: Question) => q.id == k }

  function WithoutQuestionId(k: int): Question -> bool { (q: Question) => q.id != k }

  function InCategory(k: int): Question -> bool { (q: Question) => q.category == k }

  function Matching(term: string): Question -> bool { (q: Question) => ILikeContains(q.question, term) }

  function Eligible(previous: seq<int>, k: int): Question -> bool
  {
    (q: Question) => q.id !in previous && q.category == k
  }

  /** `categories()`: every category row, ascending by id. */
  function AllCategories(db: Db): (r: seq<Category>)
    ensures SortedBy(r, CategoryId)
    ensures multiset(r) == multiset(db.categories)
    ensures |r| == |db.categories|
    ensures forall c :: c in r <==> c in db.categories
  {
    var r := SortBy(db.categories, CategoryId);
    assert forall c :: c in r <==> c in multiset(r);
    r
  }

  /** `{cat.id: cat.type for cat in cats}`: a later row overwrites an earlier one with the same id. */
  function CategoryMap(cats: seq<Category>): (m: map<int, string>)
    ensures m.Keys == set c | c in cats :: c.id
    ensures forall k :: k in m ==> exists c :: c in cats && c.id == k && c.kind == m[k]
  {
    if cats == [] then map[]
    else
      var last := cats[|cats| - 1];
      var init := cats[..|cats| - 1];
      assert cats == init + [last];
      CategoryMap(init)[last.id := last.kind]
  }

  /** GET /categories. */
  function RetrieveCategories(db: Db): (r: Outcome<map<int, string>>)
    ensures r.Abort? <==> db.categories == []
    ensures r.Abort? ==> r.status == NotFound
    ensures r.Success? ==> r.payload.Keys == set c | c in db.categories :: c.id
    ensures r.Success? ==>
      forall k :: k in r.payload ==> exists c :: c in db.categories && c.id == k && c.kind == r.payload[k]
  {
    var categoryList := AllCategories(db);
    if |categoryList| == 0 then Abort(NotFound)
    else Success(CategoryMap(categoryList))
  }

  /** The body of a successful GET /questions. */
  datatype QuestionPage = QuestionPage(
    questions: seq<Question>,
    totalQuestions: nat,
    categories: map<int, string>,
    currentCategory: string)

  /** `Question.query.order_by(Question.id).all()`. */
  function QuestionsById(db: Db): (r: seq<Question>)
    ensures SortedBy(r, QuestionId)
    ensures multiset(r) == multiset(db.questions)
    ensures |r| == |db.questions|
    ensures forall q :: q in r <==> q in db.questions
  {
    var r := SortBy(db.questions, QuestionId);
    assert forall q :: q in r <==> q in multiset(r);
    r
  }

  /** GET /questions?page=`page`: 404 exactly when the page is empty. */
  function RetrieveQuestions(db: Db, page: int): (r: Outcome<QuestionPage>)
    ensures r.Abort? <==> PageIsEmpty(|db.questions|, page)
    ensures r.Abort? ==> r.status == NotFound
    ensures r.Success? ==> 1 <= |r.payload.questions| <= QuestionsPerPage
    ensures r.Success? ==> SortedBy(r.payload.questions, QuestionId)
    ensures r.Success? ==> forall q :: q in r.payload.questions ==> q in db.questions
    ensures r.Success? ==> r.payload.totalQuestions == |db.questions|
    ensures r.Success? ==> r.payload.questions == Paginate(QuestionsById(db), page)
    ensures r.Success? ==> r.payload.categories.Keys == set c | c in db.categories :: c.id
    ensures r.Success? && db.categories != [] ==> r.payload.categories == RetrieveCategories(db).payload
    ensures r.Success? ==> r.payload.currentCategory == "All"
  {
    var questionsList := QuestionsById(db);
    var requested := Paginate(questionsList, page);
    PageEmptyIff(questionsList, page);
    var categoriesDict := CategoryMap(AllCategories(db));
    if |requested| == 0 then Abort(NotFound)
    else Success(QuestionPage(requested, |questionsList|, categoriesDict, "All"))
  }

  /** The outcome of DELETE /questions/`id` together with the store it leaves behind. */
  datatype Deletion = Deletion(outcome: Outcome<int>, db: Db)

  /** DELETE /questions/`questionId`. The `abort(404)` for a missing row is raised inside the
      `try` and caught by `except Exception`, so every failure ends as 422. */
  function DeleteQuestion(db: Db, questionId: int): (r: Deletion)
    ensures r.outcome.Success? <==> |Filter(db.questions, WithQuestionId(questionId))| == 1
    ensures r.outcome.Success? ==> r.outcome.payload == questionId
    ensures r.outcome.Abort? ==> r.outcome.status == Unprocessable && r.db == db
    ensures (forall q :: q in db.questions ==> q.id != questionId) ==> r.outcome == Abort(Unprocessable)
    ensures r.outcome.Success? ==> r.db.categories == db.categories
    ensures r.outcome.Success? ==> forall q :: q in r.db.questions ==> q.id != questionId
    ensures r.outcome.Success? ==>
      forall q: Question :: q.id != questionId ==> multiset(r.db.questions)[q] == multiset(db.questions)[q]
  {
    match OneOrNone(Filter(db.questions, WithQuestionId(questionId)))
    case OneRow(_) =>
      Deletion(Success(questionId), db.(questions := Filter(db.questions, WithoutQuestionId(questionId))))
    case _ =>
      Deletion(Abort(Unprocessable), db)
  }

  /** The body of a successful POST /questions/search. */
  datatype SearchPage = SearchPage(questions: seq<Question>, totalQuestions: nat, currentCategory: Option<int>)

  /** POST /questions/search: `searchTerm` is `None` when the body has no "searchTerm". The matches
      keep the store's row order (the query has no `order_by`), and an empty page is still a success. */
  function SearchQuestions(db: Db, searchTerm: Option<string>, page: int): (r: Outcome<SearchPage>)
    ensures r.Abort? <==> searchTerm.None?
    ensures r.Abort? ==> r.status == Unprocessable
    ensures r.Success? ==> |r.payload.questions| <= QuestionsPerPage
    ensures r.Success? ==>
      forall q :: q in r.payload.questions ==> q in db.questions && ILikeContains(q.question, searchTerm.value)
    ensures r.Success? ==> r.payload.totalQuestions == |Filter(db.questions, Matching(searchTerm.value))|
    ensures r.Success? ==> r.payload.questions == Paginate(Filter(db.questions, Matching(searchTerm.value)), page)
    ensures r.Success? && r.payload.questions == [] ==> r.payload.currentCategory == None
    ensures r.Success? && r.payload.questions != [] ==>
      r.payload.currentCategory == Some(r.payload.questions[0].category)
  {
    match searchTerm
    case None => Abort(Unprocessable)
    case Some(term) =>
      var results := Filter(db.questions, Matching(term));
      var resultsPaginated := Paginate(results, page);
      var currentCategory := if |resultsPaginated| > 0 then Some(resultsPaginated[0].category) else None;
      Success(SearchPage(resultsPaginated, |results|, currentCategory))
  }

  /** The body of a successful GET /categories/`id`/questions. */
  datatype CategoryQuestions = CategoryQuestions(questions: seq<Question>, totalQuestions: nat, currentCategory: string)

  /** GET /categories/`categoryId`/questions: every question of the category, unpaginated, in store
      order. More than one category row with the id makes `one_or_none` raise outside the `try`. */
  function GetQuestionsByCategory(db: Db, categoryId: int): (r: Outcome<CategoryQuestions>)
    ensures (r.Abort? && r.status == NotFound) <==> forall c :: c in db.categories ==> c.id != categoryId
    ensures r.Abort? ==> r.status == NotFound || r.status == InternalServerError
    ensures |Filter(db.categories, WithCategoryId(categoryId))| >= 2 ==> r == Abort(InternalServerError)
    ensures |Filter(db.categories, WithCategoryId(categoryId))| == 1 ==> r.Success?
    ensures r.Success? ==>
      forall q: Question :: multiset(r.payload.questions)[q] == if q.category == categoryId then multiset(db.questions)[q] else 0
    ensures r.Success? ==> forall q :: q in r.payload.questions <==> q in db.questions && q.category == categoryId
    ensures r.Success? ==> r.payload.totalQuestions == |r.payload.questions|
    ensures r.Success? ==> exists c :: c in db.categories && c.id == categoryId && c.kind == r.payload.currentCategory
  {
    var matches := Filter(db.categories, WithCategoryId(categoryId));
    match OneOrNone(matches)
    case NoRow => Abort(NotFound)
    case ManyRows => Abort(InternalServerError)
    case OneRow(category) =>
      assert category in matches;
      var categoryQuestions := Filter(db.questions, InCategory(categoryId));
      Success(CategoryQuestions(categoryQuestions, |categoryQuestions|, category.kind))
  }

  /** POST /quizzes: a question of category `categoryId` whose id is not among `previousQuestions`.
      `random.choice` is the oracle `draw`: the pick is the eligible row at `draw` modulo their number. */
  function Quiz(db: Db, previousQuestions: seq<int>, categoryId: int, draw: nat): (r: Outcome<Question>)
    ensures r.Success? ==> r.payload in db.questions
    ensures r.Success? ==> r.payload.category == categoryId && r.payload.id !in previousQuestions
    ensures r.Abort? ==> r.status == BadRequest
    ensures r.Abort? <==>
      forall q :: q in db.questions ==> q.id in previousQuestions || q.category != categoryId
  {
    var questions := Filter(db.questions, Eligible(previousQuestions, categoryId));
    if |questions| == 0 then Abort(BadRequest)
    else
      var choice := questions[draw % |questions|];
      assert choice in questions;
      Success(choice)
  }
}
