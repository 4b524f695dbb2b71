/** Properties of the endpoints that relate several calls, or that rely on the tables' primary keys. */
module EndpointProperties {
  import opened Records
  import opened Query
  import opened Pagination
  import opened TextMatch
  import opened Endpoints

  /** With unique category ids, the category map sends every id to that category's type. */
  lemma RetrieveCategoriesExact(db: Db)
    requires UniqueCategoryIds(db.categories)
    requires db.categories != []
    ensures RetrieveCategories(db).Success?
    ensures forall c :: c in db.categories ==> c.id in RetrieveCategories(db).payload
    ensures forall c :: c in db.categories ==> RetrieveCategories(db).payload[c.id] == c.kind
  {
    var m := RetrieveCategories(db).payload;
    forall c | c in db.categories
      ensures c.id in m && m[c.id] == c.kind
    {
      var d :| d in db.categories && d.id == c.id && d.kind == m[c.id];
      var i :| 0 <= i < |db.categories| && db.categories[i] == c;
      var j :| 0 <= j < |db.categories| && db.categories[j] == d;
      assert i == j;
    }
  }

  /** Every question of the store is listed on some page numbered 1 or more. */
  lemma EveryQuestionListed(db: Db, q: Question)
    requires q in db.questions
    ensures exists page :: page >= 1 && RetrieveQuestions(db, page).Success? &&
                           q in RetrieveQuestions(db, page).payload.questions
  {
    var all := QuestionsById(db);
    PagesReassemble(all);
    EveryElementOnSomePage(all, 1, q);
    var page :| page >= 1 && q in Paginate(all, page);
    assert RetrieveQuestions(db, page).payload.questions == Paginate(all, page);
  }

  /** Listing page `page` (1 or more) holds the id-ordered store from position `(page-1)*10` up to `page*10`. */
  lemma ListingPageIsBlock(db: Db, page: int)
    requires page >= 1
    requires RetrieveQuestions(db, page).Success?
    ensures RetrieveQuestions(db, page).payload.questions ==
      QuestionsById(db)[(page - 1) * QuestionsPerPage..Min(page * QuestionsPerPage, |db.questions|)]
  {
    PageOfPositive(QuestionsById(db), page);
  }

  /** Asking for page 3000 of a store of fewer than 29991 questions is a 404. */
  lemma PageThreeThousandNotFound(db: Db)
    requires |db.questions| <= 29990
    ensures RetrieveQuestions(db, 3000) == Abort(NotFound)
    ensures RetrieveQuestions(db, 3000).status.Code() == 404
  {
  }

  /** With unique question ids, deleting a stored question reports its id and removes exactly that row. */
  lemma DeleteExisting(db: Db, q: Question)
    requires UniqueQuestionIds(db.questions)
    requires q in db.questions
    ensures DeleteQuestion(db, q.id).outcome == Success(q.id)
    ensures multiset(DeleteQuestion(db, q.id).db.questions) == multiset(db.questions) - multiset{q}
    ensures DeleteQuestion(db, q.id).db.categories == db.categories
  {
    var i :| 0 <= i < |db.questions| && db.questions[i] == q;
    FilterSingleton(db.questions, WithQuestionId(q.id), i);
    var before, after := multiset(db.questions), multiset(DeleteQuestion(db, q.id).db.questions);
    assert multiset(Filter(db.questions, WithQuestionId(q.id))) == multiset{q};
    forall x: Question
      ensures after[x] == (before - multiset{q})[x]
    {
      if x.id == q.id {
        assert multiset(Filter(db.questions, WithQuestionId(q.id)))[x] == before[x];
      }
    }
    assert after == before - multiset{q};
  }

  /** The store's question with id 1000 missing, DELETE /questions/1000 is a 422 and changes nothing. */
  lemma DeleteMissingIsUnprocessable(db: Db)
    requires forall q :: q in db.questions ==> q.id != 1000
    ensures DeleteQuestion(db, 1000) == Deletion(Abort(Unprocessable), db)
    ensures DeleteQuestion(db, 1000).outcome.status.Code() == 422
  {
  }

  /** Search sees the term only through its lower-case form: "TITLE" and "title" give the same answer. */
  lemma SearchIgnoresCase(db: Db, t1: string, t2: string, page: int)
    requires Lower(t1) == Lower(t2)
    ensures SearchQuestions(db, Some(t1), page) == SearchQuestions(db, Some(t2), page)
  {
    forall q: Question
      ensures Matching(t1)(q) == Matching(t2)(q)
    {
      ILikeIgnoresCase(q.question, t1, t2);
    }
    FilterCongruence(db.questions, Matching(t1), Matching(t2));
  }

  lemma SearchTitleEqualsSearchTITLE(db: Db, page: int)
    ensures SearchQuestions(db, Some("TITLE"), page) == SearchQuestions(db, Some("title"), page)
  {
    TitleFoldsToLower();
    SearchIgnoresCase(db, "TITLE", "title", page);
  }

  /** Every stored question whose text contains the term turns up on some page of the search. */
  lemma SearchFindsEveryMatch(db: Db, term: string, q: Question)
    requires q in db.questions && ILikeContains(q.question, term)
    ensures exists page :: page >= 1 && q in SearchQuestions(db, Some(term), page).payload.questions
  {
    var results := Filter(db.questions, Matching(term));
    assert q in results;
    PagesReassemble(results);
    EveryElementOnSomePage(results, 1, q);
    var page :| page >= 1 && q in Paginate(results, page);
    assert SearchQuestions(db, Some(term), page).payload.questions == Paginate(results, page);
  }

  /** When exactly one stored question matches the term, page 1 of the search returns it alone,
      with a total of 1 and its category as the current category. */
  lemma SearchSingleMatch(db: Db, term: string, i: int)
    requires 0 <= i < |db.questions| && ILikeContains(db.questions[i].question, term)
    requires forall j :: 0 <= j < |db.questions| && ILikeContains(db.questions[j].question, term) ==> j == i
    ensures SearchQuestions(db, Some(term), 1) ==
      Success(SearchPage([db.questions[i]], 1, Some(db.questions[i].category)))
  {
    var q := db.questions[i];
    FilterSingleton(db.questions, Matching(term), i);
    assert Filter(db.questions, Matching(term)) == [q];
    PageOfPositive([q], 1);
    assert Paginate([q], 1) == [q];
  }

  /** A term that matches nothing is still a success, with no questions, a total of 0 and no category. */
  lemma SearchWithoutMatches(db: Db, term: string, page: int)
    requires forall q :: q in db.questions ==> !ILikeContains(q.question, term)
    ensures SearchQuestions(db, Some(term), page) == Success(SearchPage([], 0, None))
  {
    var results := Filter(db.questions, Matching(term));
    assert results == [] by {
      assert multiset(results) == multiset{};
    }
  }

  /** With unique category ids, a stored category's listing succeeds and is labelled with its type. */
  lemma CategoryFound(db: Db, c: Category)
    requires UniqueCategoryIds(db.categories)
    requires c in db.categories
    ensures GetQuestionsByCategory(db, c.id).Success?
    ensures GetQuestionsByCategory(db, c.id).payload.currentCategory == c.kind
  {
    var i :| 0 <= i < |db.categories| && db.categories[i] == c;
    FilterSingleton(db.categories, WithCategoryId(c.id), i);
  }

  lemma SmallModulo(i: nat, n: nat)
    requires i < n
    ensures i % n == i
  {
  }

  /** Every eligible question can be the one served, for some outcome of the random draw. */
  lemma QuizCanServeEveryEligible(db: Db, previousQuestions: seq<int>, categoryId: int, q: Question)
    requires q in db.questions && q.category == categoryId && q.id !in previousQuestions
    ensures exists draw: nat :: Quiz(db, previousQuestions, categoryId, draw) == Success(q)
  {
    var questions := Filter(db.questions, Eligible(previousQuestions, categoryId));
    assert Eligible(previousQuestions, categoryId)(q);
    assert q in questions;
    var i :| 0 <= i < |questions| && questions[i] == q;
    SmallModulo(i, |questions|);
    var draw: nat := i;
    assert Quiz(db, previousQuestions, categoryId, draw) == Success(q);
  }

  /** Questions 1 and 2 in category 4 and question 3 in category 5: with question 1 already
      asked, a quiz on category 4 serves question 2 whatever the draw. */
  lemma QuizServesTheOnlyUnseenQuestion(draw: nat)
    ensures Quiz(Db([Question(1, "a", "a", 4, 1), Question(2, "b", "b", 4, 1), Question(3, "c", "c", 5, 1)], []),
                 [1], 4, draw).payload.id == 2
  {
    var db := Db([Question(1, "a", "a", 4, 1), Question(2, "b", "b", 4, 1), Question(3, "c", "c", 5, 1)], []);
    var r := Quiz(db, [1], 4, draw);
    assert db.questions[1].id !in [1] && db.questions[1].category == 4;
    assert r.Success?;
  }
}
