/** The rows of the trivia question bank and the outcomes its endpoints produce. */
module Records {

  /** A row of the `questions` table; `category` holds the id of a category row. */
  datatype Question = Question(id: int, question: string, answer: string, category: int, difficulty: int)

  /** A row of the `categories` table; the column called `type` is named `kind` here. */
  datatype Category = Category(id: int, kind: string)

  /** A snapshot of the record store: both tables, each in the store's own row order. */
  datatype Db = Db(questions: seq<Question>, categories: seq<Category>)

  datatype Option<T> = None | Some(value: T)

  /** The error statuses the endpoints abort with. */
  datatype Status = BadRequest | NotFound | Unprocessable | InternalServerError
  {
    function Code(): int
    {
      match this
      case BadRequest => 400
      case NotFound => 404
      case Unprocessable => 422
      case InternalServerError => 500
    }
  }

  /** What an endpoint answers: a success payload, or an abort with an error status. */
  datatype Outcome<T> = Success(payload: T) | Abort(status: Status)

  function QuestionId(q: Question): int { q.id }

  function CategoryId(c: Category): int { c.id }

  /** The primary-key invariant of the questions table. */
  ghost predicate UniqueQuestionIds(qs: seq<Question>)
  {
    forall i, j :: 0 <= i < j < |qs| ==> qs[i].id != qs[j].id
  }

  /** The primary-key invariant of the categories table. */
  ghost predicate UniqueCategoryIds(cs: seq<Category>)
  {
    forall i, j :: 0 <= i < j < |cs| ==> cs[i].id != cs[j].id
  }
}
