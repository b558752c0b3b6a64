/** The records of the trivia store, the replies the handlers build and the
    error kinds they report instead of aborting. */
module Model {

  /** A row of the `Question` table. */
  datatype Question = Question(id: int, question: string, answer: string, category: int, difficulty: int)

  /** A row of the `Category` table; `kind` is the `type` column. */
  datatype Category = Category(id: int, kind: string)

  datatype Option<+T> = None | Some(value: T)

  /** The `abort(...)` codes the handlers use, as an explicit error kind. */
  datatype ErrorKind = BadRequest | NotFound | Unprocessable | MethodNotAllowed | InternalError

  datatype Result<+T> = Ok(value: T) | Err(error: ErrorKind)

  /** The JSON bodies of the successful replies, one constructor per shape. */
  datatype Reply =
    | QuestionList(questions: seq<Question>, totalQuestions: nat, currentCategory: string, categories: map<int, string>)
    | SearchResult(currentCategory: string, questions: seq<Question>, totalQuestions: nat)
    | Created(created: int)
    | Deleted(deleted: int)
    | CategoryList(categories: map<int, string>)
    | CategoryQuestions(currentCategory: string, questions: seq<Question>, totalQuestions: nat)
    | QuizQuestion(question: Option<Question>)

  /** The `error` field of the JSON body each error handler sends. */
  function ErrorCode(e: ErrorKind): (code: int)
    ensures 400 <= code <= 500
  {
    match e
    case BadRequest => 400
    case NotFound => 404
    case Unprocessable => 422
    case MethodNotAllowed => 405
    case InternalError => 500
  }

  /** The HTTP status line each error handler sends, as written: the handler for
      500 answers with status 405. */
  function StatusAsWritten(e: ErrorKind): (status: int)
    ensures e != InternalError ==> status == ErrorCode(e)
  {
    if e == InternalError then 405 else ErrorCode(e)
  }

  /** The status as written disagrees with the body for an internal error. */
  lemma InternalErrorStatusMismatch()
    ensures StatusAsWritten(InternalError) == 405 != ErrorCode(InternalError)
  {
  }

  /** The HTTP status line as evidently intended: the same code as the body. */
  function Status(e: ErrorKind): (status: int)
    ensures status == ErrorCode(e)
    ensures e == InternalError ==> status == 500
  {
    match e
    case BadRequest => 400
    case NotFound => 404
    case Unprocessable => 422
    case MethodNotAllowed => 405
    case InternalError => 500
  }
}
