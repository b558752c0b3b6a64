/** The decision logic of the request handlers that only read the store:
    `get_categories`, GET `/questions`, the search branch of POST `/questions`,
    `get_questions_by_category` and `get_quiz`. Each takes the stored rows as
    values and returns a reply or an error kind where the handler aborts. */
module Handlers {
  import opened Model
  import opened Pagination
  import opened Queries
  import opened Categories

  /** The label the listing and the search reply carry whatever is shown. */
  const DefaultCategory: string := "History"

  /** GET `/categories`: the map from every category id to its type label.
      `cats` is the result of `order_by(Category.id)` over the primary key, so
      its ids increase. */
  method GetCategories(cats: seq<Category>) returns (r: Result<Reply>)
    requires CategoryIdsIncreasing(cats)
    ensures r.Ok? && r.value.CategoryList?
    ensures r.value.categories.Keys == Ids(cats)
    ensures forall c :: c in cats ==> r.value.categories[c.id] == c.kind
  {
    var m := BuildCategoryMap(cats);
    CategoryMapOfOrdered(cats);
    r := Ok(CategoryList(m));
  }

  /** GET `/questions`: the requested page of the shuffled questions, 404 when
      that page is empty. `shuffled` is the order `random.shuffle` produced: any
      permutation of the stored questions. */
  method ListQuestions(qs: seq<Question>, cats: seq<Category>, shuffled: seq<Question>, page: int)
    returns (r: Result<Reply>)
    requires multiset(shuffled) == multiset(qs)
    ensures r.Err? <==> Paginate(shuffled, page) == []
    ensures r.Err? ==> r.error == NotFound
    ensures page >= 1 ==> (r.Err? <==> |qs| <= QuestionsPerPage * (page - 1))
    ensures r.Ok? ==> r.value == QuestionList(Paginate(shuffled, page), |qs|, DefaultCategory, CategoryMap(cats))
    ensures r.Ok? ==> forall q :: q in r.value.questions ==> q in qs
  {
    var current := Paginate(shuffled, page);
    var m := BuildCategoryMap(cats);
    assert |shuffled| == |qs| by {
      assert |multiset(shuffled)| == |multiset(qs)|;
    }
    if page >= 1 {
      PositivePage(shuffled, page);
    }
    if |current| == 0 {
      r := Err(NotFound);
    } else {
      forall q | q in current ensures q in qs {
        PageElementsFromItems(shuffled, page, q);
        assert q in multiset(shuffled);
      }
      r := Ok(QuestionList(current, |qs|, DefaultCategory, m));
    }
  }

  /** The `if search:` test: an absent (`None`) or empty search term is falsy,
      every other string is truthy. */
  predicate SearchRequested(searchTerm: Option<string>)
  {
    searchTerm.Some? && searchTerm.value != ""
  }

  /** The search branch of POST `/questions`: the requested page of the
      questions whose text contains `term`, in id order, and the number of all
      matches. An empty page is not an error here. */
  function SearchQuestions(qs: seq<Question>, term: string, page: int): (r: Result<Reply>)
    ensures r.Ok? && r.value.SearchResult?
    ensures r.value.currentCategory == DefaultCategory
    ensures r.value.questions == Paginate(Search(qs, term), page)
    ensures r.value.totalQuestions == |Search(qs, term)|
    ensures |r.value.questions| <= QuestionsPerPage
    ensures forall q :: q in r.value.questions ==> q in qs && MatchesTerm(q.question, term)
    ensures IdsIncreasing(qs) ==> IdsIncreasing(r.value.questions)
  {
    var matches := Search(qs, term);
    var current := Paginate(matches, page);
    assert forall q :: q in current ==> q in matches by {
      forall q | q in current ensures q in matches {
        PageElementsFromItems(matches, page, q);
      }
    }
    assert IdsIncreasing(qs) ==> IdsIncreasing(current) by {
      PageIsRun(matches, page);
    }
    Ok(SearchResult(DefaultCategory, current, |matches|))
  }

  /** The first category with id `id`, as `.first()` returns it. */
  function FirstCategory(cats: seq<Category>, id: int): (r: Option<Category>)
    ensures r.None? <==> id !in Ids(cats)
    ensures r.Some? ==> r.value in cats && r.value.id == id
  {
    if cats == [] then None
    else if cats[0].id == id then Some(cats[0])
    else
      assert cats == [cats[0]] + cats[1..];
      FirstCategory(cats[1..], id)
  }

  /** GET `/categories/<id>/questions`: the requested page of the questions in
      category `id`, the number of all of them and the category's type label;
      404 when no category has that id (the handler's `.type` on `None`). An
      empty page is not an error here. The route's `<int:id>` only matches
      non-negative ids. */
  function QuestionsByCategory(qs: seq<Question>, cats: seq<Category>, id: nat, page: int): (r: Result<Reply>)
    ensures r.Err? <==> id !in Ids(cats)
    ensures r.Err? ==> r.error == NotFound
    ensures r.Ok? ==> r.value.CategoryQuestions?
    ensures r.Ok? ==> r.value.questions == Paginate(InCategory(qs, id), page)
    ensures r.Ok? ==> r.value.totalQuestions == |InCategory(qs, id)|
    ensures r.Ok? ==> |r.value.questions| <= QuestionsPerPage
    ensures r.Ok? ==> forall q :: q in r.value.questions ==> q in qs && q.category == id
    ensures r.Ok? ==> exists c :: c in cats && c.id == id && c.kind == r.value.currentCategory
  {
    var selection := InCategory(qs, id);
    var current := Paginate(selection, page);
    match FirstCategory(cats, id)
    case None => Err(NotFound)
    case Some(c) =>
      assert forall q :: q in current ==> q in selection by {
        forall q | q in current ensures q in selection {
          PageElementsFromItems(selection, page, q);
        }
      }
      Ok(CategoryQuestions(c.kind, current, |selection|))
  }

  /** The body of POST `/quizzes`: `category` is `quiz_category['id']` and is
      `None` when either is missing, `previous` is `previous_questions`. */
  datatype QuizRequest = QuizRequest(category: Option<int>, previous: Option<seq<int>>)

  /** POST `/quizzes`: some question not yet seen, of the given category unless
      it is 0, or no question once all are seen. A missing category or seen list
      makes the query raise, which the handler reports as 405. */
  method Quiz(qs: seq<Question>, request: QuizRequest) returns (r: Result<Reply>)
    ensures r.Err? <==> request.category.None? || request.previous.None?
    ensures r.Err? ==> r.error == MethodNotAllowed
    ensures r.Ok? ==> r.value.QuizQuestion?
    ensures r.Ok? ==> (r.value.question.None? <==>
                        QuizCandidates(qs, request.category.value, request.previous.value) == [])
    ensures r.Ok? && r.value.question.Some? ==>
              var q := r.value.question.value;
              q in QuizCandidates(qs, request.category.value, request.previous.value) &&
              q in qs && q.id !in request.previous.value &&
              (request.category.value != 0 ==> q.category == request.category.value)
  {
    if request.category.None? || request.previous.None? {
      return Err(MethodNotAllowed);
    }
    var candidates := QuizCandidates(qs, request.category.value, request.previous.value);
    if |candidates| > 0 {
      var q :| q in candidates;
      r := Ok(QuizQuestion(Some(q)));
    } else {
      r := Ok(QuizQuestion(None));
    }
  }
}
