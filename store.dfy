/** The question table as a mutable store: the create branch of POST
    `/questions` (`question.insert()`) and `delete_question`
    (`question.delete()`) change it in place. */
module Store {
  import opened Model
  import opened Pagination
  import opened Queries
  import opened Categories
  import opened Handlers

  /** The fields of POST `/questions`: a search term, or the four fields of a
      new question. */
  datatype PostBody = PostBody(searchTerm: Option<string>, question: string, answer: string, category: int, difficulty: int)

  class TriviaStore {
    /** The question rows, in id order. */
    var questions: seq<Question>
    /** The category rows, in id order. */
    var categories: seq<Category>
    /** The next value of the autoincrementing question id. */
    var nextId: int

    /** Ids are unique and ordered, and every id handed out so far is below
        `nextId`, so an id is never reused. */
    ghost predicate Valid()
      reads this
    {
      && IdsIncreasing(questions)
      && (forall q :: q in questions ==> q.id < nextId)
      && CategoryIdsIncreasing(categories)
    }

    /** A store with the given categories and no question. */
    constructor (categories: seq<Category>)
      requires CategoryIdsIncreasing(categories)
      ensures Valid()
      ensures this.questions == [] && this.categories == categories && nextId == 1
    {
      this.questions := [];
      this.categories := categories;
      nextId := 1;
    }

    /** GET `/categories` over the stored category rows, which the store keeps
        in id order as `order_by(Category.id)` returns them. */
    method ListCategories() returns (r: Result<Reply>)
      requires Valid()
      ensures r.Ok? && r.value.CategoryList?
      ensures r.value.categories.Keys == Ids(categories)
      ensures forall c :: c in categories ==> r.value.categories[c.id] == c.kind
    {
      r := GetCategories(categories);
    }

    /** POST `/questions`. A non-empty search term selects the search branch,
        which leaves the store alone; otherwise one new question is inserted.
        `accepted` is the database's verdict on the insert: a rejected insert
        leaves no row and is reported as 422. */
    method PostQuestions(body: PostBody, page: int, accepted: bool) returns (r: Result<Reply>)
      requires Valid()
      modifies this
      ensures Valid()
      ensures categories == old(categories)
      ensures SearchRequested(body.searchTerm) ==>
                && questions == old(questions) && nextId == old(nextId)
                && r == SearchQuestions(old(questions), body.searchTerm.value, page)
      ensures !SearchRequested(body.searchTerm) && !accepted ==>
                questions == old(questions) && nextId == old(nextId) && r == Err(Unprocessable)
      ensures !SearchRequested(body.searchTerm) && accepted ==>
                && r == Ok(Created(old(nextId)))
                && !HasId(old(questions), old(nextId))
                && questions == old(questions) + [Question(old(nextId), body.question, body.answer, body.category, body.difficulty)]
                && nextId == old(nextId) + 1
    {
      if SearchRequested(body.searchTerm) {
        r := SearchQuestions(questions, body.searchTerm.value, page);
      } else if !accepted {
        r := Err(Unprocessable);
      } else {
        var id := nextId;
        questions := questions + [Question(id, body.question, body.answer, body.category, body.difficulty)];
        nextId := nextId + 1;
        r := Ok(Created(id));
      }
    }

    /** DELETE `/questions/<id>`: removes the question with that id and reports
        it. A missing id raises 404 inside the `try`, which the bare `except`
        turns into 422, so a missing id is reported as `Unprocessable`. The
        route's `<int:id>` only matches non-negative ids. */
    method DeleteQuestion(id: nat) returns (r: Result<Reply>)
      requires Valid()
      modifies this
      ensures Valid()
      ensures categories == old(categories) && nextId == old(nextId)
      ensures r.Ok? <==> HasId(old(questions), id)
      ensures r.Ok? ==> r.value == Deleted(id) && questions == RemoveId(old(questions), id)
      ensures r.Ok? ==> exists i :: 0 <= i < |old(questions)| && old(questions)[i].id == id &&
                                    questions == old(questions)[..i] + old(questions)[i + 1..]
      ensures r.Err? ==> r.error == Unprocessable && questions == old(questions)
    {
      if !HasId(questions, id) {
        return Err(Unprocessable);
      }
      ghost var q :| q in questions && q.id == id;
      ghost var i :| 0 <= i < |questions| && questions[i] == q;
      RemoveExactlyOne(questions, i);
      RemoveKeepsBound(questions, id, nextId);
      questions := RemoveId(questions, id);
      assert 0 <= i < |old(questions)| && old(questions)[i].id == id &&
             questions == old(questions)[..i] + old(questions)[i + 1..];
      r := Ok(Deleted(id));
    }
  }

  /** Removing rows keeps every remaining id below a bound all ids were below. */
  lemma RemoveKeepsBound(qs: seq<Question>, id: int, bound: int)
    requires forall q :: q in qs ==> q.id < bound
    ensures forall q :: q in RemoveId(qs, id) ==> q.id < bound
  {
  }

  /** After a delete the question listing never shows the deleted id, on any
      page and in any shuffled order. */
  lemma DeletedNotListed(qs: seq<Question>, id: int, shuffled: seq<Question>, page: int)
    requires multiset(shuffled) == multiset(RemoveId(qs, id))
    ensures forall q :: q in Paginate(shuffled, page) ==> q.id != id
  {
    forall q | q in Paginate(shuffled, page) ensures q.id != id {
      PageElementsFromItems(shuffled, page, q);
      assert q in multiset(RemoveId(qs, id));
    }
  }
}
