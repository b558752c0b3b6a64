/** The filtered reads the handlers make of the question table: the `ilike`
    search, the filter by category, the quiz candidates and the rows left by a
    delete. Each is a `Select` over the stored questions, in stored order. */
module Queries {
  import opened Model

  /** Question ids strictly increase along `qs`: the store is kept in id order. */
  predicate IdsIncreasing(qs: seq<Question>)
  {
    forall i, j :: 0 <= i < j < |qs| ==> qs[i].id < qs[j].id
  }

  /** Some question of `qs` has id `id`. */
  predicate HasId(qs: seq<Question>, id: int)
  {
    exists q :: q in qs && q.id == id
  }

  /** The questions of `qs` that `keep` accepts, in their order in `qs`. */
  function Select(qs: seq<Question>, keep: Question -> bool): (r: seq<Question>)
    ensures forall q :: q in r <==> q in qs && keep(q)
    ensures multiset(r) <= multiset(qs)
    ensures IdsIncreasing(qs) ==> IdsIncreasing(r)
  {
    if qs == [] then []
    else
      var rest := Select(qs[1..], keep);
      assert qs == [qs[0]] + qs[1..];
      if keep(qs[0]) then PrependKeepsOrder(qs, rest); [qs[0]] + rest else rest
  }

  /** Putting the first row of an id-ordered `qs` in front of rows taken from
      the rest of `qs` keeps them in id order. */
  lemma PrependKeepsOrder(qs: seq<Question>, rest: seq<Question>)
    requires qs != []
    requires forall q :: q in rest ==> q in qs[1..]
    requires IdsIncreasing(qs) ==> IdsIncreasing(rest)
    ensures IdsIncreasing(qs) ==> IdsIncreasing([qs[0]] + rest)
  {
    if IdsIncreasing(qs) {
      forall q | q in rest ensures qs[0].id < q.id {
        var k :| 0 <= k < |qs[1..]| && qs[1..][k] == q;
        assert qs[k + 1] == q;
      }
      var r := [qs[0]] + rest;
      forall i, j | 0 <= i < j < |r| ensures r[i].id < r[j].id {
        if i == 0 {
          assert r[j] == rest[j - 1];
          assert rest[j - 1] in rest;
        } else {
          assert r[i] == rest[i - 1] && r[j] == rest[j - 1];
        }
      }
    }
  }

  /** A filter that rejects every question of `qs` selects nothing. */
  lemma {:induction false} SelectNone(qs: seq<Question>, keep: Question -> bool)
    requires forall q :: q in qs ==> !keep(q)
    ensures Select(qs, keep) == []
  {
    if qs != [] {
      SelectNone(qs[1..], keep);
    }
  }

  /** Two filters that agree on every question of `qs` select the same rows. */
  lemma {:induction false} SelectAgrees(qs: seq<Question>, f: Question -> bool, g: Question -> bool)
    requires forall q :: q in qs ==> f(q) == g(q)
    ensures Select(qs, f) == Select(qs, g)
  {
    if qs != [] {
      SelectAgrees(qs[1..], f, g);
    }
  }

  /** A filter that accepts every question of `qs` selects all of `qs`. */
  lemma {:induction false} SelectAll(qs: seq<Question>, keep: Question -> bool)
    requires forall q :: q in qs ==> keep(q)
    ensures Select(qs, keep) == qs
  {
    if qs != [] {
      SelectAll(qs[1..], keep);
    }
  }

  /** Lower-casing as a plain ASCII mapping of the letters A to Z. */
  function LowerChar(c: char): char
  {
    if 'A' <= c <= 'Z' then (c as int + 32) as char else c
  }

  function Lower(s: string): (r: string)
    ensures |r| == |s|
  {
    seq(|s|, i requires 0 <= i < |s| => LowerChar(s[i]))
  }

  /** `needle` occurs in `hay` at index `i`. */
  predicate OccursAt(needle: string, hay: string, i: int)
  {
    0 <= i <= |hay| - |needle| && hay[i..i + |needle|] == needle
  }

  /** Shifting the haystack by one shifts every occurrence that is not at 0. */
  lemma ShiftOccurrence(needle: string, hay: string)
    requires |needle| <= |hay| && hay[..|needle|] != needle
    ensures hay != []
    ensures (exists i :: OccursAt(needle, hay, i)) <==> exists i :: OccursAt(needle, hay[1..], i)
  {
    if exists i :: OccursAt(needle, hay, i) {
      var i :| OccursAt(needle, hay, i);
      assert i != 0;
      assert hay[1..][i - 1..i - 1 + |needle|] == hay[i..i + |needle|];
      assert OccursAt(needle, hay[1..], i - 1);
    }
    if exists i :: OccursAt(needle, hay[1..], i) {
      var i :| OccursAt(needle, hay[1..], i);
      assert hay[1..][i..i + |needle|] == hay[i + 1..i + 1 + |needle|];
      assert OccursAt(needle, hay, i + 1);
    }
  }

  /** Substring search by scanning: true exactly when `needle` occurs
      somewhere in `hay`. */
  function Contains(hay: string, needle: string): (b: bool)
    ensures b <==> exists i :: OccursAt(needle, hay, i)
    decreases |hay|
  {
    if |hay| < |needle| then false
    else if hay[..|needle|] == needle then assert OccursAt(needle, hay, 0); true
    else ShiftOccurrence(needle, hay); Contains(hay[1..], needle)
  }

  /** The `ilike '%term%'` match, as an ASCII case-insensitive substring test:
      the lower-cased term occurs somewhere in the lower-cased text. */
  predicate MatchesTerm(text: string, term: string)
    ensures MatchesTerm(text, term) <==> exists i :: OccursAt(Lower(term), Lower(text), i)
    ensures MatchesTerm(text, term) ==> |term| <= |text|
  {
    Contains(Lower(text), Lower(term))
  }

  /** The rows `Question.question.ilike("%term%")` returns, in id order when
      the store is. */
  function Search(qs: seq<Question>, term: string): (r: seq<Question>)
    ensures forall q :: q in r <==> q in qs && MatchesTerm(q.question, term)
    ensures IdsIncreasing(qs) ==> IdsIncreasing(r)
  {
    Select(qs, (q: Question) => MatchesTerm(q.question, term))
  }

  /** Two terms that differ only in the case of ASCII letters find the same
      questions. */
  lemma SearchIgnoresCase(qs: seq<Question>, t: string, u: string)
    requires Lower(t) == Lower(u)
    ensures Search(qs, t) == Search(qs, u)
  {
    SelectAgrees(qs, (q: Question) => MatchesTerm(q.question, t), (q: Question) => MatchesTerm(q.question, u));
  }

  /** The rows `Question.query.filter(Question.category == id)` returns. */
  function InCategory(qs: seq<Question>, id: int): (r: seq<Question>)
    ensures forall q :: q in r <==> q in qs && q.category == id
  {
    Select(qs, (q: Question) => q.category == id)
  }

  /** The quiz candidates: the questions not among `previous` and, unless
      `category` is 0, in that category. */
  function QuizCandidates(qs: seq<Question>, category: int, previous: seq<int>): (r: seq<Question>)
    ensures forall q :: q in r <==> q in qs && q.id !in previous && (category != 0 ==> q.category == category)
  {
    Select(qs, (q: Question) => q.id !in previous && (category == 0 || q.category == category))
  }

  /** Once every question of a category has been seen, that category has no
      candidate left. */
  lemma QuizExhausted(qs: seq<Question>, category: int, previous: seq<int>)
    requires category != 0
    requires forall q :: q in qs && q.category == category ==> q.id in previous
    ensures QuizCandidates(qs, category, previous) == []
  {
    SelectNone(qs, (q: Question) => q.id !in previous && (category == 0 || q.category == category));
  }

  /** With no question seen and no category given, every question is a
      candidate. */
  lemma QuizAllCandidates(qs: seq<Question>)
    ensures QuizCandidates(qs, 0, []) == qs
  {
    SelectAll(qs, (q: Question) => q.id !in [] && (0 == 0 || q.category == 0));
  }

  /** The rows left after deleting the question with id `id`. */
  function RemoveId(qs: seq<Question>, id: int): (r: seq<Question>)
    ensures forall q :: q in r <==> q in qs && q.id != id
    ensures IdsIncreasing(qs) ==> IdsIncreasing(r)
  {
    Select(qs, (q: Question) => q.id != id)
  }

  /** Deleting an id that no question has leaves the rows as they were. */
  lemma RemoveAbsent(qs: seq<Question>, id: int)
    requires !HasId(qs, id)
    ensures RemoveId(qs, id) == qs
  {
    SelectAll(qs, (q: Question) => q.id != id);
  }

  /** One step of `RemoveId` along the rows. */
  lemma RemoveIdStep(qs: seq<Question>, id: int)
    requires qs != []
    ensures RemoveId(qs, id) == (if qs[0].id != id then [qs[0]] else []) + RemoveId(qs[1..], id)
  {
    var keep := (q: Question) => q.id != id;
    assert RemoveId(qs, id) == Select(qs, keep);
    assert RemoveId(qs[1..], id) == Select(qs[1..], keep);
  }

  /** Deleting the id of the first row of a store kept in id order drops just
      that row. */
  lemma RemoveHead(qs: seq<Question>)
    requires IdsIncreasing(qs) && qs != []
    ensures RemoveId(qs, qs[0].id) == qs[1..]
  {
    var id := qs[0].id;
    RemoveIdStep(qs, id);
    assert !HasId(qs[1..], id) by {
      forall q | q in qs[1..] ensures q.id != id {
        var k :| 0 <= k < |qs[1..]| && qs[1..][k] == q;
        assert qs[k + 1] == q;
      }
    }
    RemoveAbsent(qs[1..], id);
  }

  /** Dropping index `i > 0` keeps the head in front of the tail with index
      `i - 1` dropped. */
  lemma DropAfterHead<T>(s: seq<T>, i: int)
    requires 0 < i < |s|
    ensures s[..i] + s[i + 1..] == [s[0]] + (s[1..][..i - 1] + s[1..][i..])
  {
    assert s[..i] == [s[0]] + s[1..][..i - 1];
    assert s[i + 1..] == s[1..][i..];
  }

  /** In a store kept in id order, deleting the id of the question at index `i`
      removes exactly that question and keeps the others in order. */
  lemma {:induction false} RemoveExactlyOne(qs: seq<Question>, i: int)
    requires IdsIncreasing(qs) && 0 <= i < |qs|
    ensures RemoveId(qs, qs[i].id) == qs[..i] + qs[i + 1..]
  {
    if i == 0 {
      RemoveHead(qs);
      assert qs[..0] + qs[1..] == qs[1..];
    } else {
      var id := qs[i].id;
      var tail := qs[1..];
      assert IdsIncreasing(tail);
      RemoveExactlyOne(tail, i - 1);
      assert tail[i - 1].id == id;
      RemoveIdStep(qs, id);
      assert qs[0].id != id;
      calc {
        RemoveId(qs, id);
        [qs[0]] + RemoveId(tail, id);
        [qs[0]] + (tail[..i - 1] + tail[i..]);
        { DropAfterHead(qs, i); }
        qs[..i] + qs[i + 1..];
      }
    }
  }
}
