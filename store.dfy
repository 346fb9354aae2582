/** The question store: the ordered collection of questions, the id counter
    and the two duplicate-detection indices, with the operations that insert,
    update, delete and query questions. */
module Store {
  import opened Questions
  import opened Indices
  import opened Queries

  class QuestionStore {
    var questions: seq<Question>               // storage (and display) order
    var nextId: int                            // the id the next insert returns
    var textsByYear: map<int, set<string>>     // year -> texts registered for it
    var idByText: map<string, int>             // text -> id it was registered with
    ghost var issued: set<int>                 // every id an insert has returned

    /** The store invariant: the counter is above every id handed out, and the
        indices agree with the stored questions. */
    ghost predicate Valid()
      reads this
    {
      && 1 <= nextId
      && (forall n :: n in issued ==> 1 <= n < nextId)
      && Consistent(questions, textsByYear, idByText)
    }

    constructor ()
      ensures Valid()
      ensures questions == [] && nextId == 1 && issued == {}
      ensures textsByYear == map[] && idByText == map[]
    {
      questions := [];
      nextId := 1;
      textsByYear := map[];
      idByText := map[];
      issued := {};
    }

    /** Inserts `q` unless its text is similar to a stored one, in which case
        it returns -1 and changes nothing. On success it returns the counter's
        old value, a fresh id above every id returned before, and appends `q`
        unchanged: the returned id is not written into the record. */
    method Add(q: Question) returns (id: int)
      requires Valid()
      modifies this
      ensures Valid()
      ensures id == -1 <==> old(Similar(textsByYear, idByText, q.text, q.year))
      ensures id == -1 <==> q.text in old(Texts(questions))
      ensures id == -1 ==> unchanged(this)
      ensures id != -1 ==>
                && id == old(nextId) && id >= 1
                && id !in old(issued) && (forall n :: n in old(issued) ==> n < id)
                && nextId == old(nextId) + 1 && issued == old(issued) + {id}
                && questions == old(questions) + [q]
                && textsByYear == Register(old(textsByYear), q.text, q.year)
                && idByText == old(idByText)[q.text := id]
    {
      SimilarIffStored(questions, textsByYear, idByText, q.text, q.year);
      if Similar(textsByYear, idByText, q.text, q.year) {
        return -1;
      }
      id := nextId;
      nextId := nextId + 1;
      assert questions + [] == questions && questions + [q] + [] == questions + [q];
      InsertKeepsConsistent(questions, q, [], textsByYear, idByText, id);
      textsByYear := Register(textsByYear, q.text, q.year);
      idByText := idByText[q.text := id];
      questions := questions + [q];
      issued := issued + {id};
    }

    /** Replaces the first question whose id is `id` by `q`. The old text is
        taken out of the indices first; if the new text differs from it and is
        still similar to a stored one, the old registration is put back and the
        update is refused. An id that matches no question changes nothing. */
    method Update(id: int, q: Question) returns (ok: bool)
      requires Valid()
      modifies this
      ensures Valid()
      ensures nextId == old(nextId) && issued == old(issued)
      ensures FirstIndexOf(old(questions), id).None? ==> !ok && unchanged(this)
      ensures FirstIndexOf(old(questions), id).Some? ==>
                var i := FirstIndexOf(old(questions), id).value;
                var p := old(questions)[i];
                && (ok <==> q.text == p.text || q.text !in old(Texts(questions)))
                && (!ok ==> && questions == old(questions)
                            && textsByYear == old(textsByYear)
                            && idByText.Keys == old(idByText).Keys
                            && idByText == old(idByText)[p.text := id])
                && (ok ==> && questions == old(questions)[i := q]
                           && textsByYear == Register(Unregister(old(textsByYear), p.text, p.year), q.text, q.year)
                           && idByText == (old(idByText) - {p.text})[q.text := id])
    {
      var found := FirstIndexOf(questions, id);
      if found.None? {
        return false;
      }
      var i := found.value;
      var oldText, oldYear := questions[i].text, questions[i].year;
      ReplaceSimilar(questions, i, textsByYear, idByText, q.text, q.year);
      RollbackRestores(questions, i, textsByYear, idByText, id);
      if q.text == oldText || q.text !in Texts(questions) {
        ReplaceKeepsConsistent(questions, i, q, textsByYear, idByText, id);
      }
      textsByYear := Unregister(textsByYear, oldText, oldYear);
      idByText := idByText - {oldText};
      if q.text != oldText && Similar(textsByYear, idByText, q.text, q.year) {
        textsByYear := Register(textsByYear, oldText, oldYear);
        idByText := idByText[oldText := id];
        return false;
      }
      textsByYear := Register(textsByYear, q.text, q.year);
      idByText := idByText[q.text := id];
      questions := questions[i := q];
      ok := true;
    }

    /** Removes the first question whose id is `id`, keeping the others in
        order, and frees its text: afterwards it is similar in no year. An id
        that matches no question changes nothing. */
    method Delete(id: int) returns (ok: bool)
      requires Valid()
      modifies this
      ensures Valid()
      ensures nextId == old(nextId) && issued == old(issued)
      ensures ok <==> FirstIndexOf(old(questions), id).Some?
      ensures !ok ==> unchanged(this)
      ensures ok ==>
                var i := FirstIndexOf(old(questions), id).value;
                var p := old(questions)[i];
                && questions == old(questions)[..i] + old(questions)[i + 1..]
                && textsByYear == Unregister(old(textsByYear), p.text, p.year)
                && idByText == old(idByText) - {p.text}
                && TotalMinutes(questions) == old(TotalMinutes(questions)) - p.estimatedMinutes
                && (forall y :: !Similar(textsByYear, idByText, p.text, y))
    {
      var found := FirstIndexOf(questions, id);
      if found.None? {
        return false;
      }
      var i := found.value;
      var text, year := questions[i].text, questions[i].year;
      ghost var pre, p, post := questions[..i], questions[i], questions[i + 1..];
      Splice(questions, i, p);
      RemoveKeepsConsistent(pre, p, post, textsByYear, idByText);
      RemovedTextIsFree(pre, p, post, textsByYear, idByText);
      TotalMinutesWithout(pre, p, post);
      textsByYear := Unregister(textsByYear, text, year);
      idByText := idByText - {text};
      questions := questions[..i] + questions[i + 1..];
      ok := true;
    }

    /** The first question whose id is `id`, if there is one. */
    function Get(id: int): (r: Option<Question>)
      reads this
      ensures r.None? <==> forall j :: 0 <= j < |questions| ==> questions[j].id != id
      ensures r.Some? ==> exists i :: 0 <= i < |questions| && questions[i] == r.value && r.value.id == id &&
                                      forall j :: 0 <= j < i ==> questions[j].id != id
    {
      match FirstIndexOf(questions, id)
      case None => None
      case Some(i) => Some(questions[i])
    }

    /** The questions of Bloom level `level`, in storage order. */
    method FindByLevel(level: int) returns (r: seq<Question>)
      ensures r == WithLevel(questions, level)
    {
      r := [];
      for k := 0 to |questions|
        invariant r == WithLevel(questions[..k], level)
      {
        assert questions[..k + 1][..k] == questions[..k];
        if questions[k].bloomLevel == level {
          r := r + [questions[k]];
        }
      }
      assert questions[..|questions|] == questions;
    }

    /** The questions of year `year`, in storage order. */
    method FindByYear(year: int) returns (r: seq<Question>)
      ensures r == WithYear(questions, year)
    {
      r := [];
      for k := 0 to |questions|
        invariant r == WithYear(questions[..k], year)
      {
        assert questions[..k + 1][..k] == questions[..k];
        if questions[k].year == year {
          r := r + [questions[k]];
        }
      }
      assert questions[..|questions|] == questions;
    }

    /** The sum of the estimated minutes of every stored question. */
    method TotalTime() returns (t: int)
      ensures t == TotalMinutes(questions)
    {
      t := 0;
      for k := 0 to |questions|
        invariant t == TotalMinutes(questions[..k])
      {
        assert questions[..k + 1][..k] == questions[..k];
        t := t + questions[k].estimatedMinutes;
      }
      assert questions[..|questions|] == questions;
    }

    /** Every stored question, in storage order. */
    method All() returns (r: seq<Question>)
      ensures r == questions
    {
      r := [];
      for k := 0 to |questions|
        invariant r == questions[..k]
      {
        r := r + [questions[k]];
      }
    }
  }

  /** In a consistent store, the per-year index of a positive year holds
      exactly the texts of the questions the year filter returns. */
  lemma YearIndexMatchesFilter(qs: seq<Question>, byYear: map<int, set<string>>, idByText: map<string, int>,
                               year: int)
    requires Consistent(qs, byYear, idByText)
    requires year > 0
    ensures YearTexts(byYear, year) == Texts(WithYear(qs, year))
  {
    TextsOfYearIsFiltered(qs, year);
  }

  /** The texts of one year are the texts the year filter returns. */
  lemma {:induction false} TextsOfYearIsFiltered(qs: seq<Question>, year: int)
    ensures TextsOfYear(qs, year) == Texts(WithYear(qs, year))
  {
    if qs != [] {
      var init, last := qs[..|qs| - 1], qs[|qs| - 1];
      TextsOfYearIsFiltered(init, year);
      TextsAppend(WithYear(init, year), if last.year == year then [last] else [], year);
      assert [last][..0] == [];
    }
  }

  /** A client run of the store: a question inserted in one year blocks its
      text in the same, the next and any other year, and the id the insert
      returns is not the id the stored record carries. */
  method DuplicateScenario(shape: Kind)
  {
    var s := new QuestionStore();
    var q := Question(0, "T", Apply, 5, 2020, shape);
    var first := s.Add(q);
    assert first == 1;
    var again := s.Add(q);
    assert again == -1;
    var nextYear := s.Add(q.(year := 2021));
    assert nextYear == -1;
    var yearBefore := s.Add(q.(year := 2019));
    assert yearBefore == -1;

    // The record still carries the id it was built with, and comes back whole.
    assert s.Get(first).None?;
    assert s.Get(0) == Some(q);
  }

  /** A client run of the store: an update refused as a duplicate leaves the
      year filter as it was, and deleting a question frees its text. */
  method RollbackScenario(shape: Kind)
  {
    var s := new QuestionStore();
    var a := Question(0, "A", Apply, 5, 2020, shape);
    var b := Question(7, "B", Remember, 3, 2018, TrueFalse(true));
    var first := s.Add(a);
    var second := s.Add(b);
    assert first == 1 && second == 2;
    var updated := s.Update(0, a.(text := "B"));
    assert !updated;
    var of2020 := s.FindByYear(2020);
    assert of2020 == [a];

    var removed := s.Delete(0);
    assert removed;
    var readded := s.Add(a.(year := 2021));
    assert readded == 3;
  }
}
