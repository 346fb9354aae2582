/** The two secondary indices the question store keeps for duplicate
    detection, the similarity rule that reads them, and the invariant that ties
    them to the stored questions. */
module Indices {
  import opened Questions

  /** The texts registered under year `y` in the per-year index. A year with no
      entry registers none, as a lookup that finds no key does. */
  function YearTexts(byYear: map<int, set<string>>, y: int): set<string>
  {
    if y in byYear then byYear[y] else {}
  }

  /** Registers `text` under `year` in the per-year index; years of 0 or less
      are never registered. */
  function Register(byYear: map<int, set<string>>, text: string, year: int): (m: map<int, set<string>>)
    ensures forall y :: YearTexts(m, y) ==
                        if year > 0 && y == year then YearTexts(byYear, y) + {text} else YearTexts(byYear, y)
  {
    if year > 0 then byYear[year := YearTexts(byYear, year) + {text}] else byYear
  }

  /** Takes `text` out of the set of `year`. Like the map's subscript operator
      it leaves an entry for `year` behind, possibly an empty one. */
  function Unregister(byYear: map<int, set<string>>, text: string, year: int): (m: map<int, set<string>>)
    ensures forall y :: YearTexts(m, y) ==
                        if year > 0 && y == year then YearTexts(byYear, y) - {text} else YearTexts(byYear, y)
  {
    if year > 0 then byYear[year := YearTexts(byYear, year) - {text}] else byYear
  }

  /** Registering a text that was just unregistered restores the index
      exactly, when the text was registered to begin with. */
  lemma RegisterUndoesUnregister(byYear: map<int, set<string>>, text: string, year: int)
    requires year > 0 ==> text in YearTexts(byYear, year)
    ensures Register(Unregister(byYear, text, year), text, year) == byYear
  {
    if year > 0 {
      var m := Register(Unregister(byYear, text, year), text, year);
      assert m.Keys == byYear.Keys;
      assert m[year] == byYear[year];
    }
  }

  /** Unregistering a text that was just registered restores which texts
      every year holds, when the text was not registered before; the map may
      keep an empty entry for the year. */
  lemma UnregisterUndoesRegister(byYear: map<int, set<string>>, text: string, year: int)
    requires year > 0 ==> text !in YearTexts(byYear, year)
    ensures forall y :: YearTexts(Unregister(Register(byYear, text, year), text, year), y) == YearTexts(byYear, y)
  {
  }

  /** The duplicate rule: a text is similar when it is registered under the
      same year, under the preceding year, or anywhere in the text index. */
  predicate Similar(byYear: map<int, set<string>>, idByText: map<string, int>, text: string, year: int)
    // a text in the text index is similar whatever its year
    ensures text in idByText ==> Similar(byYear, idByText, text, year)
    // without a year, only the text index is consulted
    ensures year <= 0 ==> (Similar(byYear, idByText, text, year) <==> text in idByText)
    // year 1 has no preceding year to consult
    ensures year == 1 ==>
              (Similar(byYear, idByText, text, year) <==> text in YearTexts(byYear, 1) || text in idByText)
  {
    || (year > 0 && text in YearTexts(byYear, year))
    || (year > 1 && text in YearTexts(byYear, year - 1))
    || text in idByText
  }

  /** The texts of a sequence of questions. */
  function Texts(qs: seq<Question>): set<string>
  {
    if qs == [] then {} else Texts(qs[..|qs| - 1]) + {qs[|qs| - 1].text}
  }

  /** The texts of the questions of year `y`. */
  function TextsOfYear(qs: seq<Question>, y: int): set<string>
  {
    if qs == [] then {}
    else TextsOfYear(qs[..|qs| - 1], y) + (if qs[|qs| - 1].year == y then {qs[|qs| - 1].text} else {})
  }

  /** The text of the question at position `i`. */
  function TextAt(qs: seq<Question>, i: int): string
    requires 0 <= i < |qs|
  {
    qs[i].text
  }

  /** No two positions hold questions with the same text. */
  predicate DistinctTexts(qs: seq<Question>)
  {
    forall i, j :: 0 <= i < |qs| && 0 <= j < |qs| && i != j ==> TextAt(qs, i) != TextAt(qs, j)
  }

  /** The texts of a concatenation are the texts of its parts, year by year too. */
  lemma {:induction false} TextsAppend(a: seq<Question>, b: seq<Question>, y: int)
    ensures Texts(a + b) == Texts(a) + Texts(b)
    ensures TextsOfYear(a + b, y) == TextsOfYear(a, y) + TextsOfYear(b, y)
  {
    if b == [] {
      assert a + b == a;
    } else {
      assert (a + b)[..|a + b| - 1] == a + b[..|b| - 1];
      TextsAppend(a, b[..|b| - 1], y);
    }
  }

  /** A text is among the texts of a sequence exactly when some position holds it. */
  lemma {:induction false} TextsMember(qs: seq<Question>, t: string)
    ensures t in Texts(qs) <==> exists k :: 0 <= k < |qs| && TextAt(qs, k) == t
  {
    if qs != [] {
      var init := qs[..|qs| - 1];
      TextsMember(init, t);
      if t in Texts(init) {
        var k :| 0 <= k < |init| && TextAt(init, k) == t;
        assert TextAt(qs, k) == t;
      }
      if exists k :: 0 <= k < |qs| && TextAt(qs, k) == t {
        var k :| 0 <= k < |qs| && TextAt(qs, k) == t;
        if k < |init| {
          assert TextAt(init, k) == t;
        }
      }
      if t == qs[|qs| - 1].text {
        assert TextAt(qs, |qs| - 1) == t;
      }
    }
  }

  /** The texts of one year are among all the texts. */
  lemma {:induction false} TextsOfYearWithin(qs: seq<Question>, y: int)
    ensures TextsOfYear(qs, y) <= Texts(qs)
  {
    if qs != [] {
      TextsOfYearWithin(qs[..|qs| - 1], y);
    }
  }

  /** The texts of a sequence with `q` inserted are those without it plus the
      text of `q`, year by year too. */
  lemma TextsSplit(pre: seq<Question>, q: Question, post: seq<Question>, y: int)
    ensures Texts(pre + [q] + post) == Texts(pre + post) + {q.text}
    ensures TextsOfYear(pre + [q] + post, y) == TextsOfYear(pre + post, y) + (if q.year == y then {q.text} else {})
  {
    TextsAppend(pre + [q], post, y);
    TextsAppend(pre, [q], y);
    TextsAppend(pre, post, y);
    assert [q][..0] == [];
  }

  /** The store invariant: the text index holds exactly the stored texts, each
      positive year holds exactly the texts of the stored questions of that
      year, and stored texts are pairwise distinct. */
  ghost predicate Consistent(qs: seq<Question>, byYear: map<int, set<string>>, idByText: map<string, int>)
  {
    && DistinctTexts(qs)
    && idByText.Keys == Texts(qs)
    && forall y :: y > 0 ==> YearTexts(byYear, y) == TextsOfYear(qs, y)
  }

  /** Under the invariant, the three-part duplicate rule comes down to "the
      text is the text of a stored question", whatever the year. */
  lemma SimilarIffStored(qs: seq<Question>, byYear: map<int, set<string>>, idByText: map<string, int>,
                         text: string, year: int)
    requires Consistent(qs, byYear, idByText)
    ensures Similar(byYear, idByText, text, year) <==> text in Texts(qs)
  {
    TextsOfYearWithin(qs, year);
    TextsOfYearWithin(qs, year - 1);
  }

  /** Inserting a question whose text is not among the texts of a sequence
      with distinct texts, at any position, keeps the texts distinct. */
  lemma DistinctAfterInsert(pre: seq<Question>, q: Question, post: seq<Question>)
    requires DistinctTexts(pre + post)
    requires q.text !in Texts(pre + post)
    ensures DistinctTexts(pre + [q] + post)
  {
    var rest, qs := pre + post, pre + [q] + post;
    forall i, j | 0 <= i < |qs| && 0 <= j < |qs| && i != j
      ensures TextAt(qs, i) != TextAt(qs, j)
    {
      var i', j' := if i < |pre| then i else i - 1, if j < |pre| then j else j - 1;
      if i == |pre| {
        assert qs[j] == rest[j'];
        TextsMember(rest, TextAt(rest, j'));
      } else if j == |pre| {
        assert qs[i] == rest[i'];
        TextsMember(rest, TextAt(rest, i'));
      } else {
        assert qs[i] == rest[i'] && qs[j] == rest[j'];
        assert TextAt(rest, i') != TextAt(rest, j');
      }
    }
  }

  /** Removing any question from a sequence with distinct texts keeps the
      texts distinct, and the removed text is then no longer among them. */
  lemma DistinctAfterRemove(pre: seq<Question>, p: Question, post: seq<Question>)
    requires DistinctTexts(pre + [p] + post)
    ensures DistinctTexts(pre + post)
    ensures p.text !in Texts(pre + post)
  {
    var rest, qs := pre + post, pre + [p] + post;
    forall k | 0 <= k < |rest|
      ensures TextAt(rest, k) != p.text
    {
      var k' := if k < |pre| then k else k + 1;
      assert rest[k] == qs[k'] && p == qs[|pre|];
      assert TextAt(qs, k') != TextAt(qs, |pre|);
    }
    TextsMember(rest, p.text);
    forall i, j | 0 <= i < |rest| && 0 <= j < |rest| && i != j
      ensures TextAt(rest, i) != TextAt(rest, j)
    {
      var i', j' := if i < |pre| then i else i + 1, if j < |pre| then j else j + 1;
      assert rest[i] == qs[i'] && rest[j] == qs[j'];
      assert TextAt(qs, i') != TextAt(qs, j');
    }
  }

  /** Inserting a question whose text is not stored yet, anywhere in the
      sequence, keeps the invariant once its text is registered in both indices. */
  lemma InsertKeepsConsistent(pre: seq<Question>, q: Question, post: seq<Question>,
                              byYear: map<int, set<string>>, idByText: map<string, int>, n: int)
    requires Consistent(pre + post, byYear, idByText)
    requires q.text !in Texts(pre + post)
    ensures Consistent(pre + [q] + post, Register(byYear, q.text, q.year), idByText[q.text := n])
  {
    var qs := pre + [q] + post;
    DistinctAfterInsert(pre, q, post);
    TextsSplit(pre, q, post, 0);
    forall y | y > 0
      ensures YearTexts(Register(byYear, q.text, q.year), y) == TextsOfYear(qs, y)
    {
      TextsSplit(pre, q, post, y);
    }
  }

  /** Removing a stored question keeps the invariant once its text leaves
      both indices; afterwards its text is stored nowhere. */
  lemma RemoveKeepsConsistent(pre: seq<Question>, p: Question, post: seq<Question>,
                              byYear: map<int, set<string>>, idByText: map<string, int>)
    requires Consistent(pre + [p] + post, byYear, idByText)
    ensures p.text !in Texts(pre + post)
    ensures Consistent(pre + post, Unregister(byYear, p.text, p.year), idByText - {p.text})
  {
    var rest := pre + post;
    DistinctAfterRemove(pre, p, post);
    TextsSplit(pre, p, post, 0);
    forall y | y > 0
      ensures YearTexts(Unregister(byYear, p.text, p.year), y) == TextsOfYear(rest, y)
    {
      TextsSplit(pre, p, post, y);
      TextsOfYearWithin(rest, y);
    }
  }

  /** Once a stored question is removed and its text leaves both indices,
      that text is similar in no year: inserting it again succeeds. */
  lemma RemovedTextIsFree(pre: seq<Question>, p: Question, post: seq<Question>,
                          byYear: map<int, set<string>>, idByText: map<string, int>)
    requires Consistent(pre + [p] + post, byYear, idByText)
    ensures forall y :: !Similar(Unregister(byYear, p.text, p.year), idByText - {p.text}, p.text, y)
  {
    RemoveKeepsConsistent(pre, p, post, byYear, idByText);
    forall y
      ensures !Similar(Unregister(byYear, p.text, p.year), idByText - {p.text}, p.text, y)
    {
      SimilarIffStored(pre + post, Unregister(byYear, p.text, p.year), idByText - {p.text}, p.text, y);
    }
  }

  /** A sequence is its prefix, the element at `i` and its suffix; updating
      position `i` swaps that element only. */
  lemma Splice(qs: seq<Question>, i: int, q: Question)
    requires 0 <= i < |qs|
    ensures qs == qs[..i] + [qs[i]] + qs[i + 1..]
    ensures qs[i := q] == qs[..i] + [q] + qs[i + 1..]
  {
  }

  /** With the text of the question at position `i` taken out of both
      indices, a new text is similar exactly when it is a different stored text. */
  lemma ReplaceSimilar(qs: seq<Question>, i: int, byYear: map<int, set<string>>, idByText: map<string, int>,
                       text: string, year: int)
    requires Consistent(qs, byYear, idByText)
    requires 0 <= i < |qs|
    ensures Similar(Unregister(byYear, qs[i].text, qs[i].year), idByText - {qs[i].text}, text, year)
            <==> text != qs[i].text && text in Texts(qs)
  {
    var pre, p, post := qs[..i], qs[i], qs[i + 1..];
    Splice(qs, i, p);
    RemoveKeepsConsistent(pre, p, post, byYear, idByText);
    SimilarIffStored(pre + post, Unregister(byYear, p.text, p.year), idByText - {p.text}, text, year);
    TextsSplit(pre, p, post, 0);
  }

  /** Replacing the question at position `i` by one whose text is its own or
      not stored at all keeps the invariant, once the old text is taken out of
      both indices and the new one registered. */
  lemma ReplaceKeepsConsistent(qs: seq<Question>, i: int, q: Question,
                               byYear: map<int, set<string>>, idByText: map<string, int>, n: int)
    requires Consistent(qs, byYear, idByText)
    requires 0 <= i < |qs|
    requires q.text == qs[i].text || q.text !in Texts(qs)
    ensures Consistent(qs[i := q],
                       Register(Unregister(byYear, qs[i].text, qs[i].year), q.text, q.year),
                       (idByText - {qs[i].text})[q.text := n])
  {
    var pre, p, post := qs[..i], qs[i], qs[i + 1..];
    Splice(qs, i, p);
    RemoveKeepsConsistent(pre, p, post, byYear, idByText);
    TextsSplit(pre, p, post, 0);
    InsertKeepsConsistent(pre, q, post, Unregister(byYear, p.text, p.year), idByText - {p.text}, n);
    Splice(qs, i, q);
  }

  /** Putting back the registration of the question at position `i` right
      after taking it out restores the per-year index exactly and the keys of
      the text index, so the invariant holds again. */
  lemma RollbackRestores(qs: seq<Question>, i: int, byYear: map<int, set<string>>, idByText: map<string, int>,
                         n: int)
    requires Consistent(qs, byYear, idByText)
    requires 0 <= i < |qs|
    ensures Register(Unregister(byYear, qs[i].text, qs[i].year), qs[i].text, qs[i].year) == byYear
    ensures (idByText - {qs[i].text})[qs[i].text := n].Keys == idByText.Keys
    ensures Consistent(qs, byYear, (idByText - {qs[i].text})[qs[i].text := n])
  {
    var pre, p, post := qs[..i], qs[i], qs[i + 1..];
    Splice(qs, i, p);
    TextsSplit(pre, p, post, p.year);
    RegisterUndoesUnregister(byYear, p.text, p.year);
  }
}
