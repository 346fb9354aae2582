/** What the question store's lookups and reports compute, as functions of the
    stored sequence: the first question with a given id, the order-preserving
    filters by Bloom level and by year, and the total estimated time. */
module Queries {
  import opened Questions

  datatype Option<T> = None | Some(value: T)

  /** The position of the first question whose id is `id`, if any. */
  function FirstIndexOf(qs: seq<Question>, id: int): (r: Option<nat>)
    ensures r.None? <==> forall j :: 0 <= j < |qs| ==> qs[j].id != id
    ensures r.Some? ==> r.value < |qs| && qs[r.value].id == id
    ensures r.Some? ==> forall j :: 0 <= j < r.value ==> qs[j].id != id
  {
    if qs == [] then None
    else if qs[0].id == id then Some(0)
    else match FirstIndexOf(qs[1..], id)
      case None => None
      case Some(k) => Some(k + 1)
  }

  /** The questions of Bloom level `level`, in storage order. */
  function WithLevel(qs: seq<Question>, level: int): (r: seq<Question>)
    ensures forall q :: q in r <==> q in qs && q.bloomLevel == level
    ensures |r| <= |qs|
  {
    if qs == [] then []
    else
      var last := qs[|qs| - 1];
      assert qs == qs[..|qs| - 1] + [last];
      WithLevel(qs[..|qs| - 1], level) + (if last.bloomLevel == level then [last] else [])
  }

  /** The questions of year `year`, in storage order; year 0 selects the
      questions stored without a year, it is no wildcard. */
  function WithYear(qs: seq<Question>, year: int): (r: seq<Question>)
    ensures forall q :: q in r <==> q in qs && q.year == year
    ensures |r| <= |qs|
  {
    if qs == [] then []
    else
      var last := qs[|qs| - 1];
      assert qs == qs[..|qs| - 1] + [last];
      WithYear(qs[..|qs| - 1], year) + (if last.year == year then [last] else [])
  }

  /** The sum of the estimated minutes of the questions. */
  function TotalMinutes(qs: seq<Question>): (t: int)
    ensures (forall q :: q in qs ==> q.estimatedMinutes >= 0) ==> t >= 0
  {
    if qs == [] then 0
    else
      assert qs == qs[..|qs| - 1] + [qs[|qs| - 1]];
      TotalMinutes(qs[..|qs| - 1]) + qs[|qs| - 1].estimatedMinutes
  }

  /** Filtering by level distributes over concatenation: the filter keeps
      storage order. */
  lemma {:induction false} WithLevelAppend(a: seq<Question>, b: seq<Question>, level: int)
    ensures WithLevel(a + b, level) == WithLevel(a, level) + WithLevel(b, level)
  {
    if b != [] {
      assert (a + b)[..|a + b| - 1] == a + b[..|b| - 1];
      WithLevelAppend(a, b[..|b| - 1], level);
    } else {
      assert a + b == a;
    }
  }

  /** Filtering by year distributes over concatenation: the filter keeps
      storage order. */
  lemma {:induction false} WithYearAppend(a: seq<Question>, b: seq<Question>, year: int)
    ensures WithYear(a + b, year) == WithYear(a, year) + WithYear(b, year)
  {
    if b != [] {
      assert (a + b)[..|a + b| - 1] == a + b[..|b| - 1];
      WithYearAppend(a, b[..|b| - 1], year);
    } else {
      assert a + b == a;
    }
  }

  /** The total of a concatenation is the sum of the totals. */
  lemma {:induction false} TotalMinutesAppend(a: seq<Question>, b: seq<Question>)
    ensures TotalMinutes(a + b) == TotalMinutes(a) + TotalMinutes(b)
  {
    if b != [] {
      assert (a + b)[..|a + b| - 1] == a + b[..|b| - 1];
      TotalMinutesAppend(a, b[..|b| - 1]);
    } else {
      assert a + b == a;
    }
  }

  /** Taking one question out of the sequence takes exactly its minutes out
      of the total. */
  lemma TotalMinutesWithout(pre: seq<Question>, p: Question, post: seq<Question>)
    ensures TotalMinutes(pre + [p] + post) == TotalMinutes(pre + post) + p.estimatedMinutes
  {
    TotalMinutesAppend(pre + [p], post);
    TotalMinutesAppend(pre, [p]);
    TotalMinutesAppend(pre, post);
    assert TotalMinutes([p]) == TotalMinutes([]) + p.estimatedMinutes;
  }
}
