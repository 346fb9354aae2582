# Question store of a Bloom's-taxonomy quiz authoring tool

This project models the in-memory core of a console tool for writing quiz
questions classified by Bloom's taxonomy level. The model has two parts.

The **question records** (`Pregunta` and its subclasses for multiple choice,
true/false and matching) become the datatype `Questions.Question`. It holds the
common fields id, text, Bloom level, estimated minutes and year. Its `Kind`
holds each shape's payload. The virtual `getTipo` of the three subclasses
becomes `Questions.TypeName` over the constructor tag, and
`getNombreNivelBloom` becomes `Questions.BloomLevelName`.

The **store** (`GestorPreguntas`) becomes the class `Store.QuestionStore`. Its
fields are the same four pieces of state as in the source, plus a ghost set
`issued` of every id an insert has returned, which the invariant and the
freshness promise of `Add` speak about:
- the ordered sequence of questions;
- the id counter, which starts at 1;
- the per-year index, mapping a year to a set of texts;
- the text index, mapping a text to an id.

`Add`, `Update` and `Delete` change these fields in place, as the source
does. `Get` is a function over `Queries.FirstIndexOf`; the filter, total and
listing methods are loops proved against the specification functions in
`Queries`. The duplicate rule and the invariant that ties the two indices to
the stored questions are pure functions and lemmas in `Indices`.

The invariant (`Indices.Consistent`, part of `QuestionStore.Valid`) says three
things:
- the keys of the text index are exactly the stored texts;
- every positive year's set is exactly the set of texts of the stored
  questions of that year;
- stored texts are pairwise distinct.

Under the invariant, the three-part duplicate rule reduces to "the text is
already stored", in any year (`SimilarIffStored`).

Points where the code does something a reader might not expect; the model
follows the code:
- **The returned id is never written into the record.** `agregarPregunta`
  returns the counter value, but the record keeps the id it was built with,
  and the console builds every record with id 0 (main.cpp:559, 567, 600).
  `Add` appends `q` unchanged. `DuplicateScenario` shows that `Get` of the
  returned id finds nothing, while `Get(0)` finds the record. Stored ids need
  not be unique, and lookups return the first match.
- **`Update` stores the replacement record exactly as passed.** It does not
  force the record's id to the looked-up id.
- **The text index holds counter ids.** Its values are the counter value at
  insert time, or the looked-up id after an update. They are never read, and
  only the keys take part in duplicate detection.
- **Two failures look the same.** An update refused as a duplicate and an
  update of a missing id both return `false`.
- **Indices in the payloads are not checked.** The store accepts any
  `correctOption` and any `correctMatches` values.

## Model

| member | source | states |
|---|---|---|
| `Questions.BloomLevelName` | main.cpp:69-86 | the name is "Desconocido" exactly when the level is outside 1..6 |
| `Questions.BloomLevelNamesDistinct` | main.cpp:69-86 | the six levels have six different names |
| `Questions.TypeName` | main.cpp:115 | the tag is "Opción Múltiple", "Verdadero/Falso" or "Emparejamiento" (also main.cpp:147, 204) exactly for the multiple-choice, true/false and matching shape respectively, and never the base record's "Base" |
| `Questions.TypeNameIdentifiesKind` | main.cpp:115 | the type tags (also main.cpp:147, 204) are equal exactly when the two questions have the same shape |
| `Indices.Register` | main.cpp:278-280 | registering adds the text to the set of its year and leaves every other year alone; a year of 0 or less is never registered |
| `Indices.Unregister` | main.cpp:343-345 | unregistering takes the text out of the set of its year and leaves every other year alone; a year of 0 or less is untouched |
| `Indices.RegisterUndoesUnregister` | main.cpp:299-315 | re-registering a text right after taking it out restores the per-year index exactly, when the text was registered |
| `Indices.UnregisterUndoesRegister` | main.cpp:343-345 | taking out a text just registered restores which texts every year holds, when it was not registered before |
| `Indices.Similar` | main.cpp:239-260 | the duplicate rule is the disjunction of three tests: registered under the same positive year, under the preceding year when the year is above 1, or present in the text index; a text in the text index is always similar, a year of 0 or less consults only the text index, and year 1 has no preceding year |
| `Indices.SimilarIffStored` | main.cpp:239-260 | under the invariant, the same-year, previous-year and global-text rules together hold exactly when the text is the text of a stored question |
| `Indices.DistinctAfterInsert` | main.cpp:269-283 | inserting a question whose text is not stored keeps stored texts pairwise distinct |
| `Indices.DistinctAfterRemove` | main.cpp:340-349 | removing a question keeps texts distinct, and its text is then stored nowhere |
| `Indices.InsertKeepsConsistent` | main.cpp:274-283 | appending a question whose text is not stored, and registering it in both indices, keeps the invariant |
| `Indices.RemoveKeepsConsistent` | main.cpp:340-349 | removing a stored question, and taking its text out of both indices, keeps the invariant |
| `Indices.RemovedTextIsFree` | main.cpp:343-346 | after a delete, the removed text is similar in no year, so inserting it again succeeds |
| `Indices.ReplaceSimilar` | main.cpp:299-310 | with the old text taken out of the indices, a new text is similar exactly when it is a different stored text |
| `Indices.ReplaceKeepsConsistent` | main.cpp:319-326 | replacing a question in place by one with its own text or a text not stored, and re-registering, keeps the invariant |
| `Indices.RollbackRestores` | main.cpp:309-317 | the rollback after a refused update restores the per-year index exactly and the keys of the text index, so the invariant holds again |
| `Queries.FirstIndexOf` | main.cpp:356-365 | the result is the first position whose id matches, or none exactly when no stored question has that id |
| `Queries.WithLevel` | main.cpp:368-376 | the result holds exactly the questions of that Bloom level, and is no longer than the input |
| `Queries.WithYear` | main.cpp:379-387 | the result holds exactly the questions of that year (year 0 literally), and is no longer than the input |
| `Queries.TotalMinutes` | main.cpp:390-396 | the total is non-negative when every estimate is |
| `Queries.WithLevelAppend` | main.cpp:370-374 | the level filter distributes over concatenation, so it keeps storage order |
| `Queries.WithYearAppend` | main.cpp:381-385 | the year filter distributes over concatenation, so it keeps storage order |
| `Queries.TotalMinutesAppend` | main.cpp:392-394 | the total of a concatenation is the sum of the totals |
| `Queries.TotalMinutesWithout` | main.cpp:349 | removing one question takes exactly its minutes out of the total |
| `Store.QuestionStore.constructor` | main.cpp:230-236 | the store starts empty, with the counter at 1 and both indices empty |
| `Store.QuestionStore.Add` | main.cpp:264-285 | a similar text gives -1 and no change; otherwise the old counter is returned and the counter goes up by one; the id is fresh and above every id returned before; `q` is appended unchanged and registered in both indices; the invariant is kept |
| `Store.QuestionStore.Update` | main.cpp:288-330 | a missing id gives false and no change; otherwise success means the new text equals the old one or is not stored; a refusal leaves the sequence and the per-year index unchanged and keeps the keys of the text index; a success replaces only the first match, in place, and re-registers the texts; the invariant is kept |
| `Store.QuestionStore.Delete` | main.cpp:333-353 | a missing id gives false and no change; otherwise the first match is removed and the rest keep their order; its text leaves both indices and is similar in no year afterwards; the total drops by its minutes; the invariant is kept |
| `Store.QuestionStore.Get` | main.cpp:356-365 | none exactly when no stored question has the id; otherwise the first question with that id |
| `Store.QuestionStore.FindByLevel` | main.cpp:368-376 | the loop returns exactly `WithLevel` of the stored questions |
| `Store.QuestionStore.FindByYear` | main.cpp:379-387 | the loop returns exactly `WithYear` of the stored questions |
| `Store.QuestionStore.TotalTime` | main.cpp:390-396 | the loop returns exactly `TotalMinutes` of the stored questions |
| `Store.QuestionStore.All` | main.cpp:399-405 | the loop returns the stored sequence, in order |
| `Store.YearIndexMatchesFilter` | main.cpp:379-387 | in a consistent store, a positive year's index set equals the set of texts that the year filter returns |
| `Store.TextsOfYearIsFiltered` | main.cpp:381-385 | the texts of a year are the texts of the year filter's result |

## Left out

- The console front end (`InterfazUsuario`, main.cpp:409-971) is not part of this model. That covers menus, screen clearing, and the input read-and-validate loops. It is console I/O.
- The `mostrar()` overrides and the hours-and-minutes rendering of the total time print to the console and are not modelled.
- Getters and setters of the records are datatype fields and datatype update expressions (`q.(text := t)`), not separate members.
- `setAnio(anio)` inside `agregarPregunta` writes back the value the record already holds, so it is not modelled.
- In the source, `getPregunta` returns a pointer that the console uses to edit the stored record in place, bypassing the indices. `Get` returns a value instead, and the stored sequence changes only through `Add`, `Update` and `Delete`.
- A bare `Pregunta` (tag "Base", main.cpp:55) is not a shape of `Kind`. Only the console dispatches on the tag, and it never builds a bare `Pregunta`.
- The `dynamic_cast` rebuild of the record before an update is a plain value copy with a datatype.
- The store does not check that `correctOption` and `correctMatches` are in range, so the model states no such well-formedness. Only the console's input ranges restrict them.
- `int` overflow of the id counter and of the total time is not modelled; integers are unbounded.
- `Queries.TotalMinutes`: its contract states only non-negativity; what the total is comes from `TotalMinutesAppend` and `TotalMinutesWithout`.
- Ownership (`std::unique_ptr`), destruction of removed records, and pointer identity of query results are not modelled. Query results are sequences of question values.
