/** The question records of the quiz authoring tool: the fields every question
    carries and the payload of each of the three question shapes. */
module Questions {

  /** Bloom's taxonomy levels, stored in the records as plain integers. */
  const Remember: int := 1
  const Understand: int := 2
  const Apply: int := 3
  const Analyze: int := 4
  const Evaluate: int := 5
  const Create: int := 6

  /** The payload that distinguishes the three question shapes. */
  datatype Kind =
    | MultipleChoice(options: seq<string>, correctOption: int)
    | TrueFalse(correctAnswer: bool)
    | Matching(leftItems: seq<string>, rightItems: seq<string>, correctMatches: seq<int>)

  /** One question: the common fields and its shape. `id` is whatever the
      record was built with; the store never rewrites it. A `year` of 0 means
      that no year is associated with the question. */
  datatype Question = Question(
    id: int,
    text: string,
    bloomLevel: int,
    estimatedMinutes: int,
    year: int,
    kind: Kind)

  /** The display name of a Bloom level; any integer outside 1..6 is "Desconocido". */
  function BloomLevelName(level: int): (name: string)
    ensures name == "Desconocido" <==> !(Remember <= level <= Create)
  {
    if level == Remember then "Recordar"
    else if level == Understand then "Comprender"
    else if level == Apply then "Aplicar"
    else if level == Analyze then "Analizar"
    else if level == Evaluate then "Evaluar"
    else if level == Create then "Crear"
    else "Desconocido"
  }

  /** The six levels have six different names. */
  lemma BloomLevelNamesDistinct(a: int, b: int)
    requires Remember <= a <= Create && Remember <= b <= Create
    ensures BloomLevelName(a) == BloomLevelName(b) <==> a == b
  {
  }

  /** The type tag of a question, as the console shows it and dispatches on.
      Each shape has its own tag, and none is the base record's "Base". */
  function TypeName(k: Kind): (name: string)
    ensures name == "Opción Múltiple" <==> k.MultipleChoice?
    ensures name == "Verdadero/Falso" <==> k.TrueFalse?
    ensures name == "Emparejamiento" <==> k.Matching?
    ensures name != "Base"
  {
    match k
    case MultipleChoice(_, _) => "Opción Múltiple"
    case TrueFalse(_) => "Verdadero/Falso"
    case Matching(_, _, _) => "Emparejamiento"
  }

  /** The tag identifies the shape: two payloads have the same tag exactly
      when they are of the same shape. */
  lemma TypeNameIdentifiesKind(a: Kind, b: Kind)
    ensures TypeName(a) == TypeName(b) <==>
      (a.MultipleChoice? && b.MultipleChoice?) || (a.TrueFalse? && b.TrueFalse?) ||
      (a.Matching? && b.Matching?)
  {
  }
}
