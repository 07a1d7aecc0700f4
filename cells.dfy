/** Cells of a well-log curve or a core-measurement table, and the one comparison
    the sentinel normaliser makes on them. */
module Cells {

  /** One cell of a numeric array or of a table column.
      Num   — a measurement (integer and floating-point samples alike, compared exactly);
      Text  — a string a spreadsheet reader left in an object-typed column ('-', '0.66');
      Missing — the not-a-number marker that stands for an absent measurement. */
  datatype Cell = Num(x: real) | Text(s: string) | Missing

  /** The conventional well-log null, -999.25: the default sentinel of both helpers. */
  const NullValue: Cell := Num(-999.25)

  /** Element-wise `cell == value` as the array library evaluates it: exact equality,
      a number never equals a string, and not-a-number equals nothing, not even itself
      (so a Missing sentinel matches no cell). */
  predicate Matches(c: Cell, value: Cell)
  {
    match (c, value)
    case (Num(a), Num(b)) => a == b
    case (Text(a), Text(b)) => a == b
    case _ => false
  }

  /** The replacement rule for one cell: Missing where the cell equals the sentinel,
      the cell itself everywhere else. */
  function Normalize(c: Cell, value: Cell): (r: Cell)
    ensures Matches(c, value) ==> r == Missing
    ensures !Matches(c, value) ==> r == c
    ensures !Matches(r, value)
    ensures r.Missing? <==> c.Missing? || Matches(c, value)
  {
    if Matches(c, value) then Missing else c
  }

  /** Matching is structural equality on everything but the missing marker. */
  lemma MatchesIsEquality(c: Cell, value: Cell)
    ensures Matches(c, value) <==> !c.Missing? && c == value
  {
  }

  /** A text sentinel never touches a number, and a numeric sentinel never touches text. */
  lemma SentinelKindIsRespected(c: Cell, value: Cell)
    ensures c.Num? && value.Text? ==> Normalize(c, value) == c
    ensures c.Text? && value.Num? ==> Normalize(c, value) == c
  {
  }
}
