/** The pure sentinel normaliser, convert_value_to_nan: it builds a new array in which
    every cell equal to the sentinel is the missing marker and every other cell is the
    input's, and it leaves its argument as it was (values here cannot be mutated). */
module DataUtils {
  import opened Cells

  /** One-dimensional conversion (an array of samples of one curve). */
  function ConvertValueToNan(arr: seq<Cell>, value: Cell := NullValue): (r: seq<Cell>)
    ensures |r| == |arr|
    ensures forall i :: 0 <= i < |arr| && Matches(arr[i], value) ==> r[i] == Missing
    ensures forall i :: 0 <= i < |arr| && !Matches(arr[i], value) ==> r[i] == arr[i]
    ensures forall i :: 0 <= i < |r| ==> !Matches(r[i], value)
  {
    if arr == [] then []
    else [Normalize(arr[0], value)] + ConvertValueToNan(arr[1..], value)
  }

  /** Two-dimensional conversion (a table given as its rows): the same rule, cell by cell. */
  function ConvertValueToNan2D(arr: seq<seq<Cell>>, value: Cell := NullValue): (r: seq<seq<Cell>>)
    ensures |r| == |arr|
    ensures forall i :: 0 <= i < |arr| ==> |r[i]| == |arr[i]|
    ensures forall i, j :: 0 <= i < |arr| && 0 <= j < |arr[i]| && Matches(arr[i][j], value) ==> r[i][j] == Missing
    ensures forall i, j :: 0 <= i < |arr| && 0 <= j < |arr[i]| && !Matches(arr[i][j], value) ==> r[i][j] == arr[i][j]
  {
    if arr == [] then []
    else [ConvertValueToNan(arr[0], value)] + ConvertValueToNan2D(arr[1..], value)
  }

  /** Every row has the same length: the shape of a two-dimensional array. */
  predicate Rectangular(arr: seq<seq<Cell>>, columns: nat)
  {
    forall i :: 0 <= i < |arr| ==> |arr[i]| == columns
  }

  /** Reference definition of a single pass that blanks every cell equal to any one of
      several sentinels. */
  function ConvertValuesToNan(arr: seq<Cell>, values: set<Cell>): (r: seq<Cell>)
    ensures |r| == |arr|
    ensures forall i, v :: 0 <= i < |arr| && v in values && Matches(arr[i], v) ==> r[i] == Missing
    ensures forall i :: 0 <= i < |arr| && (forall v :: v in values ==> !Matches(arr[i], v)) ==> r[i] == arr[i]
    ensures forall i, v :: 0 <= i < |r| && v in values ==> !Matches(r[i], v)
  {
    seq(|arr|, i requires 0 <= i < |arr| =>
      if !arr[i].Missing? && arr[i] in values then Missing else arr[i])
  }

  /** The same single pass over a table. */
  function ConvertValuesToNan2D(arr: seq<seq<Cell>>, values: set<Cell>): (r: seq<seq<Cell>>)
    ensures |r| == |arr|
    ensures forall i :: 0 <= i < |arr| ==> |r[i]| == |arr[i]|
    ensures forall i, j, v :: 0 <= i < |arr| && 0 <= j < |arr[i]| && v in values && Matches(arr[i][j], v) ==>
      r[i][j] == Missing
    ensures forall i, j :: 0 <= i < |arr| && 0 <= j < |arr[i]| && (forall v :: v in values ==> !Matches(arr[i][j], v)) ==>
      r[i][j] == arr[i][j]
  {
    seq(|arr|, i requires 0 <= i < |arr| => ConvertValuesToNan(arr[i], values))
  }

  /** A conversion keeps the shape of a table: same row count, same row lengths. */
  lemma ShapeIsPreserved(arr: seq<seq<Cell>>, columns: nat, value: Cell)
    requires Rectangular(arr, columns)
    ensures Rectangular(ConvertValueToNan2D(arr, value), columns)
    ensures |ConvertValueToNan2D(arr, value)| == |arr|
  {
  }

  /** Row i of the converted table is the conversion of row i. */
  lemma {:induction false} RowsConvertIndependently(arr: seq<seq<Cell>>, value: Cell, i: nat)
    requires i < |arr|
    ensures ConvertValueToNan2D(arr, value)[i] == ConvertValueToNan(arr[i], value)
  {
    if i > 0 {
      RowsConvertIndependently(arr[1..], value, i - 1);
    }
  }

  /** An array that holds no cell equal to the sentinel comes back unchanged. */
  lemma {:induction false} NoSentinelNoChange(arr: seq<Cell>, value: Cell)
    requires forall i :: 0 <= i < |arr| ==> !Matches(arr[i], value)
    ensures ConvertValueToNan(arr, value) == arr
  {
    if arr != [] {
      NoSentinelNoChange(arr[1..], value);
    }
  }

  /** Converting twice with the same sentinel is converting once: after the first pass
      no cell equals the sentinel, since the missing marker equals nothing. */
  lemma Idempotent(arr: seq<Cell>, value: Cell)
    ensures ConvertValueToNan(ConvertValueToNan(arr, value), value) == ConvertValueToNan(arr, value)
  {
    NoSentinelNoChange(ConvertValueToNan(arr, value), value);
  }

  /** The same for a table. */
  lemma Idempotent2D(arr: seq<seq<Cell>>, value: Cell)
    ensures ConvertValueToNan2D(ConvertValueToNan2D(arr, value), value) == ConvertValueToNan2D(arr, value)
  {
    var once := ConvertValueToNan2D(arr, value);
    var twice := ConvertValueToNan2D(once, value);
    forall i | 0 <= i < |arr|
      ensures twice[i] == once[i]
    {
      RowsConvertIndependently(once, value, i);
      NoSentinelNoChange(once[i], value);
    }
  }

  /** A not-a-number sentinel (comparisons with it are always false) changes nothing. */
  lemma NanSentinelChangesNothing(arr: seq<Cell>)
    ensures ConvertValueToNan(arr, Missing) == arr
  {
    NoSentinelNoChange(arr, Missing);
  }

  /** Two successive passes with two sentinels equal one pass that blanks cells equal
      to either of them. */
  lemma TwoPassesAreOnePass(arr: seq<Cell>, first: Cell, second: Cell)
    ensures ConvertValueToNan(ConvertValueToNan(arr, first), second) == ConvertValuesToNan(arr, {first, second})
  {
    var lhs := ConvertValueToNan(ConvertValueToNan(arr, first), second);
    var rhs := ConvertValuesToNan(arr, {first, second});
    forall i | 0 <= i < |arr|
      ensures lhs[i] == rhs[i]
    {
      MatchesIsEquality(arr[i], first);
      MatchesIsEquality(arr[i], second);
    }
  }

  /** The same for a table. */
  lemma TwoPassesAreOnePass2D(arr: seq<seq<Cell>>, first: Cell, second: Cell)
    ensures ConvertValueToNan2D(ConvertValueToNan2D(arr, first), second) == ConvertValuesToNan2D(arr, {first, second})
  {
    var once := ConvertValueToNan2D(arr, first);
    var lhs := ConvertValueToNan2D(once, second);
    forall i | 0 <= i < |arr|
      ensures lhs[i] == ConvertValuesToNan(arr[i], {first, second})
    {
      RowsConvertIndependently(arr, first, i);
      RowsConvertIndependently(once, second, i);
      TwoPassesAreOnePass(arr[i], first, second);
    }
  }

  /** The order of the two passes does not matter. */
  lemma PassOrderIsIrrelevant(arr: seq<Cell>, first: Cell, second: Cell)
    ensures ConvertValueToNan(ConvertValueToNan(arr, first), second) == ConvertValueToNan(ConvertValueToNan(arr, second), first)
  {
    TwoPassesAreOnePass(arr, first, second);
    TwoPassesAreOnePass(arr, second, first);
    assert {first, second} == {second, first};
  }

  /** The default sentinel: [1, 2, -999.25, 4, -999.25] becomes [1, 2, NaN, 4, NaN]. */
  lemma DefaultSentinelExample()
    ensures ConvertValueToNan([Num(1.0), Num(2.0), Num(-999.25), Num(4.0), Num(-999.25)])
         == [Num(1.0), Num(2.0), Missing, Num(4.0), Missing]
  {
  }

  /** A caller-supplied sentinel: with value 0, [1, 2, 0, 4, 0] becomes [1, 2, NaN, 4, NaN]. */
  lemma CustomSentinelExample()
    ensures ConvertValueToNan([Num(1.0), Num(2.0), Num(0.0), Num(4.0), Num(0.0)], Num(0.0))
         == [Num(1.0), Num(2.0), Missing, Num(4.0), Missing]
  {
  }

  /** A 2 x 3 array: [[1, 2, -999.25], [4, -999.25, 6]] becomes [[1, 2, NaN], [4, NaN, 6]]. */
  lemma TwoDimensionalExample()
    ensures ConvertValueToNan2D([[Num(1.0), Num(2.0), Num(-999.25)], [Num(4.0), Num(-999.25), Num(6.0)]])
         == [[Num(1.0), Num(2.0), Missing], [Num(4.0), Missing, Num(6.0)]]
  {
    var arr := [[Num(1.0), Num(2.0), Num(-999.25)], [Num(4.0), Num(-999.25), Num(6.0)]];
    assert arr[1..][1..] == [];
    assert ConvertValueToNan(arr[0]) == [Num(1.0), Num(2.0), Missing];
    assert ConvertValueToNan(arr[1]) == [Num(4.0), Missing, Num(6.0)];
  }

  /** The empty array converts to the empty array. */
  lemma EmptyExample()
    ensures ConvertValueToNan([]) == []
  {
  }
}
