/** The in-place normaliser valtonan, which each visualisation notebook defines with the
    same text, and the notebooks' two chained calls on the core-measurement table.
    A table (a data frame or a two-dimensional array) is an `array2<Cell>`: it lives on
    the heap, so the caller's name and the returned name are the same object. */
module NotebookHelpers {
  import opened Cells
  import opened DataUtils

  /** The contents of a table, row by row. */
  function Rows(a: array2<Cell>): (rows: seq<seq<Cell>>)
    reads a
    ensures |rows| == a.Length0
    ensures forall i :: 0 <= i < |rows| ==> |rows[i]| == a.Length1
  {
    seq(a.Length0, i requires 0 <= i < a.Length0 reads a =>
      seq(a.Length1, j requires 0 <= j < a.Length1 reads a => a[i, j]))
  }

  /** Masked assignment `inp[inp == val] = NaN`: overwrite, inside the caller's table,
      every cell equal to the sentinel with the missing marker, then hand back the very
      same table. */
  method ValToNan(inp: array2<Cell>, val: Cell := NullValue) returns (out: array2<Cell>)
    modifies inp
    ensures out == inp
    ensures forall i, j :: 0 <= i < inp.Length0 && 0 <= j < inp.Length1 && Matches(old(inp[i, j]), val) ==>
      inp[i, j] == Missing
    ensures forall i, j :: 0 <= i < inp.Length0 && 0 <= j < inp.Length1 && !Matches(old(inp[i, j]), val) ==>
      inp[i, j] == old(inp[i, j])
    ensures Rows(inp) == ConvertValueToNan2D(old(Rows(inp)), val)
  {
    ghost var before := Rows(inp);
    var i := 0;
    while i < inp.Length0
      invariant 0 <= i <= inp.Length0
      invariant forall r, c :: 0 <= r < i && 0 <= c < inp.Length1 ==> inp[r, c] == Normalize(old(inp[r, c]), val)
      invariant forall r, c :: i <= r < inp.Length0 && 0 <= c < inp.Length1 ==> inp[r, c] == old(inp[r, c])
    {
      var j := 0;
      while j < inp.Length1
        invariant 0 <= j <= inp.Length1
        invariant forall r, c :: 0 <= r < i && 0 <= c < inp.Length1 ==> inp[r, c] == Normalize(old(inp[r, c]), val)
        invariant forall c :: 0 <= c < j ==> inp[i, c] == Normalize(old(inp[i, c]), val)
        invariant forall c :: j <= c < inp.Length1 ==> inp[i, c] == old(inp[i, c])
        invariant forall r, c :: i < r < inp.Length0 && 0 <= c < inp.Length1 ==> inp[r, c] == old(inp[r, c])
      {
        if Matches(inp[i, j], val) {
          inp[i, j] := Missing;
        }
        j := j + 1;
      }
      i := i + 1;
    }
    out := inp;
    ghost var after := Rows(inp);
    ghost var expected := ConvertValueToNan2D(before, val);
    forall r | 0 <= r < inp.Length0
      ensures after[r] == expected[r]
    {
      assert forall c :: 0 <= c < inp.Length1 ==> after[r][c] == expected[r][c];
    }
  }

  /** `km2 = valtonan(km, val='-')` followed by `km2 = valtonan(km, val='0.66')`:
      both passes write into `km`, and `km2` names the same table. */
  method CleanCoreTable(km: array2<Cell>) returns (km2: array2<Cell>)
    modifies km
    ensures km2 == km
    ensures forall i, j :: 0 <= i < km.Length0 && 0 <= j < km.Length1 ==>
      !Matches(km[i, j], Text("-")) && !Matches(km[i, j], Text("0.66"))
    ensures forall i, j ::
      0 <= i < km.Length0 && 0 <= j < km.Length1 && (old(km[i, j]) == Text("-") || old(km[i, j]) == Text("0.66")) ==>
        km[i, j] == Missing
    ensures forall i, j ::
      0 <= i < km.Length0 && 0 <= j < km.Length1 && old(km[i, j]) != Text("-") && old(km[i, j]) != Text("0.66") ==>
        km[i, j] == old(km[i, j])
    ensures Rows(km) == ConvertValuesToNan2D(old(Rows(km)), {Text("-"), Text("0.66")})
  {
    ghost var before := Rows(km);
    km2 := ValToNan(km, Text("-"));
    km2 := ValToNan(km, Text("0.66"));
    TwoPassesAreOnePass2D(before, Text("-"), Text("0.66"));
  }
}
