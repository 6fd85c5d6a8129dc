/** The rows exactly as `append(String)` stores them, where a null argument is
    kept as a null row, and what the missing-value queries then make of it. */
module AppendNullFinding {
  import opened Wrappers
  import opened Rows
  import opened TextColumns

  /** `append(String)` as written: the argument is added to the list unchanged. */
  function AppendAsWritten(cells: seq<Option<string>>, value: Option<string>): (r: seq<Option<string>>)
    ensures |r| == |cells| + 1 && r[..|cells|] == cells && r[|cells|] == value
  {
    cells + [value]
  }

  /** `isMissing` over such rows: `get(i).equals("")`, which throws on a null row. */
  function IsMissingAsWritten(cells: seq<Option<string>>, rowNumber: int): (r: Result<bool, Error>)
  {
    if !(0 <= rowNumber < |cells|) then Failure(IndexOutOfBounds(rowNumber, |cells|))
    else if cells[rowNumber].None? then Failure(NullPointer)
    else Success(cells[rowNumber].value == MISSING)
  }

  /** `countMissing` over such rows: `"".equals(get(i))`, which is false for a null row. */
  function CountMissingAsWritten(cells: seq<Option<string>>): (count: nat)
  {
    if cells == [] then 0
    else CountMissingAsWritten(cells[..|cells| - 1]) + (if cells[|cells| - 1] == Some(MISSING) then 1 else 0)
  }

  /** After `append(null)` the new row is neither missing nor present: asking
      whether it is missing throws, and the missing count does not include it. */
  lemma AppendNullIsNotMissing(cells: seq<Option<string>>)
    ensures IsMissingAsWritten(AppendAsWritten(cells, None), |cells|) == Failure(NullPointer)
    ensures CountMissingAsWritten(AppendAsWritten(cells, None)) == CountMissingAsWritten(cells)
  {
    assert AppendAsWritten(cells, None)[..|cells|] == cells;
  }
}
