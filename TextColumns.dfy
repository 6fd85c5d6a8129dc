/** A plain, uncompressed, in-memory text column: one mutable list of strings,
    in which the empty string marks a missing row. */
module TextColumns {
  import opened Wrappers
  import opened Selections
  import opened Rows
  import opened TextOrder

  /** Java's `int`. */
  type Int32 = x: int | -0x8000_0000 <= x < 0x8000_0000

  const MIN_INT: Int32 := -0x8000_0000

  /** Java's `-n` on an `int`, where the most negative value is its own negation. */
  function Negate32(n: Int32): (r: Int32)
    ensures n != MIN_INT ==> r == -n
    ensures n == MIN_INT ==> r == MIN_INT
  {
    if n == MIN_INT then n else -n
  }

  /** The decimal digit character for `d`. */
  function DigitChar(d: nat): (c: char)
    requires d < 10
    ensures '0' <= c <= '9' && c as int - '0' as int == d
  {
    ('0' as int + d) as char
  }

  /** Every character is a decimal digit. */
  predicate AllDigits(s: string)
  {
    forall i :: 0 <= i < |s| ==> '0' <= s[i] <= '9'
  }

  /** The value of a string of decimal digits, read most significant first. */
  function ParseNat(s: string): (v: nat)
    requires AllDigits(s)
  {
    if s == [] then 0 else ParseNat(s[..|s| - 1]) * 10 + (s[|s| - 1] as int - '0' as int)
  }

  /** The value of an optional minus sign followed by decimal digits. */
  function ParseInt(s: string): (v: int)
    requires |s| > 0 && (if s[0] == '-' then AllDigits(s[1..]) else AllDigits(s))
  {
    if s[0] == '-' then -(ParseNat(s[1..]) as int) else ParseNat(s)
  }

  /** Decimal digits of a natural number, without leading zeros: the digit string
      that reads back as `n`. */
  function NatToString(n: nat): (r: string)
    ensures |r| > 0 && AllDigits(r) && ParseNat(r) == n
    ensures |r| == 1 || r[0] != '0'
    decreases n
  {
    if n < 10 then [DigitChar(n)]
    else
      var front := NatToString(n / 10);
      assert (front + [DigitChar(n % 10)])[..|front|] == front;
      front + [DigitChar(n % 10)]
  }

  /** Java's `Integer.toString`, as string concatenation renders an `int`: a minus
      sign exactly for negative numbers, then the digits of the magnitude, reading
      back as `n`. */
  function IntToString(n: int): (r: string)
    ensures |r| > 0 && (r[0] == '-' <==> n < 0)
    ensures r[0] == '-' ==> AllDigits(r[1..]) && |r| > 1 && r[1] != '0'
    ensures r[0] != '-' ==> AllDigits(r) && (|r| == 1 || r[0] != '0')
    ensures ParseInt(r) == n
  {
    if n < 0 then
      var digits := NatToString(-n);
      assert ("-" + digits)[1..] == digits;
      "-" + digits
    else NatToString(n)
  }

  /** The column types `append(Column)` distinguishes. */
  datatype ColumnType = TEXT | STRING | OtherType(typeName: string)

  /** Another column, as seen through its `name()`, `type()` and `getString(i)` for
      each row below its `size()`. */
  datatype ColumnView = ColumnView(name: string, columnType: ColumnType, strings: seq<string>)

  /** An argument of `appendObj`: null, a String, or an object of another class. */
  datatype JavaObject = Null | JString(s: string) | OtherObject(className: string)

  /** The exceptions the column's operations throw. */
  datatype Error =
    | IndexOutOfBounds(index: int, length: int)
    | IllegalArgument(message: string)
    | ColumnTypeMismatch(name: string, columnType: ColumnType, otherName: string, otherType: ColumnType)
    | NullPointer

  /** Whether a value is the missing indicator. */
  function ValueIsMissing(s: string): (r: bool)
    ensures r <==> s == MISSING
  {
    s == MISSING
  }

  /** `create(name, String...)`, `create(name, Collection)` and `create(name, Stream)`:
      a column holding the given strings in order, a null one as a missing row. */
  method CreateFrom(name: string, strings: seq<Option<string>>) returns (c: BackingTextColumn)
    ensures fresh(c) && c.name == name && c.values == Normalized(strings)
  {
    c := new BackingTextColumn(name);
    c.AddAll(strings);
  }

  /** `create(name, size)`: `size` missing rows; a negative size is rejected by
      the backing list's constructor. */
  method CreateWithSize(name: string, size: int) returns (r: Result<BackingTextColumn, Error>)
    ensures r.Success? <==> size >= 0
    ensures r.Failure? ==> r.error == IllegalArgument("Illegal Capacity: " + IntToString(size))
    ensures r.Success? ==> fresh(r.value) && r.value.name == name && r.value.values == Missings(size)
  {
    if size < 0 {
      return Failure(IllegalArgument("Illegal Capacity: " + IntToString(size)));
    }
    var strings: seq<Option<string>> := [];
    for i := 0 to size
      invariant |strings| == i && forall j :: 0 <= j < i ==> strings[j] == Some(MISSING)
    {
      strings := strings + [Some(MISSING)];
    }
    var c := CreateFrom(name, strings);
    assert c.values == Missings(size);
    return Success(c);
  }

  class BackingTextColumn {
    var name: string
    /** Every row of the column, in order. */
    var values: seq<string>

    /** `create(name)`: an empty column. */
    constructor (name: string)
      ensures this.name == name && values == []
    {
      this.name := name;
      values := [];
    }

    /** The number of rows, missing ones included. */
    function Size(): (r: nat)
      reads this
      ensures r == |values|
    {
      |values|
    }

    function IsEmpty(): (r: bool)
      reads this
      ensures r <==> Size() == 0
    {
      values == []
    }

    /** The row at `rowIndex`; an index outside the rows is an error, never clamped. */
    function Get(rowIndex: int): (r: Result<string, Error>)
      reads this
      ensures r.Success? <==> 0 <= rowIndex < |values|
      ensures r.Success? ==> r.value == values[rowIndex]
      ensures r.Failure? ==> r.error == IndexOutOfBounds(rowIndex, |values|)
    {
      if 0 <= rowIndex < |values| then Success(values[rowIndex])
      else Failure(IndexOutOfBounds(rowIndex, |values|))
    }

    /** Whether the row holds the missing indicator. */
    function IsMissing(rowNumber: int): (r: Result<bool, Error>)
      reads this
      ensures r.Success? <==> 0 <= rowNumber < |values|
      ensures r.Success? ==> (r.value <==> Get(rowNumber) == Success(MISSING))
      ensures r.Failure? ==> r.error == IndexOutOfBounds(rowNumber, |values|)
    {
      match Get(rowNumber)
      case Success(s) => Success(s == MISSING)
      case Failure(e) => Failure(e)
    }

    /** Adds one row at the end; `null` is stored as the missing indicator. */
    method Append(value: Option<string>)
      modifies this
      ensures name == old(name)
      ensures values == old(values) + [Normalize(value)]
      ensures Get(old(Size())) == Success(Normalize(value))
      ensures IsMissing(old(Size())) == Success(value.None? || value.value == MISSING)
    {
      values := values + [Normalize(value)];
    }

    method AppendMissing()
      modifies this
      ensures name == old(name)
      ensures values == old(values) + [MISSING]
    {
      Append(Some(MISSING));
    }

    /** Appends a null (as a missing row) or a String; anything else is rejected
      and the column is left as it was. */
    method AppendObj(obj: JavaObject) returns (r: Outcome<Error>)
      modifies this
      ensures name == old(name)
      ensures r.Fail? <==> obj.OtherObject?
      ensures r.Fail? ==>
        values == old(values) && r.error == IllegalArgument("Cannot append " + obj.className + " to TextColumn")
      ensures obj.Null? ==> values == old(values) + [MISSING]
      ensures obj.JString? ==> values == old(values) + [obj.s]
    {
      match obj
      case Null =>
        AppendMissing();
        r := Pass;
      case OtherObject(className) =>
        r := Fail(IllegalArgument("Cannot append " + className + " to TextColumn"));
      case JString(s) =>
        Append(Some(s));
        r := Pass;
    }

    /** Appends every string of the list, in order. */
    method AddAll(stringValues: seq<Option<string>>)
      modifies this
      ensures name == old(name)
      ensures values == old(values) + Normalized(stringValues)
    {
      for k := 0 to |stringValues|
        invariant name == old(name)
        invariant values == old(values) + Normalized(stringValues[..k])
      {
        assert Normalized(stringValues[..k + 1]) == Normalized(stringValues[..k]) + [Normalize(stringValues[k])];
        Append(stringValues[k]);
      }
      assert stringValues[..|stringValues|] == stringValues;
    }

    /** Appends the rows of a text or string column, in index order; a column of
        any other type is rejected and nothing is appended. */
    method AppendColumn(column: ColumnView) returns (r: Outcome<Error>)
      modifies this
      ensures name == old(name)
      ensures r.Pass? <==> column.columnType == TEXT || column.columnType == STRING
      ensures r.Pass? ==> values == old(values) + column.strings
      ensures r.Fail? ==>
        values == old(values) && r.error == ColumnTypeMismatch(name, TEXT, column.name, column.columnType)
    {
      if !(column.columnType == TEXT || column.columnType == STRING) {
        return Fail(ColumnTypeMismatch(name, TEXT, column.name, column.columnType));
      }
      var size := |column.strings|;
      for i := 0 to size
        invariant name == old(name)
        invariant values == old(values) + column.strings[..i]
      {
        assert column.strings[..i + 1] == column.strings[..i] + [column.strings[i]];
        Append(Some(column.strings[i]));
      }
      assert column.strings[..size] == column.strings;
      r := Pass;
    }

    /** Replaces one row; `null` is stored as the missing indicator. An index outside
        the rows is an error and changes nothing. */
    method Set(rowIndex: int, stringValue: Option<string>) returns (r: Outcome<Error>)
      modifies this
      ensures name == old(name)
      ensures r.Pass? <==> 0 <= rowIndex < |old(values)|
      ensures r.Pass? ==> values == old(values)[rowIndex := Normalize(stringValue)]
      ensures r.Pass? ==> Get(rowIndex) == Success(Normalize(stringValue))
      ensures r.Fail? ==> values == old(values) && r.error == IndexOutOfBounds(rowIndex, |old(values)|)
      decreases if stringValue.None? then 2 else 0
    {
      if stringValue.None? {
        r := SetMissing(rowIndex);
        return;
      }
      if !(0 <= rowIndex < |values|) {
        return Fail(IndexOutOfBounds(rowIndex, |values|));
      }
      values := values[rowIndex := stringValue.value];
      r := Pass;
    }

    /** Makes one row missing. */
    method SetMissing(i: int) returns (r: Outcome<Error>)
      modifies this
      ensures name == old(name)
      ensures r.Pass? <==> 0 <= i < |old(values)|
      ensures r.Pass? ==> values == old(values)[i := MISSING]
      ensures r.Fail? ==> values == old(values) && r.error == IndexOutOfBounds(i, |old(values)|)
      decreases 1
    {
      r := Set(i, Some(MISSING));
    }

    /** Sets every selected row, in ascending order, row by row. A selected row beyond
        the end raises the error once every smaller selected row has been set; since
        all later rows are beyond the end too, the column then holds the new value in
        exactly the selected rows that exist. */
    method SetSelection(rowSelection: Selection, newValue: Option<string>) returns (r: Outcome<Error>)
      modifies this
      ensures name == old(name)
      ensures values == Assigned(old(values), rowSelection.rows, Normalize(newValue))
      ensures r.Pass? <==> forall row :: row in rowSelection.rows ==> row < |old(values)|
      ensures r.Fail? ==> r.error.IndexOutOfBounds?
    {
      var rows := rowSelection.ToArray();
      ghost var v := Normalize(newValue);
      for k := 0 to |rows|
        invariant name == old(name)
        invariant forall j :: 0 <= j < k ==> rows[j] < |old(values)|
        invariant values == Assigned(old(values), Members(rows[..k]), v)
      {
        var s := Set(rows[k], newValue);
        if s.Fail? {
          AssignedByPrefix(old(values), rowSelection.rows, k, v);
          EnumeratedBelow(rowSelection.rows, k, |old(values)|);
          return s;
        }
        assert values == Assigned(old(values), Members(rows[..k + 1]), v) by {
          AssignedNext(old(values), Members(rows[..k]), rows[k], v);
          MembersNext(rows, k);
        }
      }
      AssignedByPrefix(old(values), rowSelection.rows, |rows|, v);
      EnumeratedBelow(rowSelection.rows, |rows|, |old(values)|);
      r := Pass;
    }

    /** Removes every row. */
    method Clear()
      modifies this
      ensures name == old(name) && values == [] && Size() == 0
    {
      values := [];
    }

    /** The number of missing rows: both the scan's count and the number of rows
        for which `IsMissing` holds. */
    method CountMissing() returns (count: nat)
      ensures count == Occurrences(values, MISSING)
      ensures count == |Matching(values, {MISSING})|
    {
      count := 0;
      for i := 0 to |values|
        invariant count == Occurrences(values[..i], MISSING)
      {
        assert values[..i + 1][..i] == values[..i];
        if MISSING == values[i] {
          count := count + 1;
        }
      }
      assert values[..|values|] == values;
      MatchingCount(values, MISSING);
    }

    /** An empty column with the same name. */
    method EmptyCopy() returns (empty: BackingTextColumn)
      ensures fresh(empty) && empty.name == name && empty.values == []
    {
      empty := new BackingTextColumn(name);
    }

    /** A column with the same name and `rowSize` missing rows. */
    method EmptyCopyWithSize(rowSize: int) returns (r: Result<BackingTextColumn, Error>)
      ensures r.Success? <==> rowSize >= 0
      ensures r.Success? ==> fresh(r.value) && r.value.name == name && r.value.values == Missings(rowSize)
      ensures r.Failure? ==> r.error == IllegalArgument("Illegal Capacity: " + IntToString(rowSize))
    {
      r := CreateWithSize(name, rowSize);
    }

    /** A new column with the non-missing rows in their original order. */
    method RemoveMissing() returns (noMissing: BackingTextColumn)
      ensures fresh(noMissing) && noMissing.name == name
      ensures noMissing.values == NonMissing(values)
      ensures |noMissing.values| == |values| - Occurrences(values, MISSING)
      ensures multiset(noMissing.values) == multiset(values)[MISSING := 0]
    {
      noMissing := EmptyCopy();
      for i := 0 to |values|
        invariant fresh(noMissing) && noMissing.name == name
        invariant noMissing.values == NonMissing(values[..i])
      {
        assert values[..i + 1][..i] == values[..i];
        if !ValueIsMissing(values[i]) {
          noMissing.Append(Some(values[i]));
        }
      }
      assert values[..|values|] == values;
      NonMissingContents(values);
    }

    /** An independent column with the same name and rows. */
    method Copy() returns (newCol: BackingTextColumn)
      ensures fresh(newCol) && newCol.name == name && newCol.values == values
    {
      var created := CreateWithSize(name, |values|);
      newCol := created.value;
      for r := 0 to |values|
        invariant fresh(newCol) && newCol.name == name && |newCol.values| == |values|
        invariant forall j :: 0 <= j < r ==> newCol.values[j] == values[j]
      {
        var _ := newCol.Set(r, Some(values[r]));
      }
    }

    /** The distinct values of the column. */
    function AsSet(): (r: set<string>)
      reads this
      ensures forall x :: x in r <==> x in values
    {
      set x | x in values
    }

    /** The number of distinct values: never more than the rows, and at least one
        for a non-empty column. */
    function CountUnique(): (r: nat)
      reads this
      ensures r <= Size()
      ensures Size() > 0 ==> r > 0
    {
      DistinctBound(values);
      assert Size() > 0 ==> values[0] in AsSet();
      |AsSet()|
    }

    /** A column named "<name> Unique values" with each distinct value once, in an
        order left to the set it is drawn from. */
    method Unique() returns (r: BackingTextColumn)
      ensures fresh(r) && r.name == name + " Unique values"
      ensures forall x :: x in r.values <==> x in values
      ensures Distinct(r.values) && |r.values| == CountUnique()
    {
      r := new BackingTextColumn(name + " Unique values");
      var rest := AsSet();
      while rest != {}
        invariant fresh(r) && r.name == name + " Unique values"
        invariant rest <= AsSet()
        invariant forall x :: x in r.values ==> x in AsSet() && x !in rest
        invariant forall x :: x in AsSet() ==> x in rest || x in r.values
        invariant Distinct(r.values)
        invariant |r.values| + |rest| == |AsSet()|
        decreases |rest|
      {
        var x :| x in rest;
        r.Append(Some(x));
        rest := rest - {x};
      }
    }

    /** A snapshot of the rows. */
    function AsList(): (r: seq<string>)
      reads this
      ensures |r| == Size() && forall i :: 0 <= i < |r| ==> Get(i) == Success(r[i])
    {
      values
    }

    /** A new array holding the rows. */
    method AsObjectArray() returns (output: array<string>)
      ensures fresh(output) && output[..] == values
    {
      output := new string[|values|];
      for i := 0 to |values|
        invariant forall j :: 0 <= j < i ==> output[j] == values[j]
      {
        output[i] := values[i];
      }
    }

    /** Whether some row equals `aString`. */
    function Contains(aString: string): (r: bool)
      reads this
      ensures r <==> exists i :: 0 <= i < |values| && Get(i) == Success(aString)
    {
      assert forall i :: 0 <= i < |values| ==> Get(i) == Success(values[i]);
      aString in values
    }

    /** The first row equal to `value`, or -1 when there is none. */
    function FirstIndexOf(value: string): (r: int)
      reads this
      ensures r == -1 <==> !Contains(value)
      ensures r != -1 ==>
        Get(r) == Success(value) && forall j :: 0 <= j < r ==> values[j] != value
    {
      var k := IndexOf(values, value);
      assert k >= 0 ==> forall j :: 0 <= j < k ==> values[j] == values[..k][j];
      k
    }

    /** The rows whose value is among `strings`. */
    method IsIn(strings: seq<string>) returns (results: Selection)
      ensures fresh(results)
      ensures results.rows == Matching(values, set s | s in strings)
    {
      var stringSet := set s | s in strings;
      results := new Selection();
      for i := 0 to |values|
        invariant fresh(results)
        invariant results.rows == set j: nat | j < i && values[j] in stringSet
      {
        if values[i] in stringSet {
          results.Add(i);
        }
      }
    }

    /** Every row minus those `IsIn` selects. */
    method IsNotIn(strings: seq<string>) returns (results: Selection)
      ensures fresh(results)
      ensures results.rows == RowRange(0, |values|) - Matching(values, set s | s in strings)
      ensures results.rows == set i: nat | i < |values| && values[i] !in strings
    {
      results := new Selection();
      results.AddRange(0, |values|);
      var inSet := IsIn(strings);
      results.AndNot(inSet);
      ComplementPartitions(values, set s | s in strings);
    }

    /** The number of rows equal to `value`, as the size of the selection of equal rows. */
    function CountOccurrences(value: string): (r: nat)
      reads this
      ensures r == Occurrences(values, value) && r == multiset(values)[value]
    {
      MatchingCount(values, value);
      OccurrencesIsMultiplicity(values, value);
      |Matching(values, {value})|
    }

    /** A new column with the selected rows, in ascending row order. */
    method Where(selection: Selection) returns (r: Result<BackingTextColumn, Error>)
      ensures r.Success? <==> forall row :: row in selection.rows ==> row < |values|
      ensures r.Failure? ==> r.error.IndexOutOfBounds?
      ensures r.Success? ==> fresh(r.value) && r.value.name == name
      ensures r.Success? ==> var rows := Ascending(selection.rows);
        |r.value.values| == |rows| &&
        forall k :: 0 <= k < |rows| ==> rows[k] < |values| && r.value.values[k] == values[rows[k]]
    {
      var rows := selection.ToArray();
      var c := EmptyCopy();
      for k := 0 to |rows|
        invariant fresh(c) && c.name == name
        invariant forall j :: 0 <= j < k ==> rows[j] < |values|
        invariant |c.values| == k && forall j :: 0 <= j < k ==> c.values[j] == values[rows[j]]
      {
        var cell := Get(rows[k]);
        if cell.Failure? {
          EnumeratedBelow(selection.rows, k, |values|);
          return Failure(cell.error);
        }
        c.Append(Some(cell.value));
      }
      EnumeratedBelow(selection.rows, |rows|, |values|);
      return Success(c);
    }

    /** A new column named "<name> lag(n)" whose row `i` holds row `i - n`, missing
        where there is no such row; it has max(size, |n|) rows. `-n` is taken in
        32-bit arithmetic, so for the most negative `n` the first row read is
        negative and the call fails. */
    method Lag(n: Int32) returns (r: Result<BackingTextColumn, Error>)
      ensures r.Success? <==> n != MIN_INT
      ensures r.Failure? ==> r.error == IndexOutOfBounds(MIN_INT, |values|)
      ensures r.Success? ==> fresh(r.value) && r.value.name == name + " lag(" + IntToString(n) + ")"
      ensures r.Success? ==> r.value.values == Lagged(values, n)
    {
      var copy := EmptyCopy();
      copy.name := name + " lag(" + IntToString(n) + ")";
      if n >= 0 {
        FillLagged(copy, n);
      } else {
        var filled := FillLed(copy, n);
        if filled.Fail? {
          return Failure(filled.error);
        }
      }
      return Success(copy);
    }

    /** The branch of `lag` for `n >= 0`: `n` missing rows, then the rows of this
        column until the window reaches its end. */
    method FillLagged(copy: BackingTextColumn, n: nat)
      requires copy != this && copy.values == []
      modifies copy
      ensures copy.name == old(copy.name) && copy.values == Lagged(values, n)
    {
      for m := 0 to n
        invariant copy.name == old(copy.name) && copy.values == Missings(m)
      {
        copy.AppendMissing();
      }
      var i := 0;
      while i < |values|
        invariant copy.name == old(copy.name)
        invariant 0 <= i <= Max(0, |values| - n)
        invariant copy.values == Missings(n) + values[..i]
      {
        if i + n >= |values| {
          break;
        }
        assert values[..i + 1] == values[..i] + [values[i]];
        copy.Append(Some(values[i]));
        i := i + 1;
      }
      assert i == Max(0, |values| - n);
      LaggedAsBuilt(values, n);
    }

    /** The first loop of `lag` for `n < 0`: appends this column's rows from row
        `start` on to `copy`. A negative `start` fails at the first read, before anything is appended. */
    method CopyRowsFrom(copy: BackingTextColumn, start: int) returns (r: Outcome<Error>)
      requires copy != this
      modifies copy
      ensures copy.name == old(copy.name)
      ensures r.Pass? <==> start >= 0
      ensures r.Fail? ==> r.error == IndexOutOfBounds(start, |values|) && copy.values == old(copy.values)
      ensures r.Pass? ==> copy.values == old(copy.values) + if start <= |values| then values[start..] else []
    {
      var i := start;
      while i < |values|
        invariant copy.name == old(copy.name)
        invariant i == start || 0 <= start < i <= |values|
        invariant copy.values == old(copy.values) + if i == start then [] else values[start..i]
      {
        var cell := Get(i);
        if cell.Failure? {
          return Fail(cell.error);
        }
        SliceExtend(values, start, i);
        copy.Append(Some(cell.value));
        i := i + 1;
      }
      r := Pass;
    }

    /** The branch of `lag` for `n < 0`: the rows of this column from row `-n` on,
        then `-n` missing rows. `-n` is taken in 32-bit arithmetic: for the most
        negative `n` it stays negative and the first read fails. */
    method FillLed(copy: BackingTextColumn, n: Int32) returns (r: Outcome<Error>)
      requires n < 0 && copy != this && copy.values == []
      modifies copy
      ensures copy.name == old(copy.name)
      ensures r.Pass? <==> n != MIN_INT
      ensures r.Fail? ==> r.error == IndexOutOfBounds(MIN_INT, |values|)
      ensures r.Pass? ==> copy.values == Lagged(values, n)
    {
      var start: int := Negate32(n);
      r := CopyRowsFrom(copy, start);
      if r.Fail? {
        return;
      }
      ghost var copied := copy.values;
      var m := 0;
      while m > n
        invariant copy.name == old(copy.name)
        invariant n <= m <= 0
        invariant copy.values == copied + Missings(-m)
      {
        assert Missings(-m + 1) == Missings(-m) + [MISSING];
        copy.AppendMissing();
        m := m - 1;
      }
      LaggedAsBuilt(values, n);
    }

    /** `lag` of the 32-bit negation of `n`, renamed "<name> lead(n)". */
    method Lead(n: Int32) returns (r: Result<BackingTextColumn, Error>)
      ensures r.Success? <==> n != MIN_INT
      ensures r.Failure? ==> r.error == IndexOutOfBounds(MIN_INT, |values|)
      ensures r.Success? ==> fresh(r.value) && r.value.name == name + " lead(" + IntToString(n) + ")"
      ensures r.Success? ==> r.value.values == Lagged(values, -n)
    {
      r := Lag(Negate32(n));
      if r.Success? {
        r.value.name := name + " lead(" + IntToString(n) + ")";
      }
    }

    /** Sorts the rows in place into natural string order. */
    method SortAscending()
      modifies this
      ensures name == old(name)
      ensures Sorted(values, false) && multiset(values) == multiset(old(values))
    {
      SortBySortsAndPermutes(values, false);
      values := SortBy(values, false);
    }

    /** Sorts the rows in place into reverse natural string order. */
    method SortDescending()
      modifies this
      ensures name == old(name)
      ensures Sorted(values, true) && multiset(values) == multiset(old(values))
    {
      SortBySortsAndPermutes(values, true);
      values := SortBy(values, true);
    }

    /** Whether two rows hold the same string; the first bad index is the error. */
    function Equals(rowNumber1: int, rowNumber2: int): (r: Result<bool, Error>)
      reads this
      ensures r.Success? <==> 0 <= rowNumber1 < |values| && 0 <= rowNumber2 < |values|
      ensures r.Success? ==> (r.value <==> values[rowNumber1] == values[rowNumber2])
      ensures r.Failure? ==>
        r.error == IndexOutOfBounds(if 0 <= rowNumber1 < |values| then rowNumber2 else rowNumber1, |values|)
    {
      match Get(rowNumber1)
      case Failure(e) => Failure(e)
      case Success(f1) =>
        match Get(rowNumber2)
        case Failure(e) => Failure(e)
        case Success(f2) => Success(f1 == f2)
    }

    /** The row comparator: compares the strings of two rows. It is zero exactly when
        `Equals` holds, swapping the rows negates it, and a non-positive result means
        the first row may precede the second in ascending order. */
    function CompareRows(i: int, i1: int): (r: Result<int, Error>)
      reads this
      ensures r.Success? <==> 0 <= i < |values| && 0 <= i1 < |values|
      ensures r.Failure? ==> r.error == IndexOutOfBounds(if 0 <= i < |values| then i1 else i, |values|)
      ensures r.Success? ==> (r.value == 0 <==> Equals(i, i1) == Success(true))
      ensures r.Success? ==> r.value == -CompareTo(values[i1], values[i])
      ensures r.Success? ==> (r.value <= 0 <==> InOrder(values[i], values[i1], false))
    {
      match Get(i)
      case Failure(e) => Failure(e)
      case Success(f1) =>
        match Get(i1)
        case Failure(e) => Failure(e)
        case Success(f2) =>
          CompareToZero(f1, f2);
          CompareToAntisymmetric(f1, f2);
          Success(CompareTo(f1, f2))
    }
  }
}
