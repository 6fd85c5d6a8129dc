/** The contract of the row selections that the column produces and consumes:
    a set of row indices, iterated in ascending order as a bitmap is. */
module Selections {

  /** Every element is smaller than every later one. */
  ghost predicate StrictlyIncreasing(a: seq<nat>) {
    forall i, j :: 0 <= i < j < |a| ==> a[i] < a[j]
  }

  /** `m` is the least row of `s`. */
  predicate IsMin(s: set<nat>, m: nat)
  {
    m in s && forall x :: x in s ==> m <= x
  }

  /** A non-empty set of rows has a least element. */
  lemma {:induction false} MinExists(s: set<nat>)
    requires s != {}
    ensures exists m :: IsMin(s, m)
  {
    var y :| y in s;
    var rest := s - {y};
    if rest == {} {
      assert s == {y};
      assert IsMin(s, y);
    } else {
      MinExists(rest);
      var m :| IsMin(rest, m);
      var w := if y < m then y else m;
      assert IsMin(s, w) by {
        forall x | x in s ensures w <= x {
          if x != y { assert x in rest; }
        }
      }
    }
  }

  /** The least element of a non-empty set of rows. */
  ghost function Min(s: set<nat>): (m: nat)
    requires s != {}
    ensures m in s && forall x :: x in s ==> m <= x
  {
    MinExists(s);
    var m :| IsMin(s, m);
    m
  }

  /** The rows of `s` in the order a selection hands them out: ascending. */
  ghost function Ascending(s: set<nat>): (rows: seq<nat>)
    decreases |s|
  {
    if s == {} then [] else [Min(s)] + Ascending(s - {Min(s)})
  }

  /** Ascending order lists each selected row once, and nothing else. */
  lemma {:induction false} AscendingEnumerates(s: set<nat>)
    ensures StrictlyIncreasing(Ascending(s))
    ensures |Ascending(s)| == |s|
    ensures forall x :: x in Ascending(s) <==> x in s
    decreases |s|
  {
    if s != {} {
      var m := Min(s);
      AscendingEnumerates(s - {m});
      var t := Ascending(s - {m});
      var a := Ascending(s);
      assert a == [m] + t;
      assert |s - {m}| == |s| - 1;
      forall i, j | 0 <= i < j < |a| ensures a[i] < a[j] {
        assert a[j] == t[j - 1];
        if i == 0 {
          assert t[j - 1] in s - {m};
        } else {
          assert a[i] == t[i - 1];
        }
      }
      forall x ensures x in a <==> x in s {
        assert x in a <==> x == m || x in t;
      }
    }
  }

  /** If the least row that is picked is the minimum, the iteration goes on with the rest. */
  lemma AscendingStep(s: set<nat>, m: nat)
    requires m in s && forall x :: x in s ==> m <= x
    ensures Ascending(s) == [m] + Ascending(s - {m})
  {
    assert Min(s) == m;
  }

  /** Once an ascending sequence reaches `bound`, the rows below `bound` are all in the part before. */
  lemma IncreasingTail(rows: seq<nat>, k: nat, bound: nat)
    requires StrictlyIncreasing(rows) && k < |rows| && rows[k] >= bound
    ensures forall i :: 0 <= i < bound ==> (i in rows <==> i in rows[..k])
  {
    forall i | 0 <= i < bound && i in rows ensures i in rows[..k] {
      var j :| 0 <= j < |rows| && rows[j] == i;
      assert j < k;
      assert rows[..k][j] == i;
    }
  }

  /** The rows an enumeration lists. */
  function Members(a: seq<nat>): (r: set<nat>)
    ensures forall x :: x in r <==> x in a
  {
    set x | x in a
  }

  /** One more entry of an enumeration adds one row. */
  lemma MembersNext(a: seq<nat>, k: nat)
    requires k < |a|
    ensures Members(a[..k + 1]) == Members(a[..k]) + {a[k]}
  {
    assert a[..k + 1] == a[..k] + [a[k]];
  }

  /** When every entry of the ascending enumeration of `sel` is below `bound`, so is
      every row of `sel`; an entry at or beyond `bound` is a row of `sel`. */
  lemma EnumeratedBelow(sel: set<nat>, k: nat, bound: nat)
    requires k <= |Ascending(sel)|
    requires forall j :: 0 <= j < k ==> Ascending(sel)[j] < bound
    requires k < |Ascending(sel)| ==> Ascending(sel)[k] >= bound
    ensures k == |Ascending(sel)| <==> forall x :: x in sel ==> x < bound
  {
    var rows := Ascending(sel);
    AscendingEnumerates(sel);
    if k == |rows| {
      forall x | x in sel ensures x < bound {
        var j :| 0 <= j < |rows| && rows[j] == x;
      }
    } else {
      assert rows[k] in sel;
    }
  }

  /** The rows of the half-open range [start, end). */
  function RowRange(start: nat, end: nat): (r: set<nat>)
    ensures forall i :: i in r <==> start <= i < end
    decreases end
  {
    if end <= start then {} else RowRange(start, end - 1) + {end - 1}
  }

  /** A set of row indices, as a bitmap-backed selection holds it. */
  class Selection {
    var rows: set<nat>

    /** An empty selection. */
    constructor ()
      ensures rows == {}
    {
      rows := {};
    }

    /** Selects one more row. */
    method Add(i: nat)
      modifies this
      ensures rows == old(rows) + {i}
    {
      rows := rows + {i};
    }

    /** Selects every row in the half-open range [start, end). */
    method AddRange(start: nat, end: nat)
      modifies this
      ensures rows == old(rows) + RowRange(start, end)
    {
      rows := rows + RowRange(start, end);
    }

    /** Deselects every row that `other` selects. */
    method AndNot(other: Selection)
      modifies this
      ensures rows == old(rows) - old(other.rows)
    {
      rows := rows - other.rows;
    }

    /** The selected rows in iteration order. */
    method ToArray() returns (a: seq<nat>)
      ensures a == Ascending(rows)
    {
      a := [];
      var rest := rows;
      while rest != {}
        invariant a + Ascending(rest) == Ascending(rows)
        decreases |rest|
      {
        MinExists(rest);
        var m :| IsMin(rest, m);
        AscendingStep(rest, m);
        a := a + [m];
        rest := rest - {m};
      }
    }
  }
}
