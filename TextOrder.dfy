/** The natural order of strings (Java's `String.compareTo`) and the sort the
    column applies to its rows in either direction. */
module TextOrder {

  /** Java's `compareTo`: the difference of the first pair of differing
      characters, or else the difference of the lengths. */
  function CompareTo(a: string, b: string): (c: int)
  {
    if a == [] || b == [] then |a| - |b|
    else if a[0] != b[0] then a[0] as int - b[0] as int
    else CompareTo(a[1..], b[1..])
  }

  /** Swapping the operands negates the comparison. */
  lemma {:induction false} CompareToAntisymmetric(a: string, b: string)
    ensures CompareTo(a, b) == -CompareTo(b, a)
  {
    if a != [] && b != [] && a[0] == b[0] {
      CompareToAntisymmetric(a[1..], b[1..]);
    }
  }

  /** A comparison is zero exactly for equal strings. */
  lemma {:induction false} CompareToZero(a: string, b: string)
    ensures CompareTo(a, b) == 0 <==> a == b
  {
    if a != [] && b != [] && a[0] == b[0] {
      CompareToZero(a[1..], b[1..]);
      assert a == [a[0]] + a[1..] && b == [b[0]] + b[1..];
    }
  }

  /** "Not greater than" is transitive. */
  lemma {:induction false} CompareToTransitive(a: string, b: string, c: string)
    requires CompareTo(a, b) <= 0 && CompareTo(b, c) <= 0
    ensures CompareTo(a, c) <= 0
  {
    if a != [] && b != [] && c != [] && a[0] == b[0] && b[0] == c[0] {
      CompareToTransitive(a[1..], b[1..], c[1..]);
    }
  }

  /** Whether `a` may stand before `b`: natural order, or its reverse
      (`Comparator.reverseOrder()`) when `descending`. */
  predicate InOrder(a: string, b: string, descending: bool)
  {
    if descending then CompareTo(b, a) <= 0 else CompareTo(a, b) <= 0
  }

  lemma InOrderTotal(a: string, b: string, descending: bool)
    ensures InOrder(a, b, descending) || InOrder(b, a, descending)
  {
    CompareToAntisymmetric(a, b);
  }

  lemma InOrderTransitive(a: string, b: string, c: string, descending: bool)
    requires InOrder(a, b, descending) && InOrder(b, c, descending)
    ensures InOrder(a, c, descending)
  {
    if descending {
      CompareToTransitive(c, b, a);
    } else {
      CompareToTransitive(a, b, c);
    }
  }

  /** Every row may stand before every later row. */
  ghost predicate Sorted(s: seq<string>, descending: bool)
  {
    forall i, j :: 0 <= i < j < |s| ==> InOrder(s[i], s[j], descending)
  }

  /** Inserts `x` before the first row it may stand before. */
  function Insert(x: string, s: seq<string>, descending: bool): (r: seq<string>)
  {
    if s == [] then [x]
    else if InOrder(x, s[0], descending) then [x] + s
    else [s[0]] + Insert(x, s[1..], descending)
  }

  /** The sorted rows, by insertion. */
  function SortBy(s: seq<string>, descending: bool): (sorted: seq<string>)
  {
    if s == [] then [] else Insert(s[0], SortBy(s[1..], descending), descending)
  }

  lemma {:induction false} InsertPermutes(x: string, s: seq<string>, descending: bool)
    ensures multiset(Insert(x, s, descending)) == multiset(s) + multiset{x}
  {
    if s != [] && !InOrder(x, s[0], descending) {
      InsertPermutes(x, s[1..], descending);
      assert s == [s[0]] + s[1..];
    }
  }

  /** `y` may stand before every row of `s`. */
  ghost predicate AllAfter(y: string, s: seq<string>, descending: bool)
  {
    forall k :: 0 <= k < |s| ==> InOrder(y, s[k], descending)
  }

  lemma SortedCons(a: string, t: seq<string>, descending: bool)
    ensures Sorted([a] + t, descending) <==> AllAfter(a, t, descending) && Sorted(t, descending)
  {
    var r := [a] + t;
    if AllAfter(a, t, descending) && Sorted(t, descending) {
      forall i, j | 0 <= i < j < |r| ensures InOrder(r[i], r[j], descending) {
        if i == 0 {
          assert r[j] == t[j - 1];
        } else {
          assert r[i] == t[i - 1] && r[j] == t[j - 1];
        }
      }
    }
    if Sorted(r, descending) {
      forall k | 0 <= k < |t| ensures InOrder(a, t[k], descending) {
        assert r[0] == a && r[k + 1] == t[k];
      }
      forall i, j | 0 <= i < j < |t| ensures InOrder(t[i], t[j], descending) {
        assert r[i + 1] == t[i] && r[j + 1] == t[j];
      }
    }
  }

  lemma {:induction false} InsertBounded(y: string, x: string, s: seq<string>, descending: bool)
    requires InOrder(y, x, descending) && AllAfter(y, s, descending)
    ensures AllAfter(y, Insert(x, s, descending), descending)
  {
    if s != [] && !InOrder(x, s[0], descending) {
      InsertBounded(y, x, s[1..], descending);
      var t := Insert(x, s[1..], descending);
      assert Insert(x, s, descending) == [s[0]] + t;
      forall k | 0 <= k < |[s[0]] + t| ensures InOrder(y, ([s[0]] + t)[k], descending) {
        if k > 0 { assert ([s[0]] + t)[k] == t[k - 1]; }
      }
    }
  }

  lemma {:induction false} InsertSorted(x: string, s: seq<string>, descending: bool)
    requires Sorted(s, descending)
    ensures Sorted(Insert(x, s, descending), descending)
  {
    if s == [] {
    } else if InOrder(x, s[0], descending) {
      forall k | 0 <= k < |s| ensures InOrder(x, s[k], descending) {
        if k > 0 { InOrderTransitive(x, s[0], s[k], descending); }
      }
      SortedCons(x, s, descending);
    } else {
      InOrderTotal(x, s[0], descending);
      assert s == [s[0]] + s[1..];
      SortedCons(s[0], s[1..], descending);
      InsertBounded(s[0], x, s[1..], descending);
      InsertSorted(x, s[1..], descending);
      SortedCons(s[0], Insert(x, s[1..], descending), descending);
    }
  }

  /** The sort orders the rows and keeps every row, duplicates included. */
  lemma {:induction false} SortBySortsAndPermutes(s: seq<string>, descending: bool)
    ensures Sorted(SortBy(s, descending), descending)
    ensures multiset(SortBy(s, descending)) == multiset(s)
  {
    if s != [] {
      SortBySortsAndPermutes(s[1..], descending);
      InsertSorted(s[0], SortBy(s[1..], descending), descending);
      InsertPermutes(s[0], SortBy(s[1..], descending), descending);
      assert s == [s[0]] + s[1..];
    }
  }
}
