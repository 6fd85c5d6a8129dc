/** What the column's operations compute, stated on the sequence of rows
    alone: missing rows, counts, filters, membership and the lag window. */
module Rows {
  import opened Wrappers
  import opened Selections

  /** The missing-value indicator of text columns: the empty string. */
  const MISSING: string := ""

  /** What is stored for a nullable argument: `null` becomes the missing indicator. */
  function Normalize(v: Option<string>): (r: string)
    ensures v.Some? ==> r == v.value
    ensures v.None? ==> r == MISSING
  {
    if v.None? then MISSING else v.value
  }

  /** The rows stored for a list of nullable arguments, one each, in order. */
  function Normalized(vs: seq<Option<string>>): (r: seq<string>)
    ensures |r| == |vs| && forall i :: 0 <= i < |vs| ==> r[i] == Normalize(vs[i])
  {
    seq(|vs|, i requires 0 <= i < |vs| => Normalize(vs[i]))
  }

  /** `n` missing rows. */
  function Missings(n: nat): (r: seq<string>)
    ensures |r| == n && forall i :: 0 <= i < n ==> r[i] == MISSING
  {
    seq(n, _ => MISSING)
  }

  /** The number of rows equal to `v`, counted in a front-to-back scan. */
  function Occurrences(s: seq<string>, v: string): (count: nat)
  {
    if s == [] then 0
    else Occurrences(s[..|s| - 1], v) + (if s[|s| - 1] == v then 1 else 0)
  }

  /** The scan counts exactly the multiplicity of `v` among the rows. */
  lemma {:induction false} OccurrencesIsMultiplicity(s: seq<string>, v: string)
    ensures Occurrences(s, v) == multiset(s)[v]
  {
    if s != [] {
      OccurrencesIsMultiplicity(s[..|s| - 1], v);
      assert s == s[..|s| - 1] + [s[|s| - 1]];
    }
  }

  /** The indices of the rows whose value is in `values`: what a membership query selects. */
  function Matching(s: seq<string>, values: set<string>): (r: set<nat>)
    ensures forall i: nat :: i in r <==> i < |s| && s[i] in values
  {
    set i: nat | i < |s| && s[i] in values
  }

  /** The number of rows selected as equal to `v` is the number the scan counts. */
  lemma {:induction false} MatchingCount(s: seq<string>, v: string)
    ensures |Matching(s, {v})| == Occurrences(s, v)
  {
    if s == [] {
      assert Matching(s, {v}) == {};
    } else {
      var front := s[..|s| - 1];
      MatchingCount(front, v);
      if s[|s| - 1] == v {
        assert Matching(s, {v}) == Matching(front, {v}) + {|front|};
      } else {
        assert Matching(s, {v}) == Matching(front, {v});
      }
    }
  }

  /** The complement over all rows, taken as a difference, is the negated scan,
      and the two queries split the rows between them. */
  lemma ComplementPartitions(s: seq<string>, values: set<string>)
    ensures RowRange(0, |s|) - Matching(s, values) == set i: nat | i < |s| && s[i] !in values
    ensures Matching(s, values) <= RowRange(0, |s|)
    ensures forall i: nat :: i < |s| ==> (i in Matching(s, values) <==> i !in RowRange(0, |s|) - Matching(s, values))
  {
  }

  /** The non-missing rows in their original order. */
  function NonMissing(s: seq<string>): (kept: seq<string>)
  {
    if s == [] then []
    else NonMissing(s[..|s| - 1]) + (if s[|s| - 1] == MISSING then [] else [s[|s| - 1]])
  }

  /** Dropping the missing rows drops exactly as many rows as are missing, and
      only those: every other row is kept as often as it occurs. */
  lemma {:induction false} NonMissingContents(s: seq<string>)
    ensures |NonMissing(s)| == |s| - Occurrences(s, MISSING)
    ensures multiset(NonMissing(s)) == multiset(s)[MISSING := 0]
  {
    if s != [] {
      var front := s[..|s| - 1];
      var last := s[|s| - 1];
      NonMissingContents(front);
      assert s == front + [last];
      assert multiset(s) == multiset(front) + multiset{last};
      if last == MISSING {
        assert NonMissing(s) == NonMissing(front);
        assert multiset(s)[MISSING := 0] == multiset(front)[MISSING := 0];
      } else {
        assert NonMissing(s) == NonMissing(front) + [last];
        assert multiset(NonMissing(s)) == multiset(NonMissing(front)) + multiset{last};
        assert multiset(s)[MISSING := 0] == multiset(front)[MISSING := 0] + multiset{last};
      }
    }
  }

  function Max(a: int, b: int): (m: int) { if a < b then b else a }

  function Abs(n: int): (a: nat) { if n < 0 then -n else n }

  /** The rows of `s` shifted down by `n` (up, for negative `n`): row `i` holds
      row `i - n` of the source when there is one, and is missing otherwise.
      There are as many rows as the source has, or |n| when that is more. */
  function Lagged(s: seq<string>, n: int): (window: seq<string>)
  {
    seq(Max(|s|, Abs(n)), i => if 0 <= i - n < |s| then s[i - n] else MISSING)
  }

  /** The lag window as its two loops build it: for `n >= 0`, `n` missing rows and
      then the source up to where it runs out; for `n < 0`, the source from row
      `-n` on and then `-n` missing rows. */
  lemma LaggedAsBuilt(s: seq<string>, n: int)
    ensures n >= 0 ==> Lagged(s, n) == Missings(n) + s[..Max(0, |s| - n)]
    ensures n < 0 && -n <= |s| ==> Lagged(s, n) == s[-n..] + Missings(-n)
    ensures n < 0 && -n > |s| ==> Lagged(s, n) == Missings(-n)
  {
    if n >= 0 {
      var b := Missings(n) + s[..Max(0, |s| - n)];
      assert |b| == |Lagged(s, n)|;
      forall i | 0 <= i < |b| ensures b[i] == Lagged(s, n)[i] {
        if i >= n { assert b[i] == s[..Max(0, |s| - n)][i - n]; }
      }
    } else if -n <= |s| {
      var b := s[-n..] + Missings(-n);
      assert |b| == |Lagged(s, n)|;
      forall i | 0 <= i < |b| ensures b[i] == Lagged(s, n)[i] {
        if i < |s| + n { assert b[i] == s[-n..][i]; }
      }
    }
  }

  /** Leading a lagged window back undoes the lag except for the rows the lag
      pushed off the end, which come back missing. */
  lemma LagThenLead(s: seq<string>, n: int)
    requires 0 <= n <= |s|
    ensures Lagged(Lagged(s, n), -n) == s[..|s| - n] + Missings(n)
  {
    var l := Lagged(s, n);
    var b := s[..|s| - n] + Missings(n);
    assert |Lagged(l, -n)| == |b|;
    forall i | 0 <= i < |b| ensures Lagged(l, -n)[i] == b[i] {
      if i < |s| - n { assert b[i] == s[i]; }
    }
  }

  /** A slice grows by the row just past its end. */
  lemma SliceExtend(s: seq<string>, a: nat, b: nat)
    requires a <= b < |s|
    ensures s[a..b + 1] == s[a..b] + [s[b]]
  {
  }

  /** The rows of `s` with every row in `sel` set to `v`: what a bulk update by a
      selection leaves behind. Selected rows beyond the end change nothing. */
  function Assigned(s: seq<string>, sel: set<nat>, v: string): (r: seq<string>)
    ensures |r| == |s| && forall i :: 0 <= i < |s| ==> r[i] == if i in sel then v else s[i]
  {
    seq(|s|, i requires 0 <= i < |s| => if i in sel then v else s[i])
  }

  /** Setting one more existing row to `v` adds that row to the assigned set. */
  lemma AssignedNext(orig: seq<string>, done: set<nat>, x: nat, v: string)
    requires x < |orig|
    ensures Assigned(orig, done, v)[x := v] == Assigned(orig, done + {x}, v)
  {
  }

  /** The first `k` rows of the ascending enumeration of `sel`, when they are all of
      them or stop at a row beyond the end, reach every selected row that exists. */
  lemma AssignedByPrefix(orig: seq<string>, sel: set<nat>, k: nat, v: string)
    requires k <= |Ascending(sel)|
    requires k < |Ascending(sel)| ==> Ascending(sel)[k] >= |orig|
    ensures Assigned(orig, Members(Ascending(sel)[..k]), v) == Assigned(orig, sel, v)
  {
    var rows := Ascending(sel);
    AscendingEnumerates(sel);
    if k < |rows| {
      IncreasingTail(rows, k, |orig|);
    } else {
      assert rows[..k] == rows;
    }
  }

  /** Each row occurs once. */
  ghost predicate Distinct(s: seq<string>)
  {
    forall i, j :: 0 <= i < j < |s| ==> s[i] != s[j]
  }

  /** A column has at most as many distinct values as rows. */
  lemma {:induction false} DistinctBound(s: seq<string>)
    ensures |set x | x in s| <= |s|
  {
    if s != [] {
      var front := s[..|s| - 1];
      DistinctBound(front);
      assert (set x | x in s) == (set x | x in front) + {s[|s| - 1]} by {
        assert s == front + [s[|s| - 1]];
      }
    }
  }

  /** The position of the first row equal to `v`, or -1 when there is none. */
  function IndexOf(s: seq<string>, v: string): (r: int)
    ensures -1 <= r < |s|
    ensures r == -1 <==> v !in s
    ensures r >= 0 ==> s[r] == v && v !in s[..r]
  {
    if s == [] then -1
    else if s[0] == v then 0
    else
      var k := IndexOf(s[1..], v);
      assert s == [s[0]] + s[1..];
      if k == -1 then -1 else (assert s[..k + 1] == [s[0]] + s[1..][..k]; k + 1)
  }
}
