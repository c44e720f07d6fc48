/** Row selections shared by the repositories: `WHERE` as a filter, `ORDER BY ... DESC` as a reversal. */
module Tables {
  import opened Wrappers

  /** The rows that satisfy `keep`, in their stored order. */
  function Filter<R>(rows: seq<R>, keep: R -> bool): (r: seq<R>)
    ensures |r| <= |rows|
  {
    if rows == [] then []
    else (if keep(rows[0]) then [rows[0]] else []) + Filter(rows[1..], keep)
  }

  /** Filter keeps exactly the rows that satisfy `keep`: each kept row is one of `rows`, and none is lost. */
  lemma {:induction false} FilterSpec<R>(rows: seq<R>, keep: R -> bool)
    ensures forall i :: 0 <= i < |Filter(rows, keep)| ==> Filter(rows, keep)[i] in rows && keep(Filter(rows, keep)[i])
    ensures forall i :: 0 <= i < |rows| && keep(rows[i]) ==> rows[i] in Filter(rows, keep)
  {
    if rows != [] {
      FilterSpec(rows[1..], keep);
      var r, rest := Filter(rows, keep), Filter(rows[1..], keep);
      forall i | 0 <= i < |rows| && keep(rows[i]) ensures rows[i] in r {
        if i > 0 {
          assert rows[i] == rows[1..][i - 1];
        }
      }
    }
  }

  function Reverse<R>(s: seq<R>): (r: seq<R>)
    ensures |r| == |s| && forall i :: 0 <= i < |s| ==> r[i] == s[|s| - 1 - i]
  {
    if s == [] then [] else Reverse(s[1..]) + [s[0]]
  }

  /** `stamp` never decreases along `s`: the order in which rows were inserted. */
  predicate Chronological<R>(s: seq<R>, stamp: R -> int) {
    forall i, j :: 0 <= i < j < |s| ==> stamp(s[i]) <= stamp(s[j])
  }

  /** `ORDER BY stamp DESC`: `stamp` never increases along `s`. */
  predicate NewestFirst<R>(s: seq<R>, stamp: R -> int) {
    forall i, j :: 0 <= i < j < |s| ==> stamp(s[i]) >= stamp(s[j])
  }

  /** A row stamped no earlier than every stored row keeps the rows in insertion order. */
  lemma AppendChronological<R>(s: seq<R>, x: R, stamp: R -> int)
    requires Chronological(s, stamp) && forall y <- s :: stamp(y) <= stamp(x)
    ensures Chronological(s + [x], stamp)
  {
    var t := s + [x];
    forall i, j | 0 <= i < j < |t| ensures stamp(t[i]) <= stamp(t[j]) {
      assert t[i] == s[i];
      if j < |s| {
        assert t[j] == s[j];
      } else {
        assert s[i] in s;
      }
    }
  }

  /** A row whose key exceeds every stored key keeps the keys strictly increasing. */
  lemma AppendAscending<R>(s: seq<R>, x: R, key: R -> int)
    requires Ascending(s, key) && forall y <- s :: key(y) < key(x)
    ensures Ascending(s + [x], key)
  {
    var t := s + [x];
    forall i, j | 0 <= i < j < |t| ensures key(t[i]) < key(t[j]) {
      assert t[i] == s[i];
      if j < |s| {
        assert t[j] == s[j];
      } else {
        assert s[i] in s;
      }
    }
  }

  /** Filtering keeps rows in their relative order. */
  lemma {:induction false} FilterChronological<R>(rows: seq<R>, keep: R -> bool, stamp: R -> int)
    requires Chronological(rows, stamp)
    ensures Chronological(Filter(rows, keep), stamp)
  {
    if rows != [] {
      FilterChronological(rows[1..], keep, stamp);
      FilterSpec(rows[1..], keep);
      var rest := Filter(rows[1..], keep);
      forall j | 0 <= j < |rest| ensures stamp(rows[0]) <= stamp(rest[j]) {
        assert rest[j] in rows[1..];
      }
    }
  }

  /** `key` strictly increases along `s`: ids handed out by a counter, in insertion order. */
  predicate Ascending<R>(s: seq<R>, key: R -> int) {
    forall i, j :: 0 <= i < j < |s| ==> key(s[i]) < key(s[j])
  }

  /** A strictly increasing key is a unique key: two positions with one key are one position. */
  lemma AscendingDistinct<R>(s: seq<R>, key: R -> int, i: nat, j: nat)
    requires Ascending(s, key) && i < |s| && j < |s| && key(s[i]) == key(s[j])
    ensures i == j
  {
  }

  /** Filtering keeps a strictly increasing key strictly increasing. */
  lemma {:induction false} FilterAscending<R>(rows: seq<R>, keep: R -> bool, key: R -> int)
    requires Ascending(rows, key)
    ensures Ascending(Filter(rows, keep), key)
  {
    if rows != [] {
      FilterAscending(rows[1..], keep, key);
      FilterSpec(rows[1..], keep);
      var rest := Filter(rows[1..], keep);
      forall j | 0 <= j < |rest| ensures key(rows[0]) < key(rest[j]) {
        assert rest[j] in rows[1..];
      }
    }
  }

  /** Reversal keeps every row. */
  lemma ReverseContains<R>(s: seq<R>, x: R)
    requires x in s
    ensures x in Reverse(s)
  {
    var k :| 0 <= k < |s| && s[k] == x;
    assert Reverse(s)[|s| - 1 - k] == x;
  }

  /** Reversing rows in insertion order lists the newest first. */
  lemma ReverseNewestFirst<R>(s: seq<R>, stamp: R -> int)
    requires Chronological(s, stamp)
    ensures NewestFirst(Reverse(s), stamp)
  {
  }

  /** Filtering with a condition every row meets changes nothing. */
  lemma {:induction false} FilterAll<R>(rows: seq<R>, keep: R -> bool)
    requires forall i :: 0 <= i < |rows| ==> keep(rows[i])
    ensures Filter(rows, keep) == rows
  {
    if rows != [] {
      FilterAll(rows[1..], keep);
    }
  }

  /** Filtering drops a row exactly when some row fails the condition. */
  lemma {:induction false} FilterShrinks<R>(rows: seq<R>, keep: R -> bool)
    ensures |Filter(rows, keep)| < |rows| <==> exists i :: 0 <= i < |rows| && !keep(rows[i])
  {
    if rows != [] {
      FilterShrinks(rows[1..], keep);
      if exists i :: 0 <= i < |rows| - 1 && !keep(rows[1..][i]) {
        var i :| 0 <= i < |rows| - 1 && !keep(rows[1..][i]);
        assert !keep(rows[i + 1]);
      }
      if exists i :: 0 <= i < |rows| && !keep(rows[i]) {
        var i :| 0 <= i < |rows| && !keep(rows[i]);
        if i > 0 {
          assert !keep(rows[1..][i - 1]);
        }
      }
    }
  }

  /** Position of the first row satisfying `keep`, if any (a `WHERE` on a unique key finds at most one). */
  function IndexWhere<R>(rows: seq<R>, keep: R -> bool): (r: Option<nat>)
    ensures r.Some? ==> r.value < |rows| && keep(rows[r.value])
    ensures r.Some? ==> forall i :: 0 <= i < r.value ==> !keep(rows[i])
    ensures r.None? ==> forall i :: 0 <= i < |rows| ==> !keep(rows[i])
  {
    if rows == [] then None
    else if keep(rows[0]) then Some(0)
    else match IndexWhere(rows[1..], keep)
      case None => None
      case Some(i) => Some(i + 1)
  }

  /** The first row satisfying `keep`, if any. */
  function Find<R>(rows: seq<R>, keep: R -> bool): (r: Option<R>)
    ensures r.Some? ==> r.value in rows && keep(r.value)
    ensures r.None? ==> forall i :: 0 <= i < |rows| ==> !keep(rows[i])
  {
    match IndexWhere(rows, keep)
    case Some(i) => Some(rows[i])
    case None => None
  }

  /**
   * `SELECT ... WHERE <keep> ORDER BY stamp DESC` over rows stored in insertion order: every
   * kept row, and only those, newest first.
   */
  lemma SelectNewestFirst<R>(rows: seq<R>, keep: R -> bool, stamp: R -> int)
    requires Chronological(rows, stamp)
    ensures var r := Reverse(Filter(rows, keep));
      && NewestFirst(r, stamp)
      && (forall i :: 0 <= i < |r| ==> r[i] in rows && keep(r[i]))
      && (forall i :: 0 <= i < |rows| && keep(rows[i]) ==> rows[i] in r)
  {
    var owned := Filter(rows, keep);
    FilterSpec(rows, keep);
    FilterChronological(rows, keep, stamp);
    ReverseNewestFirst(owned, stamp);
    forall i | 0 <= i < |rows| && keep(rows[i]) ensures rows[i] in Reverse(owned) {
      ReverseContains(owned, rows[i]);
    }
  }

  /** Appending a row appends it to every selection it satisfies, and to no other. */
  lemma {:induction false} FilterAppend<R>(rows: seq<R>, x: R, keep: R -> bool)
    ensures Filter(rows + [x], keep) == Filter(rows, keep) + (if keep(x) then [x] else [])
  {
    if rows != [] {
      assert (rows + [x])[1..] == rows[1..] + [x];
      FilterAppend(rows[1..], x, keep);
    } else {
      assert rows + [x] == [x];
    }
  }
}
