/**
 * `search_clinics(view, q, limit)`: the SELECT it builds, as a filter, an
 * ORDER BY and a LIMIT over the rows of the `clinics` table.
 */
module Search {
  import opened Wrappers
  import opened Text
  import opened Schema

  /** `kind=?` is added only when the view names one of the two categories. */
  predicate MatchesView(c: Clinic, view: string) {
    (view == Ambassadors || view == Authorized) ==> c.kind == view
  }

  /** A non-empty `q`: `name LIKE '%q%' OR address LIKE '%q%' OR city LIKE '%q%'`; a NULL city never matches. */
  predicate MatchesQuery(c: Clinic, q: string) {
    || q == []
    || ContainsIgnoreCase(c.name, q)
    || ContainsIgnoreCase(c.address, q)
    || (c.city.Some? && ContainsIgnoreCase(c.city.value, q))
  }

  predicate Matches(c: Clinic, view: string, q: string) {
    MatchesView(c, view) && MatchesQuery(c, q)
  }

  /** The WHERE clause, in rowid order. */
  function Filter(rows: seq<Clinic>, view: string, q: string): (r: seq<Clinic>)
    ensures forall c :: c in r <==> c in rows && Matches(c, view, q)
    ensures |r| <= |rows|
  {
    if rows == [] then []
    else if Matches(rows[0], view, q) then [rows[0]] + Filter(rows[1..], view, q)
    else Filter(rows[1..], view, q)
  }

  /** `ORDER BY city IS NULL, city, name`, with SQLite's BINARY text comparison. */
  predicate RowLe(a: Clinic, b: Clinic) {
    match (a.city, b.city)
    case (Some(_), None) => true
    case (None, Some(_)) => false
    case (Some(x), Some(y)) => LexLt(x, y) || (x == y && LexLe(a.name, b.name))
    case (None, None) => LexLe(a.name, b.name)
  }

  lemma RowLeTotal(a: Clinic, b: Clinic)
    ensures RowLe(a, b) || RowLe(b, a)
  {
    LexLeTotal(a.name, b.name);
    if a.city.Some? && b.city.Some? {
      LexLeTotal(a.city.value, b.city.value);
    }
  }

  lemma RowLeTransitive(a: Clinic, b: Clinic, c: Clinic)
    requires RowLe(a, b) && RowLe(b, c)
    ensures RowLe(a, c)
  {
    if a.city.Some? && b.city.Some? && c.city.Some? {
      var x, y, z := a.city.value, b.city.value, c.city.value;
      if x == y && y == z {
        LexLeTransitive(a.name, b.name, c.name);
      } else if x == y {
        assert LexLt(y, z);
      } else if y == z {
        assert LexLt(x, y);
      } else {
        LexLeTransitive(x, y, z);
        if x == z {
          LexLeAntisymmetric(x, y);
        }
      }
    } else if a.city.None? && b.city.None? && c.city.None? {
      LexLeTransitive(a.name, b.name, c.name);
    }
  }

  ghost predicate Sorted(s: seq<Clinic>) {
    forall i, j :: 0 <= i < j < |s| ==> RowLe(s[i], s[j])
  }

  /** Insertion into a sorted list. */
  function Insert(x: Clinic, s: seq<Clinic>): (r: seq<Clinic>)
    ensures multiset(r) == multiset(s) + multiset{x}
    ensures |r| == |s| + 1
  {
    if s == [] then [x]
    else if RowLe(x, s[0]) then [x] + s
    else
      assert s == [s[0]] + s[1..];
      [s[0]] + Insert(x, s[1..])
  }

  /** The ordered result before the LIMIT. */
  function Sort(s: seq<Clinic>): (r: seq<Clinic>)
    ensures multiset(r) == multiset(s)
    ensures |r| == |s|
  {
    if s == [] then []
    else
      assert s == [s[0]] + s[1..];
      Insert(s[0], Sort(s[1..]))
  }

  /** The rows of `Insert(x, s)` are `x` and the rows of `s`. */
  lemma InsertMembers(x: Clinic, s: seq<Clinic>)
    ensures forall y :: y in Insert(x, s) <==> y == x || y in s
  {
    var r := Insert(x, s);
    forall y ensures y in r <==> y == x || y in s {
      assert y in r <==> y in multiset(r);
      assert y in s <==> y in multiset(s);
    }
  }

  lemma {:induction false} InsertSorted(x: Clinic, s: seq<Clinic>)
    requires Sorted(s)
    ensures Sorted(Insert(x, s))
  {
    if s != [] && !RowLe(x, s[0]) {
      RowLeTotal(x, s[0]);
      InsertSorted(x, s[1..]);
      InsertMembers(x, s[1..]);
      var r := Insert(x, s);
      var tail := Insert(x, s[1..]);
      assert r == [s[0]] + tail;
      forall j | 0 <= j < |tail| ensures RowLe(s[0], tail[j]) {
        assert tail[j] in tail;
        if tail[j] != x {
          var k :| 0 <= k < |s[1..]| && s[1..][k] == tail[j];
          assert tail[j] == s[k + 1];
        }
      }
      forall i, j | 0 <= i < j < |r| ensures RowLe(r[i], r[j]) {
        if i == 0 {
          assert r[j] == tail[j - 1];
        } else {
          assert r[i] == tail[i - 1] && r[j] == tail[j - 1];
        }
      }
    } else if s != [] {
      var r := Insert(x, s);
      forall i, j | 0 <= i < j < |r| ensures RowLe(r[i], r[j]) {
        if i == 0 && j > 1 {
          RowLeTransitive(x, s[0], s[j - 1]);
        }
      }
    }
  }

  lemma {:induction false} SortSorted(s: seq<Clinic>)
    ensures Sorted(Sort(s))
  {
    if s != [] {
      SortSorted(s[1..]);
      InsertSorted(s[0], Sort(s[1..]));
    }
  }

  /** SQLite's LIMIT: a negative limit means no limit. */
  function Limit(s: seq<Clinic>, limit: int): (r: seq<Clinic>)
    ensures 0 <= limit ==> |r| <= limit
    ensures |r| <= |s| && r == s[..|r|]
    ensures limit < 0 || |s| <= limit ==> r == s
    ensures 0 <= limit < |s| ==> |r| == limit
  {
    if 0 <= limit < |s| then s[..limit] else s
  }

  /** `search_clinics`: filter, order, then take at most `limit` rows. */
  function SearchClinics(rows: seq<Clinic>, view: string, q: string, limit: int): (r: seq<Clinic>)
    ensures |r| <= |rows|
    ensures 0 <= limit ==> |r| <= limit
    ensures limit < 0 ==> |r| == |Filter(rows, view, q)|
    ensures limit < 0 ==> multiset(r) == multiset(Filter(rows, view, q))
  {
    Limit(Sort(Filter(rows, view, q)), limit)
  }

  /**
   * Every returned row is a row of the table that passes the filter: it has
   * the requested kind when the view names a category, and, when `q` is
   * non-empty, contains `q` (ASCII case folded) in its name, address or city.
   */
  lemma SearchReturnsMatchingRows(rows: seq<Clinic>, view: string, q: string, limit: int)
    ensures forall c :: c in SearchClinics(rows, view, q, limit) ==>
      && c in rows
      && ((view == Ambassadors || view == Authorized) ==> c.kind == view)
      && (q != [] ==>
            || (exists i :: OccursIgnoringCaseAt(c.name, q, i))
            || (exists i :: OccursIgnoringCaseAt(c.address, q, i))
            || (c.city.Some? && exists i :: OccursIgnoringCaseAt(c.city.value, q, i)))
  {
    var all := Sort(Filter(rows, view, q));
    var r := SearchClinics(rows, view, q, limit);
    forall c | c in r ensures c in Filter(rows, view, q) {
      assert c in multiset(all);
    }
  }

  /** The result is ordered: non-NULL cities first, ascending by city, then by name. */
  lemma SearchSorted(rows: seq<Clinic>, view: string, q: string, limit: int)
    ensures var r := SearchClinics(rows, view, q, limit);
      forall i, j :: 0 <= i < j < |r| ==> RowLe(r[i], r[j])
  {
    SortSorted(Filter(rows, view, q));
  }

  /** A row of a sorted list that is missing from a prefix of it sorts after every row of the prefix. */
  lemma SortedPrefixBefore(all: seq<Clinic>, n: nat, c: Clinic)
    requires Sorted(all) && n <= |all|
    requires c in all && c !in all[..n]
    ensures forall x :: x in all[..n] ==> RowLe(x, c)
  {
    var p :| 0 <= p < |all| && all[p] == c;
    assert forall k :: 0 <= k < n ==> all[k] == all[..n][k] && all[k] != c;
    forall x | x in all[..n] ensures RowLe(x, c) {
      var i :| 0 <= i < n && all[..n][i] == x;
    }
  }

  /**
   * The LIMIT only cuts the tail: at most `limit` rows; all matching rows when
   * no more than `limit` match; and any matching row left out sorts after
   * every row returned.
   */
  lemma SearchIsSortedPrefix(rows: seq<Clinic>, view: string, q: string, limit: int)
    ensures var r := SearchClinics(rows, view, q, limit);
      && (0 <= limit ==> |r| <= limit)
      && (limit < 0 || |Filter(rows, view, q)| <= limit ==> multiset(r) == multiset(Filter(rows, view, q)))
      && (forall c :: c in rows && Matches(c, view, q) && c !in r ==>
            0 <= limit == |r| && forall x :: x in r ==> RowLe(x, c))
  {
    var all := Sort(Filter(rows, view, q));
    var r := SearchClinics(rows, view, q, limit);
    SortSorted(Filter(rows, view, q));
    forall c | c in rows && Matches(c, view, q) && c !in r
      ensures 0 <= limit == |r| && forall x :: x in r ==> RowLe(x, c)
    {
      assert c in multiset(all);
      assert r == all[..|r|];
      SortedPrefixBefore(all, |r|, c);
    }
  }

  lemma {:induction false} FilterDistinct(rows: seq<Clinic>, view: string, q: string)
    requires DistinctIds(rows)
    ensures DistinctIds(Filter(rows, view, q))
  {
    if rows != [] {
      FilterDistinct(rows[1..], view, q);
      var rest := Filter(rows[1..], view, q);
      forall k | 0 <= k < |rest| ensures rest[k].id != rows[0].id {
        assert rest[k] in rows[1..];
      }
    }
  }

  lemma {:induction false} InsertDistinct(x: Clinic, s: seq<Clinic>)
    requires DistinctIds(s)
    requires forall k :: 0 <= k < |s| ==> s[k].id != x.id
    ensures DistinctIds(Insert(x, s))
  {
    if s != [] && !RowLe(x, s[0]) {
      InsertDistinct(x, s[1..]);
      var tail := Insert(x, s[1..]);
      forall k | 0 <= k < |tail| ensures tail[k].id != s[0].id {
        assert tail[k] in multiset(tail);
        if tail[k] != x {
          assert tail[k] in multiset(s[1..]);
          assert tail[k] in s[1..];
        }
      }
    }
  }

  lemma {:induction false} SortDistinct(s: seq<Clinic>)
    requires DistinctIds(s)
    ensures DistinctIds(Sort(s))
  {
    if s != [] {
      SortDistinct(s[1..]);
      var sorted := Sort(s[1..]);
      forall k | 0 <= k < |sorted| ensures sorted[k].id != s[0].id {
        assert sorted[k] in multiset(s[1..]);
        assert sorted[k] in s[1..];
      }
      InsertDistinct(s[0], sorted);
    }
  }

  /** No row is returned twice. */
  lemma SearchDistinct(rows: seq<Clinic>, view: string, q: string, limit: int)
    requires DistinctIds(rows)
    ensures var r := SearchClinics(rows, view, q, limit);
      forall i, j :: 0 <= i < j < |r| ==> r[i].id != r[j].id
  {
    FilterDistinct(rows, view, q);
    SortDistinct(Filter(rows, view, q));
  }

  /** A view other than the two categories applies no kind filter: it behaves as "all". */
  lemma {:induction false} OtherViewsUnfiltered(rows: seq<Clinic>, view: string, q: string)
    requires view != Ambassadors && view != Authorized
    ensures Filter(rows, view, q) == Filter(rows, "all", q)
  {
    if rows != [] {
      OtherViewsUnfiltered(rows[1..], view, q);
    }
  }
}
