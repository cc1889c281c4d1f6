/**
 * Turning the merged map into the output list: one row per key, in the
 * map's own iteration order, then sorted ascending by the timestamp string.
 */
module Listing {
  import opened Wrappers

  /** One record of the combined output: a timestamp and what was merged for it. */
  datatype Row<V> = Row(timestamp: string, value: V)

  /** Python's `<` on strings: lexicographic by code point, a proper prefix first. */
  predicate Below(a: string, b: string)
    decreases |a|
  {
    if a == [] then b != []
    else if b == [] then false
    else a[0] < b[0] || (a[0] == b[0] && Below(a[1..], b[1..]))
  }

  lemma {:induction false} BelowIrreflexive(a: string)
    ensures !Below(a, a)
    decreases |a|
  {
    if a != [] {
      BelowIrreflexive(a[1..]);
    }
  }

  lemma {:induction false} BelowAsymmetric(a: string, b: string)
    requires Below(a, b)
    ensures !Below(b, a)
    decreases |a|
  {
    if a != [] && b != [] && a[0] == b[0] {
      BelowAsymmetric(a[1..], b[1..]);
    }
  }

  lemma {:induction false} BelowTransitive(a: string, b: string, c: string)
    requires Below(a, b) && Below(b, c)
    ensures Below(a, c)
    decreases |a|
  {
    if a != [] && a[0] == b[0] && b[0] == c[0] {
      BelowTransitive(a[1..], b[1..], c[1..]);
    }
  }

  lemma {:induction false} BelowTotal(a: string, b: string)
    requires a != b
    ensures Below(a, b) || Below(b, a)
    decreases |a|
  {
    if a != [] && b != [] && a[0] == b[0] {
      assert a == [a[0]] + a[1..] && b == [b[0]] + b[1..];
      BelowTotal(a[1..], b[1..]);
    }
  }

  lemma BelowAntisymmetric(a: string, b: string)
    ensures !(Below(a, b) && Below(b, a))
  {
    if Below(a, b) {
      BelowAsymmetric(a, b);
    }
  }

  /** "Not below" is transitive: a <= b and b <= c give a <= c. */
  lemma NotBelowTransitive(a: string, b: string, c: string)
    requires !Below(b, a) && !Below(c, b)
    ensures !Below(c, a)
  {
    if Below(c, a) {
      if a == b {
      } else {
        BelowTotal(a, b);
        BelowTransitive(c, a, b);
      }
    }
  }

  /** Rows in ascending timestamp order, equal timestamps allowed (what `sorted` promises). */
  ghost predicate Ascending<V>(rows: seq<Row<V>>)
  {
    forall i, j :: 0 <= i < j < |rows| ==> !Below(rows[j].timestamp, rows[i].timestamp)
  }

  /** No two rows share a timestamp. */
  ghost predicate DistinctTimestamps<V>(rows: seq<Row<V>>)
  {
    forall i, j :: 0 <= i < j < |rows| ==> rows[i].timestamp != rows[j].timestamp
  }

  /** Inserts `x` before the first row whose timestamp is not below `x`'s. */
  function Insert<V>(x: Row<V>, rows: seq<Row<V>>): (r: seq<Row<V>>)
    ensures multiset(r) == multiset(rows) + multiset{x}
    decreases |rows|
  {
    if rows == [] then [x]
    else if !Below(rows[0].timestamp, x.timestamp) then [x] + rows
    else
      assert rows == [rows[0]] + rows[1..];
      [rows[0]] + Insert(x, rows[1..])
  }

  lemma {:induction false} InsertKeepsAscending<V>(x: Row<V>, rows: seq<Row<V>>)
    requires Ascending(rows)
    ensures Ascending(Insert(x, rows))
    decreases |rows|
  {
    if rows == [] {
    } else if !Below(rows[0].timestamp, x.timestamp) {
      var r := [x] + rows;
      forall i, j | 0 <= i < j < |r| ensures !Below(r[j].timestamp, r[i].timestamp) {
        if i == 0 && j > 1 {
          NotBelowTransitive(x.timestamp, rows[0].timestamp, rows[j - 1].timestamp);
        }
      }
    } else {
      var tail := Insert(x, rows[1..]);
      InsertKeepsAscending(x, rows[1..]);
      var r := [rows[0]] + tail;
      forall i, j | 0 <= i < j < |r| ensures !Below(r[j].timestamp, r[i].timestamp) {
        if i == 0 {
          var e := tail[j - 1];
          assert e in multiset(tail);
          if e == x {
            BelowAsymmetric(rows[0].timestamp, x.timestamp);
          } else {
            assert e in rows[1..];
            var k :| 1 <= k < |rows| && rows[k] == e;
          }
        }
      }
    }
  }

  lemma {:induction false} InsertKeepsDistinct<V>(x: Row<V>, rows: seq<Row<V>>)
    requires DistinctTimestamps(rows)
    requires forall i :: 0 <= i < |rows| ==> rows[i].timestamp != x.timestamp
    ensures DistinctTimestamps(Insert(x, rows))
    decreases |rows|
  {
    if rows != [] && Below(rows[0].timestamp, x.timestamp) {
      var tail := Insert(x, rows[1..]);
      InsertKeepsDistinct(x, rows[1..]);
      var r := [rows[0]] + tail;
      forall i, j | 0 <= i < j < |r| ensures r[i].timestamp != r[j].timestamp {
        if i == 0 {
          var e := tail[j - 1];
          assert e in multiset(tail);
          if e != x {
            assert e in rows[1..];
            var k :| 1 <= k < |rows| && rows[k] == e;
          }
        }
      }
    }
  }

  /** The rows sorted ascending by timestamp: Python's `sorted(rows, key=timestamp)`. */
  function SortByTimestamp<V>(rows: seq<Row<V>>): (r: seq<Row<V>>)
    ensures Ascending(r)
    ensures multiset(r) == multiset(rows)
    decreases |rows|
  {
    if rows == [] then []
    else
      var rest := SortByTimestamp(rows[1..]);
      InsertKeepsAscending(rows[0], rest);
      assert rows == [rows[0]] + rows[1..];
      Insert(rows[0], rest)
  }

  lemma {:induction false} SortKeepsDistinct<V>(rows: seq<Row<V>>)
    requires DistinctTimestamps(rows)
    ensures DistinctTimestamps(SortByTimestamp(rows))
    decreases |rows|
  {
    if rows != [] {
      var rest := SortByTimestamp(rows[1..]);
      SortKeepsDistinct(rows[1..]);
      forall i | 0 <= i < |rest| ensures rest[i].timestamp != rows[0].timestamp {
        assert rest[i] in multiset(rows[1..]);
        var k :| 0 <= k < |rows[1..]| && rows[1..][k] == rest[i];
        assert rows[k + 1] == rest[i];
      }
      InsertKeepsDistinct(rows[0], rest);
    }
  }

  /**
   * `rows` lists `m`: strictly ascending timestamps, every row carries the
   * map's value for its timestamp, and every key of the map has a row.
   */
  ghost predicate IsListing<V>(rows: seq<Row<V>>, m: map<string, V>)
  {
    && (forall i, j :: 0 <= i < j < |rows| ==> Below(rows[i].timestamp, rows[j].timestamp))
    && (forall i :: 0 <= i < |rows| ==> rows[i].timestamp in m && rows[i].value == m[rows[i].timestamp])
    && (forall k :: k in m ==> exists i :: 0 <= i < |rows| && rows[i].timestamp == k)
  }

  /** The first row of a listing carries the least key of the map. */
  lemma ListingHead<V>(r: seq<Row<V>>, m: map<string, V>, k: string)
    requires IsListing(r, m) && r != [] && k in m
    ensures k == r[0].timestamp || Below(r[0].timestamp, k)
  {
    var i :| 0 <= i < |r| && r[i].timestamp == k;
  }

  /** Dropping the first row of a listing lists the map without the first key. */
  lemma ListingTail<V>(r: seq<Row<V>>, m: map<string, V>)
    requires IsListing(r, m) && r != []
    ensures IsListing(r[1..], m - {r[0].timestamp})
  {
    var k := r[0].timestamp;
    BelowIrreflexive(k);
    forall a | 1 <= a < |r| ensures r[a].timestamp != k {
    }
    forall x | x in m - {k} ensures exists i :: 0 <= i < |r[1..]| && r[1..][i].timestamp == x {
      var i :| 0 <= i < |r| && r[i].timestamp == x;
      assert r[1..][i - 1].timestamp == x;
    }
  }

  /**
   * A map has exactly one listing: the output does not depend on the
   * order in which the map's entries were produced.
   */
  lemma {:induction false} ListingUnique<V>(r1: seq<Row<V>>, r2: seq<Row<V>>, m: map<string, V>)
    requires IsListing(r1, m) && IsListing(r2, m)
    ensures r1 == r2
    decreases |r1|
  {
    ListingEmpty(r1, m);
    ListingEmpty(r2, m);
    if r1 != [] && r2 != [] {
      ListingHeadsAgree(r1, r2, m);
      ListingTailsAgree(r1, r2, m);
      assert r1 == [r1[0]] + r1[1..];
      assert r2 == [r2[0]] + r2[1..];
    }
  }

  lemma {:induction false} ListingTailsAgree<V>(r1: seq<Row<V>>, r2: seq<Row<V>>, m: map<string, V>)
    requires IsListing(r1, m) && IsListing(r2, m) && r1 != [] && r2 != []
    ensures r1[1..] == r2[1..]
    decreases |r1|, 0
  {
    ListingHeadsAgree(r1, r2, m);
    ListingTail(r1, m);
    ListingTail(r2, m);
    ListingUnique(r1[1..], r2[1..], m - {r1[0].timestamp});
  }

  lemma ListingHeadsAgree<V>(r1: seq<Row<V>>, r2: seq<Row<V>>, m: map<string, V>)
    requires IsListing(r1, m) && IsListing(r2, m) && r1 != [] && r2 != []
    ensures r1[0] == r2[0]
  {
    var k1, k2 := r1[0].timestamp, r2[0].timestamp;
    ListingHead(r1, m, k2);
    ListingHead(r2, m, k1);
    BelowAntisymmetric(k1, k2);
  }

  /** A listing is empty exactly when the map is. */
  lemma ListingEmpty<V>(r: seq<Row<V>>, m: map<string, V>)
    requires IsListing(r, m)
    ensures r == [] <==> m == map[]
  {
    if r != [] {
      assert r[0].timestamp in m;
    } else {
      assert forall k :: k !in m;
    }
  }

  /**
   * The rows of a dictionary comprehension over `m.items()`: one row per
   * key, in an order the model leaves open (the dictionary's insertion order).
   */
  method Items<V>(m: map<string, V>) returns (rows: seq<Row<V>>)
    ensures DistinctTimestamps(rows)
    ensures forall i :: 0 <= i < |rows| ==> rows[i].timestamp in m && rows[i].value == m[rows[i].timestamp]
    ensures forall k :: k in m ==> exists i :: 0 <= i < |rows| && rows[i].timestamp == k
  {
    rows := [];
    var rest := m.Keys;
    while rest != {}
      invariant rest <= m.Keys
      invariant DistinctTimestamps(rows)
      invariant forall i :: 0 <= i < |rows| ==>
                  rows[i].timestamp in m && rows[i].timestamp !in rest && rows[i].value == m[rows[i].timestamp]
      invariant forall k :: k in m && k !in rest ==> exists i :: 0 <= i < |rows| && rows[i].timestamp == k
      decreases rest
    {
      var k :| k in rest;
      ghost var before := rows;
      rows := rows + [Row(k, m[k])];
      rest := rest - {k};
      forall x | x in m && x !in rest ensures exists i :: 0 <= i < |rows| && rows[i].timestamp == x {
        if x == k {
          assert rows[|before|].timestamp == x;
        } else {
          var i :| 0 <= i < |before| && before[i].timestamp == x;
          assert rows[i].timestamp == x;
        }
      }
    }
  }

  /** Sorting the comprehension's rows gives the listing of the map. */
  lemma SortedItemsList<V>(rows: seq<Row<V>>, m: map<string, V>)
    requires DistinctTimestamps(rows)
    requires forall i :: 0 <= i < |rows| ==> rows[i].timestamp in m && rows[i].value == m[rows[i].timestamp]
    requires forall k :: k in m ==> exists i :: 0 <= i < |rows| && rows[i].timestamp == k
    ensures IsListing(SortByTimestamp(rows), m)
  {
    var s := SortByTimestamp(rows);
    SortKeepsDistinct(rows);
    SortedIsStrict(s);
    PermutationKeepsRows(rows, s, m);
  }

  lemma SortedIsStrict<V>(s: seq<Row<V>>)
    requires Ascending(s) && DistinctTimestamps(s)
    ensures forall i, j :: 0 <= i < j < |s| ==> Below(s[i].timestamp, s[j].timestamp)
  {
    forall i, j | 0 <= i < j < |s| ensures Below(s[i].timestamp, s[j].timestamp) {
      BelowTotal(s[i].timestamp, s[j].timestamp);
    }
  }

  lemma PermutationKeepsRows<V>(rows: seq<Row<V>>, s: seq<Row<V>>, m: map<string, V>)
    requires multiset(s) == multiset(rows)
    requires forall i :: 0 <= i < |rows| ==> rows[i].timestamp in m && rows[i].value == m[rows[i].timestamp]
    requires forall k :: k in m ==> exists i :: 0 <= i < |rows| && rows[i].timestamp == k
    ensures forall i :: 0 <= i < |s| ==> s[i].timestamp in m && s[i].value == m[s[i].timestamp]
    ensures forall k :: k in m ==> exists i :: 0 <= i < |s| && s[i].timestamp == k
  {
    forall i | 0 <= i < |s| ensures s[i].timestamp in m && s[i].value == m[s[i].timestamp] {
      assert s[i] in multiset(rows);
    }
    forall k | k in m ensures exists i :: 0 <= i < |s| && s[i].timestamp == k {
      var a :| 0 <= a < |rows| && rows[a].timestamp == k;
      assert rows[a] in multiset(s);
      var i :| 0 <= i < |s| && s[i] == rows[a];
    }
  }

  /**
   * An output row as the referrer and path passes build it: the timestamp is
   * the file-name date, None for a file whose name holds no date.
   */
  datatype RawRow<V> = RawRow(timestamp: Option<string>, value: V)

  /** What Python's `sorted` does with such rows: returns them sorted, or raises TypeError. */
  datatype Sorting<V> = Sorted(rows: seq<RawRow<V>>) | Raised

  /**
   * Python's `a < b` on optional timestamps: None if the comparison raises,
   * which it does whenever either side is None (None < None raises too).
   */
  function LessAsWritten(a: Option<string>, b: Option<string>): Option<bool>
  {
    if a.Some? && b.Some? then Some(Below(a.value, b.value)) else None
  }

  /** `Insert` with Python's comparison on optional timestamps; the first failing comparison raises. */
  function InsertAsWritten<V>(x: RawRow<V>, rows: seq<RawRow<V>>): (r: Sorting<V>)
    ensures r.Sorted? ==> multiset(r.rows) == multiset(rows) + multiset{x}
    decreases |rows|
  {
    if rows == [] then Sorted([x])
    else match LessAsWritten(rows[0].timestamp, x.timestamp)
      case None => Raised
      case Some(below) =>
        if !below then Sorted([x] + rows)
        else match InsertAsWritten(x, rows[1..])
          case Raised => Raised
          case Sorted(tail) =>
            assert rows == [rows[0]] + rows[1..];
            Sorted([rows[0]] + tail)
  }

  /** Line 59 as written, over rows whose timestamps may be None. */
  function SortAsWritten<V>(rows: seq<RawRow<V>>): (r: Sorting<V>)
    ensures r.Sorted? ==> multiset(r.rows) == multiset(rows)
    decreases |rows|
  {
    if rows == [] then Sorted([])
    else match SortAsWritten(rows[1..])
      case Raised => Raised
      case Sorted(rest) =>
        assert rows == [rows[0]] + rows[1..];
        InsertAsWritten(rows[0], rest)
  }

  /** Some row carries a None timestamp. */
  ghost predicate HasUndated<V>(rows: seq<RawRow<V>>)
  {
    exists i :: 0 <= i < |rows| && rows[i].timestamp.None?
  }

  lemma SameRowsSameUndated<V>(a: seq<RawRow<V>>, b: seq<RawRow<V>>)
    requires multiset(a) == multiset(b)
    ensures |a| == |b|
    ensures HasUndated(a) <==> HasUndated(b)
  {
    assert |a| == |multiset(a)| == |b|;
    if HasUndated(a) {
      var i :| 0 <= i < |a| && a[i].timestamp.None?;
      assert a[i] in multiset(b);
      var j :| 0 <= j < |b| && b[j] == a[i];
    }
    if HasUndated(b) {
      var j :| 0 <= j < |b| && b[j].timestamp.None?;
      assert b[j] in multiset(a);
      var i :| 0 <= i < |a| && a[i] == b[j];
    }
  }

  /** An undated row at the head or in the tail makes the whole list hold one. */
  lemma UndatedHeadOrTail<V>(s: seq<RawRow<V>>)
    requires s != []
    ensures HasUndated(s) <==> s[0].timestamp.None? || HasUndated(s[1..])
  {
    if HasUndated(s) {
      var i :| 0 <= i < |s| && s[i].timestamp.None?;
      if i > 0 { assert s[1..][i - 1].timestamp.None?; }
    }
    if HasUndated(s[1..]) {
      var i :| 0 <= i < |s| - 1 && s[1..][i].timestamp.None?;
      assert s[i + 1].timestamp.None?;
    }
    if s[0].timestamp.None? { assert HasUndated(s); }
  }

  /**
   * Inserting into a list that the sort has already returned raises exactly
   * when the list is not empty and the new row or a listed row is undated.
   */
  lemma {:induction false} InsertAsWrittenRaises<V>(x: RawRow<V>, s: seq<RawRow<V>>)
    requires !(HasUndated(s) && |s| >= 2)
    ensures InsertAsWritten(x, s).Raised? <==> s != [] && (x.timestamp.None? || HasUndated(s))
    decreases |s|
  {
    if s != [] {
      UndatedHeadOrTail(s);
      if x.timestamp.Some? && s[0].timestamp.Some? && Below(s[0].timestamp.value, x.timestamp.value) {
        InsertAsWrittenRaises(x, s[1..]);
      }
    }
  }

  /**
   * The sort raises exactly when an undated row shares the list with at
   * least one other row; a lone row, undated or not, is returned unsorted.
   */
  lemma {:induction false} SortAsWrittenRaises<V>(rows: seq<RawRow<V>>)
    ensures SortAsWritten(rows).Raised? <==> HasUndated(rows) && |rows| >= 2
    decreases |rows|
  {
    if rows != [] {
      var t := rows[1..];
      SortAsWrittenRaises(t);
      UndatedHeadOrTail(rows);
      match SortAsWritten(t)
      case Raised =>
      case Sorted(rest) =>
        SameRowsSameUndated(rest, t);
        InsertAsWrittenRaises(rows[0], rest);
    }
  }

  /** The rows of `m.items()`: one per key, carrying that key's value, in some order. */
  ghost predicate IsItemsOf<V>(rows: seq<RawRow<V>>, m: map<Option<string>, V>)
  {
    && (forall i, j :: 0 <= i < j < |rows| ==> rows[i].timestamp != rows[j].timestamp)
    && (forall i :: 0 <= i < |rows| ==> rows[i].timestamp in m && rows[i].value == m[rows[i].timestamp])
    && (forall k :: k in m ==> exists i :: 0 <= i < |rows| && rows[i].timestamp == k)
  }

  /**
   * Sorting the items of a map keyed by optional timestamps raises exactly
   * when the None key shares the map with a date, whatever the items' order.
   */
  lemma ItemsSortRaises<V>(rows: seq<RawRow<V>>, m: map<Option<string>, V>)
    requires IsItemsOf(rows, m)
    ensures SortAsWritten(rows).Raised? <==> None in m && exists d :: Some(d) in m
  {
    SortAsWrittenRaises(rows);
    if HasUndated(rows) {
      var i :| 0 <= i < |rows| && rows[i].timestamp.None?;
      assert None in m;
    }
    if None in m {
      var i :| 0 <= i < |rows| && rows[i].timestamp == None;
      assert HasUndated(rows);
    }
    if None in m && exists d :: Some(d) in m {
      var d :| Some(d) in m;
      var i :| 0 <= i < |rows| && rows[i].timestamp == None;
      var j :| 0 <= j < |rows| && rows[j].timestamp == Some(d);
      assert i != j;
    }
    if |rows| >= 2 && None in m {
      var k := if rows[0].timestamp.Some? then rows[0].timestamp else rows[1].timestamp;
      assert k.Some? && k in m;
    }
  }

  /** Rows with distinct timestamps drawn from `keys` are no more than the keys. */
  lemma {:induction false} DistinctRowsFit<V>(rows: seq<RawRow<V>>, keys: set<Option<string>>)
    requires forall i, j :: 0 <= i < j < |rows| ==> rows[i].timestamp != rows[j].timestamp
    requires forall i :: 0 <= i < |rows| ==> rows[i].timestamp in keys
    ensures |rows| <= |keys|
    decreases |rows|
  {
    if rows != [] {
      var rest := keys - {rows[0].timestamp};
      forall i | 0 <= i < |rows| - 1 ensures rows[1..][i].timestamp in rest {
        assert rows[1..][i] == rows[i + 1];
      }
      DistinctRowsFit(rows[1..], rest);
    }
  }

  /** A map whose only key is None lists as one undated row, which the sort returns as it is. */
  lemma LoneUndatedRow<V>(rows: seq<RawRow<V>>, m: map<Option<string>, V>)
    requires IsItemsOf(rows, m)
    requires m.Keys == {None}
    ensures rows == [RawRow(None, m[None])]
    ensures SortAsWritten(rows) == Sorted(rows)
  {
    var i :| 0 <= i < |rows| && rows[i].timestamp == None;
    DistinctRowsFit(rows, m.Keys);
    assert rows[0] == RawRow(None, m[None]);
  }

  /** A dated row as the as-written pass carries it. */
  function Dated<V>(x: Row<V>): RawRow<V>
  {
    RawRow(Some(x.timestamp), x.value)
  }

  function DatedRows<V>(rows: seq<Row<V>>): (r: seq<RawRow<V>>)
    ensures |r| == |rows|
    ensures forall i :: 0 <= i < |rows| ==> r[i] == Dated(rows[i])
  {
    if rows == [] then [] else [Dated(rows[0])] + DatedRows(rows[1..])
  }

  lemma DatedRowsCons<V>(y: Row<V>, t: seq<Row<V>>)
    ensures DatedRows([y] + t) == [Dated(y)] + DatedRows(t)
  {
    assert ([y] + t)[1..] == t;
  }

  lemma {:induction false} InsertDated<V>(x: Row<V>, s: seq<Row<V>>)
    ensures InsertAsWritten(Dated(x), DatedRows(s)) == Sorted(DatedRows(Insert(x, s)))
    decreases |s|
  {
    if s != [] {
      var ds := DatedRows(s);
      assert s == [s[0]] + s[1..];
      DatedRowsCons(s[0], s[1..]);
      assert ds[1..] == DatedRows(s[1..]);
      assert LessAsWritten(ds[0].timestamp, Dated(x).timestamp) == Some(Below(s[0].timestamp, x.timestamp));
      if Below(s[0].timestamp, x.timestamp) {
        InsertDated(x, s[1..]);
        assert Insert(x, s) == [s[0]] + Insert(x, s[1..]);
        DatedRowsCons(s[0], Insert(x, s[1..]));
      } else {
        assert Insert(x, s) == [x] + s;
        DatedRowsCons(x, s);
      }
    }
  }

  /** On dated rows the sort as written never raises and orders them as `SortByTimestamp` does. */
  lemma {:induction false} SortDated<V>(rows: seq<Row<V>>)
    ensures SortAsWritten(DatedRows(rows)) == Sorted(DatedRows(SortByTimestamp(rows)))
    decreases |rows|
  {
    if rows != [] {
      assert DatedRows(rows)[1..] == DatedRows(rows[1..]);
      SortDated(rows[1..]);
      InsertDated(rows[0], SortByTimestamp(rows[1..]));
    }
  }

  /**
   * `m` is `c` with every key wrapped in Some: it has no None key, and each
   * date maps to what it maps to in `c`.
   */
  ghost predicate DatedVersionOf<V>(m: map<Option<string>, V>, c: map<string, V>)
  {
    && None !in m
    && (forall d :: d in c <==> Some(d) in m)
    && (forall d :: d in c ==> m[Some(d)] == c[d])
  }

  /** Rows whose timestamps are all present are the dated form of plain rows. */
  lemma PlainRows<V>(raw: seq<RawRow<V>>) returns (plain: seq<Row<V>>)
    requires forall i :: 0 <= i < |raw| ==> raw[i].timestamp.Some?
    ensures DatedRows(plain) == raw
  {
    plain := seq(|raw|, i requires 0 <= i < |raw| && raw[i].timestamp.Some? =>
               Row(raw[i].timestamp.value, raw[i].value));
    assert DatedRows(plain) == raw;
  }

  /** The items of a map without a None key are the dated form of items of its dated version. */
  lemma DatedItemsAsRows<V>(raw: seq<RawRow<V>>, m: map<Option<string>, V>, c: map<string, V>)
    returns (plain: seq<Row<V>>)
    requires IsItemsOf(raw, m)
    requires DatedVersionOf(m, c)
    ensures DatedRows(plain) == raw
    ensures DistinctTimestamps(plain)
    ensures forall i :: 0 <= i < |plain| ==> plain[i].timestamp in c && plain[i].value == c[plain[i].timestamp]
    ensures forall k :: k in c ==> exists i :: 0 <= i < |plain| && plain[i].timestamp == k
  {
    forall i | 0 <= i < |raw| ensures raw[i].timestamp.Some? {
      assert raw[i].timestamp in m;
    }
    plain := PlainRows(raw);
    forall i | 0 <= i < |plain| ensures plain[i].timestamp in c && plain[i].value == c[plain[i].timestamp] {
      assert raw[i] == Dated(plain[i]);
    }
    forall i, j | 0 <= i < j < |plain| ensures plain[i].timestamp != plain[j].timestamp {
      assert raw[i] == Dated(plain[i]) && raw[j] == Dated(plain[j]);
    }
    forall k | k in c ensures exists i :: 0 <= i < |plain| && plain[i].timestamp == k {
      var i :| 0 <= i < |raw| && raw[i].timestamp == Some(k);
      assert raw[i] == Dated(plain[i]);
    }
  }

  /**
   * Sorting as written the items of a map without a None key never raises
   * and gives the listing of its dated version, whatever the items' order.
   */
  lemma DatedItemsSort<V>(raw: seq<RawRow<V>>, m: map<Option<string>, V>, c: map<string, V>, rows: seq<Row<V>>)
    requires IsItemsOf(raw, m)
    requires DatedVersionOf(m, c)
    requires IsListing(rows, c)
    ensures SortAsWritten(raw) == Sorted(DatedRows(rows))
  {
    var plain := DatedItemsAsRows(raw, m, c);
    SortDated(plain);
    SortedItemsList(plain, c);
    ListingUnique(SortByTimestamp(plain), rows, c);
  }

  /** Lines 51-59 of the combiner: list the merged map's items, then sort them by timestamp. */
  method ListSorted<V>(m: map<string, V>) returns (rows: seq<Row<V>>)
    ensures IsListing(rows, m)
  {
    var items := Items(m);
    rows := SortByTimestamp(items);
    SortedItemsList(items, m);
  }
}
