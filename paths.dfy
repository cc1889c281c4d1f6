/**
 * The paths combiner: like referrers, every item of a snapshot is filed
 * under the date in the file name, keyed by path; count and uniques keep
 * their running maximum, and the title is the one the path had when it was
 * first met for that date.
 */
module Paths {
  import opened Wrappers
  import FilenameDate
  import opened MaxMerge
  import opened Folds
  import opened Snapshots
  import opened Listing

  /** One item of a paths payload. */
  datatype Visit = Visit(path: string, title: string, count: int, uniques: int)

  /** What the combiner keeps for one path on one date. */
  datatype PathStat = PathStat(title: string, count: int, uniques: int)

  function AsReading(x: Visit): Reading {
    Reading(x.path, x.count, x.uniques)
  }

  /** The counts of a date's map, titles dropped. */
  function Tallies(m: map<string, PathStat>): (r: map<string, Tally>)
    ensures r.Keys == m.Keys
    ensures forall k :: k in m ==> r[k].count == m[k].count && r[k].uniques == m[k].uniques
  {
    map k | k in m :: Tally(m[k].count, m[k].uniques)
  }

  /**
   * Absorbing one item into a date's map keyed by path: a new path starts at
   * zero with the item's title, and the title of a known path never changes.
   */
  function Absorb(m: map<string, PathStat>, x: Visit): (r: map<string, PathStat>)
    ensures r.Keys == m.Keys + {x.path}
    ensures forall k :: k in m && k != x.path ==> r[k] == m[k]
    ensures r[x.path].title == if x.path in m then m[x.path].title else x.title
  {
    var before := if x.path in m then m[x.path] else PathStat(x.title, 0, 0);
    m[x.path := PathStat(before.title, Max(x.count, before.count), Max(x.uniques, before.uniques))]
  }

  /** The combined map after every dated snapshot: date, then path, to the merged record. */
  function Merged(snaps: seq<Snapshot<Visit>>): map<string, map<string, PathStat>> {
    FoldFiled(Filed(snaps), Absorb, map[], map[])
  }

  /** The combined map as combine_json_files.py builds it, undated files under None. */
  function MergedAsWritten(snaps: seq<Snapshot<Visit>>): map<Option<string>, map<string, PathStat>> {
    FoldFiled(FiledAsWritten(snaps), Absorb, map[], map[])
  }

  /** On counts, a paths step is the max-merge step of its reading. */
  lemma AbsorbTallies(m: map<string, PathStat>, x: Visit)
    ensures Tallies(Absorb(m, x)) == Bump(Tallies(m), x.path, x.count, x.uniques)
  {
  }

  /** On counts, folding the visits in turn builds the max-merge of their readings. */
  lemma {:induction false} FoldCountsIsMaxMerge(xs: seq<Visit>)
    ensures IsMaxMerge(Tallies(FoldLeft(xs, Absorb, map[])), ReadingsOf(xs, AsReading))
  {
    if xs == [] {
      assert Tallies(map[]) == map[];
      EmptyIsMaxMerge();
    } else {
      var init, last := xs[..|xs| - 1], xs[|xs| - 1];
      FoldCountsIsMaxMerge(init);
      var t := Tallies(FoldLeft(init, Absorb, map[]));
      FoldTalliesLast(xs);
      ReadingsLast(xs, AsReading);
      BumpExtends(t, ReadingsOf(init, AsReading), AsReading(last));
    }
  }

  lemma FoldTalliesLast(xs: seq<Visit>)
    requires xs != []
    ensures var x := xs[|xs| - 1];
            Tallies(FoldLeft(xs, Absorb, map[]))
              == Bump(Tallies(FoldLeft(xs[..|xs| - 1], Absorb, map[])), x.path, x.count, x.uniques)
  {
    AbsorbTallies(FoldLeft(xs[..|xs| - 1], Absorb, map[]), xs[|xs| - 1]);
  }

  /** `xs[i]` is the first item of `xs` for path `p`. */
  ghost predicate FirstVisitAt(xs: seq<Visit>, p: string, i: int)
  {
    0 <= i < |xs| && xs[i].path == p && forall j :: 0 <= j < i ==> xs[j].path != p
  }

  /**
   * After folding `xs`, a path is present exactly when some item has it, and
   * its title is the title of the first such item.
   */
  lemma {:induction false} FoldTitle(xs: seq<Visit>, p: string)
    ensures p in FoldLeft(xs, Absorb, map[]) <==> exists i :: 0 <= i < |xs| && xs[i].path == p
    ensures p in FoldLeft(xs, Absorb, map[]) ==>
              exists i :: FirstVisitAt(xs, p, i) && FoldLeft(xs, Absorb, map[])[p].title == xs[i].title
  {
    if xs != [] {
      var init, last := xs[..|xs| - 1], xs[|xs| - 1];
      FoldTitle(init, p);
      var m := FoldLeft(init, Absorb, map[]);
      assert FoldLeft(xs, Absorb, map[]) == Absorb(m, last);
      if p in m {
        var i :| FirstVisitAt(init, p, i) && m[p].title == init[i].title;
        assert FirstVisitAt(xs, p, i);
      } else if p == last.path {
        assert FirstVisitAt(xs, p, |init|);
      } else {
        forall i | 0 <= i < |xs| ensures xs[i].path != p {
          if i < |init| {
            assert xs[i] == init[i];
          }
        }
      }
    }
  }

  /** A later fold never changes the title of a path already present. */
  lemma {:induction false} FoldKeepsTitle(xs: seq<Visit>, ys: seq<Visit>, p: string)
    requires p in FoldLeft(xs, Absorb, map[])
    ensures p in FoldLeft(xs + ys, Absorb, map[])
    ensures FoldLeft(xs + ys, Absorb, map[])[p].title == FoldLeft(xs, Absorb, map[])[p].title
    decreases |ys|
  {
    if ys == [] {
      assert xs + ys == xs;
    } else {
      var init, last := ys[..|ys| - 1], ys[|ys| - 1];
      FoldKeepsTitle(xs, init, p);
      assert xs + ys == (xs + init) + [last];
      FoldLeftSnoc(xs + init, last, Absorb, map[]);
    }
  }

  /** Two date maps with the same counts and the same titles are equal. */
  lemma SameTalliesSameTitles(m1: map<string, PathStat>, m2: map<string, PathStat>)
    requires Tallies(m1) == Tallies(m2)
    requires forall k :: k in m1 ==> m1[k].title == m2[k].title
    ensures m1 == m2
  {
    forall k | k in m1 ensures m1[k] == m2[k] {
      assert Tallies(m1)[k] == Tallies(m2)[k];
    }
  }

  /**
   * A date is in the combined map exactly when some item was filed under it;
   * its counts are the max-merge of the items filed under it.
   */
  lemma MergedByDate(snaps: seq<Snapshot<Visit>>, d: string)
    ensures d in Merged(snaps) <==> On(Filed(snaps), d) != []
    ensures d in Merged(snaps) ==> IsMaxMerge(Tallies(Merged(snaps)[d]), ReadingsOf(On(Filed(snaps), d), AsReading))
  {
    FoldFiledAt(Filed(snaps), Absorb, map[], d);
    FoldCountsIsMaxMerge(On(Filed(snaps), d));
  }

  /**
   * The title kept for a path on a date is the title of the first item
   * filed for that path under that date, in file order and then item order.
   */
  lemma MergedTitle(snaps: seq<Snapshot<Visit>>, d: string, p: string)
    requires d in Merged(snaps) && p in Merged(snaps)[d]
    ensures exists i :: FirstVisitAt(On(Filed(snaps), d), p, i)
                        && Merged(snaps)[d][p].title == On(Filed(snaps), d)[i].title
  {
    FoldFiledAt(Filed(snaps), Absorb, map[], d);
    FoldTitle(On(Filed(snaps), d), p);
  }

  /**
   * Every item of a dated snapshot is filed under the file name's date: its
   * path is present for that date, with count and uniques at least the item's.
   */
  lemma FiledUnderFileDate(snaps: seq<Snapshot<Visit>>, s: Snapshot<Visit>, d: string, x: Visit)
    requires s in snaps && FilenameDate.ExtractTimestamp(s.filename) == Some(d) && x in Flat(s.entries)
    ensures d in Merged(snaps) && x.path in Merged(snaps)[d]
    ensures x.count <= Merged(snaps)[d][x.path].count
    ensures x.uniques <= Merged(snaps)[d][x.path].uniques
    ensures 0 <= Merged(snaps)[d][x.path].count && 0 <= Merged(snaps)[d][x.path].uniques
  {
    FiledMember(snaps, d, x);
    OnMember(Filed(snaps), d, x);
    MergedByDate(snaps, d);
    assert AsReading(x) in ReadingsOf(On(Filed(snaps), d), AsReading);
  }

  /**
   * Reordering the snapshot files keeps the dates, the paths and their
   * counts; only titles may change (see TitleDependsOnOrder).
   */
  lemma SnapshotOrderKeepsCounts(a: seq<Snapshot<Visit>>, b: seq<Snapshot<Visit>>, d: string)
    requires multiset(a) == multiset(b)
    ensures d in Merged(a) <==> d in Merged(b)
    ensures d in Merged(a) ==> Tallies(Merged(a)[d]) == Tallies(Merged(b)[d])
  {
    MergedByDate(a, d);
    MergedByDate(b, d);
    forall x ensures x in On(Filed(a), d) <==> x in On(Filed(b), d) {
      OnMember(Filed(a), d, x);
      OnMember(Filed(b), d, x);
      FiledMember(a, d, x);
      FiledMember(b, d, x);
      if exists s :: s in a && FiledFrom(s, d, x) {
        var s :| s in a && FiledFrom(s, d, x);
        assert s in multiset(b);
      }
      if exists s :: s in b && FiledFrom(s, d, x) {
        var s :| s in b && FiledFrom(s, d, x);
        assert s in multiset(a);
      }
    }
    if On(Filed(a), d) != [] {
      assert On(Filed(a), d)[0] in On(Filed(b), d);
    }
    if On(Filed(b), d) != [] {
      assert On(Filed(b), d)[0] in On(Filed(a), d);
    }
    if d in Merged(a) {
      SameItemsSameReadings(On(Filed(a), d), On(Filed(b), d), AsReading);
      MaxMergeUnique(Tallies(Merged(a)[d]), Tallies(Merged(b)[d]), ReadingsOf(On(Filed(a), d), AsReading));
    }
  }

  /**
   * Titles follow file order: when two snapshots of the same date carry the
   * same path under different titles, the title kept is the one of the file
   * read first.
   */
  lemma TitleDependsOnOrder(s1: Snapshot<Visit>, s2: Snapshot<Visit>, d: string, x1: Visit, x2: Visit)
    requires FilenameDate.ExtractTimestamp(s1.filename) == Some(d)
    requires FilenameDate.ExtractTimestamp(s2.filename) == Some(d)
    requires s1.entries == [[x1]] && s2.entries == [[x2]] && x1.path == x2.path
    ensures Merged([s1, s2])[d][x1.path].title == x1.title
    ensures Merged([s2, s1])[d][x1.path].title == x2.title
  {
    FiledPair(s1, s2, d, x1, x2);
    FiledPair(s2, s1, d, x2, x1);
    PairTitle(d, x1, x2);
    PairTitle(d, x2, x1);
  }

  lemma FiledPair(s1: Snapshot<Visit>, s2: Snapshot<Visit>, d: string, x1: Visit, x2: Visit)
    requires FilenameDate.ExtractTimestamp(s1.filename) == Some(d)
    requires FilenameDate.ExtractTimestamp(s2.filename) == Some(d)
    requires s1.entries == [[x1]] && s2.entries == [[x2]]
    ensures Filed([s1, s2]) == [(d, x1), (d, x2)]
  {
    assert [s1, s2][..1] == [s1];
    assert [s1][..0] == [];
    FlatSingle(x1);
    FlatSingle(x2);
    assert Filed([s1]) == Filed([]) + Under(d, [x1]);
  }

  lemma PairTitle(d: string, x1: Visit, x2: Visit)
    requires x1.path == x2.path
    ensures FoldFiled<string, Visit, map<string, PathStat>>([(d, x1), (d, x2)], Absorb, map[], map[])[d][x1.path].title
              == x1.title
  {
    var ps := [(d, x1), (d, x2)];
    FoldFiledSnoc([(d, x1)], (d, x2), Absorb, map[], map[]);
    assert [(d, x1)] + [(d, x2)] == ps;
    FoldFiledSnoc([], (d, x1), Absorb, map[], map[]);
    assert [] + [(d, x1)] == [(d, x1)];
  }

  /** Reading a snapshot a second time does not change the combined map, titles included. */
  lemma DuplicateSnapshotIrrelevant(a: seq<Snapshot<Visit>>, s: Snapshot<Visit>, d: string)
    requires s in a
    ensures d in Merged(a + [s]) <==> d in Merged(a)
    ensures d in Merged(a) ==> Merged(a + [s])[d] == Merged(a)[d]
  {
    var xs, ys := On(Filed(a), d), ItemsOn(s, d);
    FiledOnSnoc(a, s, d);
    AlreadyFiled(a, s, d);
    FoldFiledAt(Filed(a), Absorb, map[], d);
    FoldFiledAt(Filed(a + [s]), Absorb, map[], d);
    if xs != [] {
      FoldKnownItems(xs, ys);
    }
  }

  /**
   * Folding further items that were all folded before changes nothing: the
   * counts are already at least theirs and the titles are frozen.
   */
  lemma FoldKnownItems(xs: seq<Visit>, ys: seq<Visit>)
    requires forall y :: y in ys ==> y in xs
    ensures FoldLeft(xs + ys, Absorb, map[]) == FoldLeft(xs, Absorb, map[])
  {
    forall x ensures x in xs + ys <==> x in xs {
    }
    SameItemsSameReadings(xs + ys, xs, AsReading);
    FoldCountsIsMaxMerge(xs);
    FoldCountsIsMaxMerge(xs + ys);
    var m, m' := FoldLeft(xs, Absorb, map[]), FoldLeft(xs + ys, Absorb, map[]);
    MaxMergeUnique(Tallies(m'), Tallies(m), ReadingsOf(xs, AsReading));
    forall p | p in m' ensures m'[p].title == m[p].title {
      assert p in Tallies(m);
      FoldKeepsTitle(xs, ys, p);
    }
    SameTalliesSameTitles(m', m);
  }

  /** The items snapshot `s` files under `d`. */
  function ItemsOn(s: Snapshot<Visit>, d: string): seq<Visit>
  {
    if FilenameDate.ExtractTimestamp(s.filename) == Some(d) then Flat(s.entries) else []
  }

  /** Filing one more snapshot appends the items it files under `d`. */
  lemma FiledOnSnoc(a: seq<Snapshot<Visit>>, s: Snapshot<Visit>, d: string)
    ensures On(Filed(a + [s]), d) == On(Filed(a), d) + ItemsOn(s, d)
  {
    FiledPrefix(a + [s], |a|);
    assert (a + [s])[..|a|] == a;
    assert (a + [s])[..|a| + 1] == a + [s];
    assert (a + [s])[|a|] == s;
    match FilenameDate.ExtractTimestamp(s.filename)
    case Some(e) =>
      OnAppend(Filed(a), Under(e, Flat(s.entries)), d);
      OnUnder(e, Flat(s.entries), d);
    case None =>
  }

  /** The items a snapshot of `a` files under `d` are already filed under `d` by `a`. */
  lemma AlreadyFiled(a: seq<Snapshot<Visit>>, s: Snapshot<Visit>, d: string)
    requires s in a
    ensures forall y :: y in ItemsOn(s, d) ==> y in On(Filed(a), d)
    ensures ItemsOn(s, d) != [] ==> On(Filed(a), d) != []
  {
    forall y | y in ItemsOn(s, d) ensures y in On(Filed(a), d) {
      FiledMember(a, d, y);
      assert FiledFrom(s, d, y);
      OnMember(Filed(a), d, y);
    }
    if ItemsOn(s, d) != [] {
      assert ItemsOn(s, d)[0] in On(Filed(a), d);
    }
  }

  /** A file whose name holds no date changes nothing in the corrected combiner. */
  lemma UndatedFileIgnored(a: seq<Snapshot<Visit>>, s: Snapshot<Visit>)
    requires FilenameDate.ExtractTimestamp(s.filename) == None
    ensures Merged(a + [s]) == Merged(a)
  {
    UndatedFileNotFiled(a, s);
  }

  /** The corrected combined map agrees with the as-written one on every date. */
  lemma MergedIsDatedPartOfAsWritten(snaps: seq<Snapshot<Visit>>, d: string)
    ensures d in Merged(snaps) <==> Some(d) in MergedAsWritten(snaps)
    ensures d in Merged(snaps) ==> Merged(snaps)[d] == MergedAsWritten(snaps)[Some(d)]
  {
    DatedBucketsAgree(snaps, Absorb, map[], d);
  }

  /**
   * When every file name carries a date, the combiner as written and the
   * corrected one agree: no None key arises, and sorting the as-written
   * items, in any order, gives the corrected listing.
   */
  lemma AllDatedAsWritten(snaps: seq<Snapshot<Visit>>, raw: seq<RawRow<map<string, PathStat>>>, rows: seq<Row<map<string, PathStat>>>)
    requires forall s :: s in snaps ==> FilenameDate.ExtractTimestamp(s.filename).Some?
    requires IsItemsOf(raw, MergedAsWritten(snaps))
    requires IsListing(rows, Merged(snaps))
    ensures None !in MergedAsWritten(snaps)
    ensures SortAsWritten(raw) == Sorted(DatedRows(rows))
  {
    AllDatedAgree(snaps, Absorb, map[]);
    DatedItemsSort(raw, MergedAsWritten(snaps), Merged(snaps), rows);
  }

  /**
   * As written, a second run fails for paths as for referrers: the items of
   * an undated file such as the combiner's own output are filed under None,
   * and sorting the rows compares None with a date.
   */
  lemma RerunRaisesAsWritten(day: Snapshot<Visit>, output: Snapshot<Visit>, d: string,
                              rows: seq<RawRow<map<string, PathStat>>>)
    requires FilenameDate.ExtractTimestamp(day.filename) == Some(d)
    requires FilenameDate.ExtractTimestamp(output.filename) == None
    requires Flat(day.entries) != [] && Flat(output.entries) != []
    requires IsItemsOf(rows, MergedAsWritten([day, output]))
    ensures SortAsWritten(rows).Raised?
  {
    UndatedBesideDatedAsWritten(day, output, d, Absorb, map[]);
    ItemsSortRaises(rows, MergedAsWritten([day, output]));
  }

  /**
   * As written, undated files read without any dated snapshot do not raise
   * once some item is present: the output is the one row whose timestamp is
   * None (`null` in the written JSON).
   */
  lemma UndatedOnlyDoesNotRaise(snaps: seq<Snapshot<Visit>>, rows: seq<RawRow<map<string, PathStat>>>)
    requires forall s :: s in snaps ==> FilenameDate.ExtractTimestamp(s.filename) == None
    requires AllItems(snaps) != []
    requires IsItemsOf(rows, MergedAsWritten(snaps))
    ensures None in MergedAsWritten(snaps)
    ensures rows == [RawRow(None, MergedAsWritten(snaps)[None])]
    ensures SortAsWritten(rows) == Sorted(rows)
  {
    AllUndatedAsWritten(snaps, Absorb, map[]);
    LoneUndatedRow(rows, MergedAsWritten(snaps));
  }

  /**
   * Lines 29-33 and 42-48 of the combiner for one entry: each item goes into
   * the bucket for the file's date, created empty when absent; a new path is
   * inserted with the item's title and zero counts; then count and uniques
   * are raised one after the other.
   */
  method AbsorbVisits(combined: map<string, map<string, PathStat>>, ts: string, items: seq<Visit>)
    returns (r: map<string, map<string, PathStat>>)
    ensures r == FoldFiled(Under(ts, items), Absorb, map[], combined)
  {
    r := combined;
    var k := 0;
    while k < |items|
      invariant 0 <= k <= |items|
      invariant r == FoldFiled(Under(ts, items[..k]), Absorb, map[], combined)
    {
      var item := items[k];
      ghost var prior := r;
      FoldFiledUnderNext(ts, items, k, Absorb, map[], combined);
      if ts !in r {
        r := r[ts := map[]];
      }
      var inner := r[ts];
      if item.path !in inner {
        inner := inner[item.path := PathStat(item.title, 0, 0)];
      }
      var stat := inner[item.path];
      stat := stat.(count := Max(item.count, stat.count));
      stat := stat.(uniques := Max(item.uniques, stat.uniques));
      r := r[ts := inner[item.path := stat]];
      FileThenRaise(prior, ts, item);
      assert r == FileInto(prior, (ts, items[k]), Absorb, map[]);
      k := k + 1;
    }
    assert items[..k] == items;
  }

  /** The source's nested update for one item is one filing step. */
  lemma FileThenRaise(m: map<string, map<string, PathStat>>, ts: string, x: Visit)
    ensures var m1 := if ts !in m then m[ts := map[]] else m;
            var inner := if x.path !in m1[ts] then m1[ts][x.path := PathStat(x.title, 0, 0)] else m1[ts];
            var t := inner[x.path];
            m1[ts := inner[x.path := PathStat(t.title, Max(x.count, t.count), Max(x.uniques, t.uniques))]]
              == FileInto(m, (ts, x), Absorb, map[])
  {
    var bucket := if ts in m then m[ts] else map[];
    var m1 := if ts !in m then m[ts := map[]] else m;
    assert m1[ts] == bucket;
    var inner := if x.path !in bucket then bucket[x.path := PathStat(x.title, 0, 0)] else bucket;
    var before := if x.path in bucket then bucket[x.path] else PathStat(x.title, 0, 0);
    assert inner[x.path] == before;
    var raised := inner[x.path := PathStat(before.title, Max(x.count, before.count), Max(x.uniques, before.uniques))];
    assert FileInto(m, (ts, x), Absorb, map[]) == m[ts := Absorb(bucket, x)];
    assert Absorb(bucket, x) == raised;
    assert m1[ts := raised] == m[ts := raised];
  }

  /** Lines 29-48 of the combiner for one snapshot, whose date is `ts`. */
  method AbsorbSnapshot(combined: map<string, map<string, PathStat>>, ts: string, entries: seq<seq<Visit>>)
    returns (r: map<string, map<string, PathStat>>)
    ensures r == FoldFiled(Under(ts, Flat(entries)), Absorb, map[], combined)
  {
    r := combined;
    var j := 0;
    while j < |entries|
      invariant 0 <= j <= |entries|
      invariant r == FoldFiled(Under(ts, Flat(entries[..j])), Absorb, map[], combined)
    {
      FlatPrefix(entries, j);
      UnderAppend(ts, Flat(entries[..j]), entries[j]);
      FoldFiledAppend(Under(ts, Flat(entries[..j])), Under(ts, entries[j]), Absorb, map[], combined);
      r := AbsorbVisits(r, ts, entries[j]);
      j := j + 1;
    }
    assert entries[..j] == entries;
  }

  /**
   * The paths pass of the combiner (lines 15-19, 28-33, 42-48 and 51-59),
   * with files whose name has no date skipped: fold every item of every
   * dated snapshot into the map under the file's date, then list the map
   * sorted by date.
   */
  method CombinePaths(snaps: seq<Snapshot<Visit>>) returns (rows: seq<Row<map<string, PathStat>>>)
    ensures IsListing(rows, Merged(snaps))
  {
    var combined: map<string, map<string, PathStat>> := map[];
    var i := 0;
    while i < |snaps|
      invariant 0 <= i <= |snaps|
      invariant combined == FoldFiled(Filed(snaps[..i]), Absorb, map[], map[])
    {
      var timestamp := FilenameDate.ExtractTimestamp(snaps[i].filename);
      FiledPrefix(snaps, i);
      if timestamp.Some? {
        var ts := timestamp.value;
        FoldFiledAppend(Filed(snaps[..i]), Under(ts, Flat(snaps[i].entries)), Absorb, map[], map[]);
        combined := AbsorbSnapshot(combined, ts, snaps[i].entries);
      }
      i := i + 1;
    }
    assert snaps[..i] == snaps;
    rows := ListSorted(combined);
  }
}
