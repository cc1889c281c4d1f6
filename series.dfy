/**
 * The views and clones combiner: every item carries its own timestamp, and
 * the series keeps, per timestamp, the running maximum of count and uniques.
 */
module Series {
  import opened MaxMerge
  import opened Folds
  import opened Snapshots
  import opened Listing

  /** One item of a views or clones payload. */
  datatype Sample = Sample(timestamp: string, count: int, uniques: int)

  function AsReading(s: Sample): Reading {
    Reading(s.timestamp, s.count, s.uniques)
  }

  /** Absorbing one item into the map keyed by timestamp. */
  function Absorb(m: map<string, Tally>, s: Sample): (r: map<string, Tally>)
    ensures r.Keys == m.Keys + {s.timestamp}
    ensures forall k :: k in m && k != s.timestamp ==> r[k] == m[k]
  {
    Bump(m, s.timestamp, s.count, s.uniques)
  }

  /** The map the combiner has built after visiting every item of every snapshot. */
  function Merged(snaps: seq<Snapshot<Sample>>): map<string, Tally> {
    FoldLeft(AllItems(snaps), Absorb, map[])
  }

  /**
   * Each timestamp of the merged series was read in some snapshot, and its
   * count and uniques are the maxima of 0 and everything read for it.
   */
  lemma MergedIsMaxMerge(snaps: seq<Snapshot<Sample>>)
    ensures IsMaxMerge(Merged(snaps), ReadingsOf(AllItems(snaps), AsReading))
  {
    FoldIsMaxMerge(AllItems(snaps), AsReading, Absorb);
  }

  /** Every observed item is covered: its timestamp is present and no smaller than what it reported. */
  lemma MergedCoversItem(snaps: seq<Snapshot<Sample>>, s: Snapshot<Sample>, x: Sample)
    requires s in snaps && x in Flat(s.entries)
    ensures x.timestamp in Merged(snaps)
    ensures x.count <= Merged(snaps)[x.timestamp].count
    ensures x.uniques <= Merged(snaps)[x.timestamp].uniques
    ensures 0 <= Merged(snaps)[x.timestamp].count && 0 <= Merged(snaps)[x.timestamp].uniques
  {
    MergedIsMaxMerge(snaps);
    assert x in AllItems(snaps);
    assert AsReading(x) in ReadingsOf(AllItems(snaps), AsReading);
  }

  /**
   * The merged series depends only on which items were seen, not on the
   * order of the snapshots or of the items, nor on how often each was seen.
   */
  lemma MergedDependsOnItemsOnly(a: seq<Snapshot<Sample>>, b: seq<Snapshot<Sample>>)
    requires forall x :: x in AllItems(a) <==> x in AllItems(b)
    ensures Merged(a) == Merged(b)
  {
    MergedIsMaxMerge(a);
    MergedIsMaxMerge(b);
    SameItemsSameReadings(AllItems(a), AllItems(b), AsReading);
    MaxMergeUnique(Merged(a), Merged(b), ReadingsOf(AllItems(a), AsReading));
  }

  /** Reordering the snapshot files does not change the series. */
  lemma SnapshotOrderIrrelevant(a: seq<Snapshot<Sample>>, b: seq<Snapshot<Sample>>)
    requires multiset(a) == multiset(b)
    ensures Merged(a) == Merged(b)
  {
    forall x ensures x in AllItems(a) <==> x in AllItems(b) {
      if x in AllItems(a) {
        var s :| s in a && x in Flat(s.entries);
        assert s in multiset(b);
      }
      if x in AllItems(b) {
        var s :| s in b && x in Flat(s.entries);
        assert s in multiset(a);
      }
    }
    MergedDependsOnItemsOnly(a, b);
  }

  /** Reading a snapshot a second time does not change the series. */
  lemma DuplicateSnapshotIrrelevant(a: seq<Snapshot<Sample>>, s: Snapshot<Sample>)
    requires s in a
    ensures Merged(a + [s]) == Merged(a)
  {
    forall x ensures x in AllItems(a + [s]) <==> x in AllItems(a) {
      if x in AllItems(a + [s]) {
        var t :| t in a + [s] && x in Flat(t.entries);
      }
    }
    MergedDependsOnItemsOnly(a + [s], a);
  }

  /**
   * A file whose entries carry no items under the metric's key (such as
   * the combiner's own output, whose entries have no "data" key) changes nothing.
   */
  lemma EmptyFileIrrelevant(a: seq<Snapshot<Sample>>, s: Snapshot<Sample>)
    requires forall e :: e in s.entries ==> e == []
    ensures Merged(a + [s]) == Merged(a)
  {
    forall x ensures x in AllItems(a + [s]) <==> x in AllItems(a) {
      if x in AllItems(a + [s]) {
        var t :| t in a + [s] && x in Flat(t.entries);
      }
    }
    MergedDependsOnItemsOnly(a + [s], a);
  }

  /** The source's two-step update (insert at zero, then raise) is one merge step. */
  lemma InsertThenRaise(m: map<string, Tally>, s: Sample)
    ensures var m1 := if s.timestamp !in m then m[s.timestamp := Zero] else m;
            var t := m1[s.timestamp];
            m1[s.timestamp := Tally(Max(s.count, t.count), Max(s.uniques, t.uniques))] == Absorb(m, s)
  {
  }

  /**
   * The innermost loop of the views or clones pass (lines 21-27): for each
   * item, insert its timestamp at zero when absent, then raise count and
   * uniques to the item's where those are larger.
   */
  method AbsorbItems(combined: map<string, Tally>, items: seq<Sample>) returns (r: map<string, Tally>)
    ensures r == FoldLeft(items, Absorb, combined)
  {
    r := combined;
    var k := 0;
    while k < |items|
      invariant 0 <= k <= |items|
      invariant r == FoldLeft(items[..k], Absorb, combined)
    {
      var item := items[k];
      ghost var prior := r;
      FoldLeftSnoc(items[..k], item, Absorb, combined);
      assert items[..k + 1] == items[..k] + [item];
      if item.timestamp !in r {
        r := r[item.timestamp := Zero];
      }
      var t := r[item.timestamp];
      r := r[item.timestamp := Tally(Max(item.count, t.count), Max(item.uniques, t.uniques))];
      InsertThenRaise(prior, item);
      k := k + 1;
    }
    assert items[..k] == items;
  }

  /**
   * The views or clones pass of the combiner (lines 15-27 and 51-59): fold
   * every item of every snapshot into a map keyed by the item's timestamp,
   * then list the map sorted by timestamp.
   */
  method CombineSeries(snaps: seq<Snapshot<Sample>>) returns (rows: seq<Row<Tally>>)
    ensures IsListing(rows, Merged(snaps))
  {
    var combined: map<string, Tally> := map[];
    var i := 0;
    while i < |snaps|
      invariant 0 <= i <= |snaps|
      invariant combined == FoldLeft(AllItems(snaps[..i]), Absorb, map[])
    {
      var entries := snaps[i].entries;
      ghost var before := combined;
      var j := 0;
      while j < |entries|
        invariant 0 <= j <= |entries|
        invariant combined == FoldLeft(Flat(entries[..j]), Absorb, before)
      {
        FlatPrefix(entries, j);
        FoldLeftAppend(Flat(entries[..j]), entries[j], Absorb, before);
        combined := AbsorbItems(combined, entries[j]);
        j := j + 1;
      }
      assert entries[..j] == entries;
      AllItemsPrefix(snaps, i);
      FoldLeftAppend(AllItems(snaps[..i]), Flat(entries), Absorb, map[]);
      i := i + 1;
    }
    assert snaps[..i] == snaps;
    rows := ListSorted(combined);
  }
}
