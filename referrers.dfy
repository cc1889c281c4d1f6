/**
 * The referrers combiner: items carry no date, so every item of a snapshot
 * is filed under the date in the snapshot's file name, and each date keeps,
 * per referrer, the running maximum of count and uniques.
 */
module Referrers {
  import opened Wrappers
  import FilenameDate
  import opened MaxMerge
  import opened Folds
  import opened Snapshots
  import opened Listing

  /** One item of a referrers payload. */
  datatype Referral = Referral(referrer: string, count: int, uniques: int)

  function AsReading(x: Referral): Reading {
    Reading(x.referrer, x.count, x.uniques)
  }

  /** Absorbing one item into a date's map keyed by referrer. */
  function Absorb(m: map<string, Tally>, x: Referral): (r: map<string, Tally>)
    ensures r.Keys == m.Keys + {x.referrer}
    ensures forall k :: k in m && k != x.referrer ==> r[k] == m[k]
  {
    Bump(m, x.referrer, x.count, x.uniques)
  }

  /** The combined map after every dated snapshot: date, then referrer, to the merged record. */
  function Merged(snaps: seq<Snapshot<Referral>>): map<string, map<string, Tally>> {
    FoldFiled(Filed(snaps), Absorb, map[], map[])
  }

  /**
   * The combined map as combine_json_files.py builds it: a snapshot whose
   * file name has no date files its items under None.
   */
  function MergedAsWritten(snaps: seq<Snapshot<Referral>>): map<Option<string>, map<string, Tally>> {
    FoldFiled(FiledAsWritten(snaps), Absorb, map[], map[])
  }

  /**
   * A date is in the combined map exactly when some item was filed under it,
   * and its referrers are the max-merge of the items filed under it.
   */
  lemma MergedByDate(snaps: seq<Snapshot<Referral>>, d: string)
    ensures d in Merged(snaps) <==> On(Filed(snaps), d) != []
    ensures d in Merged(snaps) ==> IsMaxMerge(Merged(snaps)[d], ReadingsOf(On(Filed(snaps), d), AsReading))
  {
    FoldFiledAt(Filed(snaps), Absorb, map[], d);
    FoldIsMaxMerge(On(Filed(snaps), d), AsReading, Absorb);
  }

  /**
   * Every item of a dated snapshot is filed under the file name's date,
   * whatever it contains: its referrer is present for that date, with count
   * and uniques at least the item's and never negative.
   */
  lemma FiledUnderFileDate(snaps: seq<Snapshot<Referral>>, s: Snapshot<Referral>, d: string, x: Referral)
    requires s in snaps && FilenameDate.ExtractTimestamp(s.filename) == Some(d) && x in Flat(s.entries)
    ensures d in Merged(snaps) && x.referrer in Merged(snaps)[d]
    ensures x.count <= Merged(snaps)[d][x.referrer].count
    ensures x.uniques <= Merged(snaps)[d][x.referrer].uniques
    ensures 0 <= Merged(snaps)[d][x.referrer].count && 0 <= Merged(snaps)[d][x.referrer].uniques
  {
    FiledMember(snaps, d, x);
    OnMember(Filed(snaps), d, x);
    MergedByDate(snaps, d);
    assert AsReading(x) in ReadingsOf(On(Filed(snaps), d), AsReading);
  }

  /**
   * The combined map depends only on which (date, item) pairs were filed,
   * not on the order of snapshots or items, nor on how often each was seen.
   */
  lemma MergedDependsOnFiledOnly(a: seq<Snapshot<Referral>>, b: seq<Snapshot<Referral>>)
    requires forall p :: p in Filed(a) <==> p in Filed(b)
    ensures Merged(a) == Merged(b)
  {
    forall d ensures (d in Merged(a) <==> d in Merged(b)) && (d in Merged(a) ==> Merged(a)[d] == Merged(b)[d]) {
      MergedByDate(a, d);
      MergedByDate(b, d);
      forall x ensures x in On(Filed(a), d) <==> x in On(Filed(b), d) {
        OnMember(Filed(a), d, x);
        OnMember(Filed(b), d, x);
      }
      if On(Filed(a), d) != [] {
        var x := On(Filed(a), d)[0];
        assert x in On(Filed(b), d);
      }
      if On(Filed(b), d) != [] {
        var x := On(Filed(b), d)[0];
        assert x in On(Filed(a), d);
      }
      if d in Merged(a) {
        SameItemsSameReadings(On(Filed(a), d), On(Filed(b), d), AsReading);
        MaxMergeUnique(Merged(a)[d], Merged(b)[d], ReadingsOf(On(Filed(a), d), AsReading));
      }
    }
  }

  /** Reordering the snapshot files does not change the combined map. */
  lemma SnapshotOrderIrrelevant(a: seq<Snapshot<Referral>>, b: seq<Snapshot<Referral>>)
    requires multiset(a) == multiset(b)
    ensures Merged(a) == Merged(b)
  {
    forall p: (string, Referral) ensures p in Filed(a) <==> p in Filed(b) {
      FiledMember(a, p.0, p.1);
      FiledMember(b, p.0, p.1);
      if exists s :: s in a && FiledFrom(s, p.0, p.1) {
        var s :| s in a && FiledFrom(s, p.0, p.1);
        assert s in multiset(b);
      }
      if exists s :: s in b && FiledFrom(s, p.0, p.1) {
        var s :| s in b && FiledFrom(s, p.0, p.1);
        assert s in multiset(a);
      }
    }
    MergedDependsOnFiledOnly(a, b);
  }

  /** Reading a snapshot a second time does not change the combined map. */
  lemma DuplicateSnapshotIrrelevant(a: seq<Snapshot<Referral>>, s: Snapshot<Referral>)
    requires s in a
    ensures Merged(a + [s]) == Merged(a)
  {
    forall p: (string, Referral) ensures p in Filed(a + [s]) <==> p in Filed(a) {
      FiledMember(a + [s], p.0, p.1);
      FiledMember(a, p.0, p.1);
      if exists t :: t in a + [s] && FiledFrom(t, p.0, p.1) {
        var t :| t in a + [s] && FiledFrom(t, p.0, p.1);
        assert t in a;
      }
    }
    MergedDependsOnFiledOnly(a + [s], a);
  }

  /**
   * A file whose name holds no date (such as the combiner's own output)
   * changes nothing in the corrected combiner.
   */
  lemma UndatedFileIgnored(a: seq<Snapshot<Referral>>, s: Snapshot<Referral>)
    requires FilenameDate.ExtractTimestamp(s.filename) == None
    ensures Merged(a + [s]) == Merged(a)
  {
    UndatedFileNotFiled(a, s);
  }

  /**
   * The corrected combined map is the dated part of the as-written one: the
   * two agree on every date and differ only by the None bucket.
   */
  lemma MergedIsDatedPartOfAsWritten(snaps: seq<Snapshot<Referral>>, d: string)
    ensures d in Merged(snaps) <==> Some(d) in MergedAsWritten(snaps)
    ensures d in Merged(snaps) ==> Merged(snaps)[d] == MergedAsWritten(snaps)[Some(d)]
  {
    DatedBucketsAgree(snaps, Absorb, map[], d);
  }

  /**
   * When every file name carries a date, the combiner as written and the
   * corrected one agree: no None key arises, and sorting the as-written
   * items, in any order, gives the corrected listing.
   */
  lemma AllDatedAsWritten(snaps: seq<Snapshot<Referral>>, raw: seq<RawRow<map<string, Tally>>>, rows: seq<Row<map<string, Tally>>>)
    requires forall s :: s in snaps ==> FilenameDate.ExtractTimestamp(s.filename).Some?
    requires IsItemsOf(raw, MergedAsWritten(snaps))
    requires IsListing(rows, Merged(snaps))
    ensures None !in MergedAsWritten(snaps)
    ensures SortAsWritten(raw) == Sorted(DatedRows(rows))
  {
    AllDatedAgree(snaps, Absorb, map[]);
    DatedItemsSort(raw, MergedAsWritten(snaps), Merged(snaps), rows);
  }

  /**
   * As written, a second run fails: a file without a date in its name that
   * matches the snapshot pattern, such as the combiner's own output, has its
   * items filed under None next to the real dates, and sorting the rows then
   * compares None with a string. The corrected combiner ignores such a file
   * (UndatedFileIgnored).
   */
  lemma RerunRaisesAsWritten(day: Snapshot<Referral>, output: Snapshot<Referral>, d: string,
                              rows: seq<RawRow<map<string, Tally>>>)
    requires FilenameDate.ExtractTimestamp(day.filename) == Some(d)
    requires FilenameDate.ExtractTimestamp(output.filename) == None
    requires Flat(day.entries) != [] && Flat(output.entries) != []
    requires IsItemsOf(rows, MergedAsWritten([day, output]))
    ensures SortAsWritten(rows).Raised?
  {
    UndatedBesideDatedAsWritten(day, output, d, Absorb, map[]);
    ItemsSortRaises(rows, MergedAsWritten([day, output]));
  }

  /**
   * As written, undated files read without any dated snapshot do not raise
   * once some item is present: the output is the one row whose timestamp is
   * None (`null` in the written JSON).
   */
  lemma UndatedOnlyDoesNotRaise(snaps: seq<Snapshot<Referral>>, rows: seq<RawRow<map<string, Tally>>>)
    requires forall s :: s in snaps ==> FilenameDate.ExtractTimestamp(s.filename) == None
    requires AllItems(snaps) != []
    requires IsItemsOf(rows, MergedAsWritten(snaps))
    ensures None in MergedAsWritten(snaps)
    ensures rows == [RawRow(None, MergedAsWritten(snaps)[None])]
    ensures SortAsWritten(rows) == Sorted(rows)
  {
    AllUndatedAsWritten(snaps, Absorb, map[]);
    LoneUndatedRow(rows, MergedAsWritten(snaps));
  }

  /**
   * The file names of a daily referrers snapshot and of the combiner's own
   * output for repository `soprano`: both match the pattern the snapshots are
   * globbed by; the first gives its date, the second none, so a second run
   * reads the output as an undated file.
   */
  lemma RerunFileNames()
    ensures MatchesPattern("soprano" + "-" + "referrers" + "-" + "2024-05-01" + ".json", "soprano", "referrers")
    ensures MatchesPattern("soprano" + "-" + "referrers" + "-" + "combined" + ".json", "soprano", "referrers")
    ensures FilenameDate.ExtractTimestamp("soprano-referrers-" + "2024-05-01" + ".json") == Some("2024-05-01")
    ensures FilenameDate.ExtractTimestamp("soprano-referrers-combined.json") == None
  {
    NameMatchesPattern("soprano", "referrers", "2024-05-01");
    NameMatchesPattern("soprano", "referrers", "combined");
    var prefix := "soprano-referrers-";
    forall k | 0 <= k < |prefix| ensures !FilenameDate.IsDigit(prefix[k]) {
    }
    FilenameDate.NoDateInPrefix(prefix, "2024-05-01" + ".json");
    assert prefix + "2024-05-01" + ".json" == prefix + ("2024-05-01" + ".json");
    assert FilenameDate.DateAt("2024-05-01", 0);
    FilenameDate.ExtractsSnapshotDate(prefix, "2024-05-01", ".json");
    FilenameDate.CombinedFileHasNoDate();
  }

  /**
   * The source's nested update (create the date's bucket when absent, insert
   * the referrer at zero when absent, then raise) is one filing step.
   */
  lemma FileThenRaise(m: map<string, map<string, Tally>>, ts: string, x: Referral)
    ensures var m1 := if ts !in m then m[ts := map[]] else m;
            var inner := if x.referrer !in m1[ts] then m1[ts][x.referrer := Zero] else m1[ts];
            var t := inner[x.referrer];
            m1[ts := inner[x.referrer := Tally(Max(x.count, t.count), Max(x.uniques, t.uniques))]]
              == FileInto(m, (ts, x), Absorb, map[])
  {
    var bucket := if ts in m then m[ts] else map[];
    var m1 := if ts !in m then m[ts := map[]] else m;
    assert m1[ts] == bucket;
    var inner := if x.referrer !in bucket then bucket[x.referrer := Zero] else bucket;
    var before := if x.referrer in bucket then bucket[x.referrer] else Zero;
    assert inner[x.referrer] == before;
    assert FileInto(m, (ts, x), Absorb, map[]) == m[ts := Absorb(bucket, x)];
    var raised := inner[x.referrer := Tally(Max(x.count, before.count), Max(x.uniques, before.uniques))];
    assert Absorb(bucket, x) == raised;
    assert m1[ts := raised] == m[ts := raised];
  }

  /**
   * Lines 29-40 of the combiner for one entry: each item goes into the
   * bucket for the file's date, created empty when absent, where its
   * referrer is inserted at zero when absent and then raised.
   */
  method AbsorbReferrals(combined: map<string, map<string, Tally>>, ts: string, items: seq<Referral>)
    returns (r: map<string, map<string, Tally>>)
    ensures r == FoldFiled(Under(ts, items), Absorb, map[], combined)
  {
    r := combined;
    var k := 0;
    while k < |items|
      invariant 0 <= k <= |items|
      invariant r == FoldFiled(Under(ts, items[..k]), Absorb, map[], combined)
    {
      var item := items[k];
      ghost var prior := r;
      FoldFiledUnderNext(ts, items, k, Absorb, map[], combined);
      if ts !in r {
        r := r[ts := map[]];
      }
      var inner := r[ts];
      if item.referrer !in inner {
        inner := inner[item.referrer := Zero];
      }
      var t := inner[item.referrer];
      r := r[ts := inner[item.referrer := Tally(Max(item.count, t.count), Max(item.uniques, t.uniques))]];
      FileThenRaise(prior, ts, item);
      assert r == FileInto(prior, (ts, items[k]), Absorb, map[]);
      k := k + 1;
    }
    assert items[..k] == items;
  }

  /** Lines 29-40 of the combiner for one snapshot, whose date is `ts`. */
  method AbsorbSnapshot(combined: map<string, map<string, Tally>>, ts: string, entries: seq<seq<Referral>>)
    returns (r: map<string, map<string, Tally>>)
    ensures r == FoldFiled(Under(ts, Flat(entries)), Absorb, map[], combined)
  {
    r := combined;
    var j := 0;
    while j < |entries|
      invariant 0 <= j <= |entries|
      invariant r == FoldFiled(Under(ts, Flat(entries[..j])), Absorb, map[], combined)
    {
      FlatPrefix(entries, j);
      UnderAppend(ts, Flat(entries[..j]), entries[j]);
      FoldFiledAppend(Under(ts, Flat(entries[..j])), Under(ts, entries[j]), Absorb, map[], combined);
      r := AbsorbReferrals(r, ts, entries[j]);
      j := j + 1;
    }
    assert entries[..j] == entries;
  }

  /**
   * The referrers pass of the combiner (lines 15-19, 28-40 and 51-59), with
   * files whose name has no date skipped: fold every item of every dated
   * snapshot into the map under the file's date, then list the map sorted
   * by date.
   */
  method CombineReferrers(snaps: seq<Snapshot<Referral>>) returns (rows: seq<Row<map<string, Tally>>>)
    ensures IsListing(rows, Merged(snaps))
  {
    var combined: map<string, map<string, Tally>> := map[];
    var i := 0;
    while i < |snaps|
      invariant 0 <= i <= |snaps|
      invariant combined == FoldFiled(Filed(snaps[..i]), Absorb, map[], map[])
    {
      var timestamp := FilenameDate.ExtractTimestamp(snaps[i].filename);
      FiledPrefix(snaps, i);
      if timestamp.Some? {
        var ts := timestamp.value;
        FoldFiledAppend(Filed(snaps[..i]), Under(ts, Flat(snaps[i].entries)), Absorb, map[], map[]);
        combined := AbsorbSnapshot(combined, ts, snaps[i].entries);
      }
      i := i + 1;
    }
    assert snaps[..i] == snaps;
    rows := ListSorted(combined);
  }
}
