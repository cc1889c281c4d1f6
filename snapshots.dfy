/**
 * Raw snapshot files and the two ways the combiner walks them: item by item
 * (views and clones, keyed by each item's own timestamp) and item by item
 * filed under the date taken from the file name (referrers and paths).
 */
module Snapshots {
  import opened Wrappers
  import opened Folds
  import FilenameDate

  /**
   * One raw snapshot file: its name and its list of entries. Each entry is
   * the list of items stored under the entry's "data" key (for views and
   * clones, under the metric's own key inside "data"), or [] when that key
   * is absent.
   */
  datatype Snapshot<T> = Snapshot(filename: string, entries: seq<seq<T>>)

  /** The items of a list of entries, in order. */
  function Flat<T(!new)>(entries: seq<seq<T>>): (r: seq<T>)
    ensures forall x :: x in r <==> exists e :: e in entries && x in e
  {
    if entries == [] then []
    else
      var last := entries[|entries| - 1];
      assert entries == entries[..|entries| - 1] + [last];
      Flat(entries[..|entries| - 1]) + last
  }

  /** A snapshot with one entry holding one item has that item alone. */
  lemma FlatSingle<T(!new)>(x: T)
    ensures Flat([[x]]) == [x]
  {
    assert [[x]][..0] == [];
  }

  /** Every item of every snapshot, in the order the combiner visits them. */
  function AllItems<T(!new)>(snaps: seq<Snapshot<T>>): (r: seq<T>)
    ensures forall x :: x in r <==> exists s :: s in snaps && x in Flat(s.entries)
  {
    if snaps == [] then []
    else
      var last := snaps[|snaps| - 1];
      assert snaps == snaps[..|snaps| - 1] + [last];
      AllItems(snaps[..|snaps| - 1]) + Flat(last.entries)
  }

  lemma FlatPrefix<T(!new)>(entries: seq<seq<T>>, j: nat)
    requires j < |entries|
    ensures Flat(entries[..j + 1]) == Flat(entries[..j]) + entries[j]
  {
    assert entries[..j + 1][..j] == entries[..j];
  }

  lemma AllItemsPrefix<T(!new)>(snaps: seq<Snapshot<T>>, i: nat)
    requires i < |snaps|
    ensures AllItems(snaps[..i + 1]) == AllItems(snaps[..i]) + Flat(snaps[i].entries)
  {
    assert snaps[..i + 1][..i] == snaps[..i];
  }

  /** Each item paired with the key `d` it is filed under. */
  function Under<K, T>(d: K, xs: seq<T>): (r: seq<(K, T)>)
    ensures |r| == |xs|
    ensures forall i :: 0 <= i < |xs| ==> r[i] == (d, xs[i])
  {
    if xs == [] then [] else Under(d, xs[..|xs| - 1]) + [(d, xs[|xs| - 1])]
  }

  /** File name `name` matches the pattern `{repo}-{metric}-*.json` the snapshots are globbed by. */
  predicate MatchesPattern(name: string, repo: string, metric: string)
  {
    var head := repo + "-" + metric + "-";
    && |head| + 5 <= |name|
    && name[..|head|] == head
    && name[|name| - 5..] == ".json"
  }

  /** Every name built as `{repo}-{metric}-{middle}.json` matches, whatever the middle. */
  lemma NameMatchesPattern(repo: string, metric: string, middle: string)
    ensures MatchesPattern(repo + "-" + metric + "-" + middle + ".json", repo, metric)
  {
    var head := repo + "-" + metric + "-";
    var name := head + middle + ".json";
    assert name[..|head|] == head;
    assert name[|name| - 5..] == ".json";
  }

  /**
   * The items of the snapshots whose file name carries a date, each filed
   * under that date; a snapshot whose name has no date contributes nothing.
   */
  function Filed<T(!new)>(snaps: seq<Snapshot<T>>): seq<(string, T)>
  {
    if snaps == [] then []
    else
      var last := snaps[|snaps| - 1];
      match FilenameDate.ExtractTimestamp(last.filename)
      case Some(d) => Filed(snaps[..|snaps| - 1]) + Under(d, Flat(last.entries))
      case None => Filed(snaps[..|snaps| - 1])
  }

  /** Filing one more snapshot appends its items under its date, or nothing when it has none. */
  lemma FiledPrefix<T(!new)>(snaps: seq<Snapshot<T>>, i: nat)
    requires i < |snaps|
    ensures FilenameDate.ExtractTimestamp(snaps[i].filename).Some? ==>
              Filed(snaps[..i + 1]) == Filed(snaps[..i])
                + Under(FilenameDate.ExtractTimestamp(snaps[i].filename).value, Flat(snaps[i].entries))
    ensures FilenameDate.ExtractTimestamp(snaps[i].filename).None? ==> Filed(snaps[..i + 1]) == Filed(snaps[..i])
  {
    assert snaps[..i + 1][..i] == snaps[..i];
  }

  /**
   * The items of every snapshot filed under whatever the file name gives,
   * None included, as combine_json_files.py does.
   */
  function FiledAsWritten<T(!new)>(snaps: seq<Snapshot<T>>): seq<(Option<string>, T)>
  {
    if snaps == [] then []
    else
      var last := snaps[|snaps| - 1];
      FiledAsWritten(snaps[..|snaps| - 1])
        + Under(FilenameDate.ExtractTimestamp(last.filename), Flat(last.entries))
  }

  /** Snapshot `s` has a dated file name giving `d`, and item `x` among its items. */
  ghost predicate FiledFrom<T(!new)>(s: Snapshot<T>, d: string, x: T)
  {
    FilenameDate.ExtractTimestamp(s.filename) == Some(d) && x in Flat(s.entries)
  }

  lemma UnderMember<K, T>(e: K, xs: seq<T>, p: (K, T))
    ensures p in Under(e, xs) <==> p.0 == e && p.1 in xs
  {
    if p.0 == e && p.1 in xs {
      var i :| 0 <= i < |xs| && xs[i] == p.1;
      assert Under(e, xs)[i] == p;
    }
  }

  lemma FiledLast<T(!new)>(snaps: seq<Snapshot<T>>, d: string, x: T)
    requires snaps != []
    ensures (d, x) in Filed(snaps) <==>
              (d, x) in Filed(snaps[..|snaps| - 1]) || FiledFrom(snaps[|snaps| - 1], d, x)
  {
    var last := snaps[|snaps| - 1];
    match FilenameDate.ExtractTimestamp(last.filename)
    case Some(e) => UnderMember(e, Flat(last.entries), (d, x));
    case None =>
  }

  /** An item is filed under `d` exactly when it sits in a snapshot whose file name gives `d`. */
  lemma {:induction false} FiledMember<T(!new)>(snaps: seq<Snapshot<T>>, d: string, x: T)
    ensures (d, x) in Filed(snaps) <==> exists s :: s in snaps && FiledFrom(s, d, x)
  {
    if snaps != [] {
      var init, last := snaps[..|snaps| - 1], snaps[|snaps| - 1];
      assert snaps == init + [last];
      FiledMember(init, d, x);
      FiledLast(snaps, d, x);
      if exists s :: s in snaps && FiledFrom(s, d, x) {
        var s :| s in snaps && FiledFrom(s, d, x);
        assert s == last || s in init;
      }
    }
  }

  /**
   * One step of the outer fold: creates the bucket for the pair's key when it
   * is absent and absorbs the pair's item into it.
   */
  function FileInto<K, T, I>(m: map<K, I>, p: (K, T), step: (I, T) -> I, empty: I): (r: map<K, I>)
    ensures r.Keys == m.Keys + {p.0}
    ensures forall k :: k in m && k != p.0 ==> r[k] == m[k]
  {
    m[p.0 := step(if p.0 in m then m[p.0] else empty, p.1)]
  }

  /** The buckets built by filing every pair of `ps` in turn into `start`. */
  function FoldFiled<K, T, I>(ps: seq<(K, T)>, step: (I, T) -> I, empty: I, start: map<K, I>): map<K, I>
  {
    if ps == [] then start
    else FileInto(FoldFiled(ps[..|ps| - 1], step, empty, start), ps[|ps| - 1], step, empty)
  }

  lemma FoldFiledSnoc<K, T, I>(ps: seq<(K, T)>, p: (K, T), step: (I, T) -> I, empty: I, start: map<K, I>)
    ensures FoldFiled(ps + [p], step, empty, start) == FileInto(FoldFiled(ps, step, empty, start), p, step, empty)
  {
    assert (ps + [p])[..|ps|] == ps;
  }

  /** Filing a concatenation is filing the second part into what the first built. */
  lemma {:induction false} FoldFiledAppend<K, T, I>(ps: seq<(K, T)>, qs: seq<(K, T)>, step: (I, T) -> I, empty: I, start: map<K, I>)
    ensures FoldFiled(ps + qs, step, empty, start) == FoldFiled(qs, step, empty, FoldFiled(ps, step, empty, start))
    decreases |qs|
  {
    if qs == [] {
      assert ps + qs == ps;
    } else {
      var front := qs[..|qs| - 1];
      FoldFiledAppend(ps, front, step, empty, start);
      assert (ps + qs)[..|ps + qs| - 1] == ps + front;
    }
  }

  lemma UnderAppend<K, T>(d: K, xs: seq<T>, ys: seq<T>)
    ensures Under(d, xs + ys) == Under(d, xs) + Under(d, ys)
  {
  }

  /** Filing one more item of a run under `d` is one filing step on what the run so far built. */
  lemma FoldFiledUnderNext<K, T, I>(d: K, items: seq<T>, k: nat, step: (I, T) -> I, empty: I, start: map<K, I>)
    requires k < |items|
    ensures FoldFiled(Under(d, items[..k + 1]), step, empty, start)
         == FileInto(FoldFiled(Under(d, items[..k]), step, empty, start), (d, items[k]), step, empty)
  {
    assert items[..k + 1] == items[..k] + [items[k]];
    UnderAppend(d, items[..k], [items[k]]);
    FoldFiledSnoc(Under(d, items[..k]), (d, items[k]), step, empty, start);
  }

  /** The items filed under `d`, in order. */
  function On<K(==), T>(ps: seq<(K, T)>, d: K): seq<T>
  {
    if ps == [] then []
    else
      var last := ps[|ps| - 1];
      On(ps[..|ps| - 1], d) + (if last.0 == d then [last.1] else [])
  }

  lemma {:induction false} OnMember<K, T>(ps: seq<(K, T)>, d: K, x: T)
    ensures x in On(ps, d) <==> (d, x) in ps
  {
    if ps != [] {
      var init, last := ps[..|ps| - 1], ps[|ps| - 1];
      OnMember(init, d, x);
      assert ps == init + [last];
    }
  }

  /**
   * Filing decomposes by key: a bucket exists exactly for the keys some pair
   * is filed under, and each bucket is the fold of its own items in order.
   */
  lemma {:induction false} FoldFiledAt<K, T, I>(ps: seq<(K, T)>, step: (I, T) -> I, empty: I, d: K)
    ensures d in FoldFiled(ps, step, empty, map[]) <==> On(ps, d) != []
    ensures d in FoldFiled(ps, step, empty, map[]) ==>
              FoldFiled(ps, step, empty, map[])[d] == FoldLeft(On(ps, d), step, empty)
  {
    if ps != [] {
      var init, last := ps[..|ps| - 1], ps[|ps| - 1];
      FoldFiledAt(init, step, empty, d);
      var m := FoldFiled(init, step, empty, map[]);
      assert FoldFiled(ps, step, empty, map[]) == FileInto(m, last, step, empty);
      assert On(ps, d) == On(init, d) + (if last.0 == d then [last.1] else []);
      if d == last.0 {
        assert On(ps, d) == On(init, d) + [last.1];
        FoldLeftSnoc(On(init, d), last.1, step, empty);
        var prior := if d in m then m[d] else empty;
        assert prior == FoldLeft(On(init, d), step, empty);
        assert FoldFiled(ps, step, empty, map[])[d] == step(prior, last.1);
      } else {
        assert On(ps, d) == On(init, d);
      }
    }
  }

  /**
   * Skipping undated files keeps exactly the dated buckets of the as-written
   * filing: the items filed under `d` are those filed under Some(d).
   */
  lemma {:induction false} FiledIsDatedPart<T(!new)>(snaps: seq<Snapshot<T>>, d: string)
    ensures On(Filed(snaps), d) == On(FiledAsWritten(snaps), Some(d))
  {
    if snaps != [] {
      var init, last := snaps[..|snaps| - 1], snaps[|snaps| - 1];
      FiledIsDatedPart(init, d);
      var xs := Flat(last.entries);
      match FilenameDate.ExtractTimestamp(last.filename)
      case Some(e) =>
        OnAppend(Filed(init), Under(e, xs), d);
        OnAppend(FiledAsWritten(init), Under(Some(e), xs), Some(d));
        OnUnder(e, xs, d);
        OnUnder(Some(e), xs, Some(d));
      case None =>
        OnAppend(FiledAsWritten(init), Under(None, xs), Some(d));
        OnUnder(None, xs, Some(d));
    }
  }

  lemma {:induction false} OnAppend<K, T>(ps: seq<(K, T)>, qs: seq<(K, T)>, d: K)
    ensures On(ps + qs, d) == On(ps, d) + On(qs, d)
    decreases |qs|
  {
    if qs != [] {
      var init, last := qs[..|qs| - 1], qs[|qs| - 1];
      OnAppend(ps, init, d);
      assert (ps + qs)[..|ps + qs| - 1] == ps + init;
      var tail := if last.0 == d then [last.1] else [];
      assert On(ps + qs, d) == On(ps + init, d) + tail;
      assert On(qs, d) == On(init, d) + tail;
    } else {
      assert ps + qs == ps;
    }
  }

  lemma {:induction false} OnUnder<K, T>(e: K, xs: seq<T>, d: K)
    ensures On(Under(e, xs), d) == if e == d then xs else []
  {
    if xs != [] {
      var init := xs[..|xs| - 1];
      OnUnder(e, init, d);
      assert Under(e, xs)[..|xs| - 1] == Under(e, init);
      assert xs == init + [xs[|xs| - 1]];
    }
  }

  /**
   * As written, a dated snapshot read together with a snapshot whose file
   * name has no date leaves a bucket for the date and a bucket for None.
   */
  lemma UndatedBesideDatedAsWritten<T(!new), I>(day: Snapshot<T>, output: Snapshot<T>, d: string,
                                               step: (I, T) -> I, empty: I)
    requires FilenameDate.ExtractTimestamp(day.filename) == Some(d)
    requires FilenameDate.ExtractTimestamp(output.filename) == None
    requires Flat(day.entries) != [] && Flat(output.entries) != []
    ensures var m := FoldFiled(FiledAsWritten([day, output]), step, empty, map[]);
            None in m && Some(d) in m
  {
    var ps := FiledAsWritten([day, output]);
    assert [day, output][..1] == [day];
    assert [day][..0] == [];
    var dated, undated := Under(Some(d), Flat(day.entries)), Under(None, Flat(output.entries));
    assert FiledAsWritten([day]) == FiledAsWritten([]) + dated;
    assert FiledAsWritten([day]) == dated;
    assert ps == FiledAsWritten([day]) + undated;
    var x, y := Flat(day.entries)[0], Flat(output.entries)[0];
    assert dated[0] == (Some(d), x);
    assert undated[0] == (None, y);
    assert (Some(d), x) in ps;
    assert (None, y) in ps;
    OnMember(ps, Some(d), x);
    OnMember(ps, None, y);
    FoldFiledAt(ps, step, empty, Some(d));
    FoldFiledAt(ps, step, empty, None);
  }

  /** When no file name carries a date, as written every item is filed under None, in order. */
  lemma {:induction false} AllUndatedUnderNone<T(!new)>(snaps: seq<Snapshot<T>>)
    requires forall s :: s in snaps ==> FilenameDate.ExtractTimestamp(s.filename) == None
    ensures On(FiledAsWritten(snaps), None) == AllItems(snaps)
    ensures forall d :: On(FiledAsWritten(snaps), Some(d)) == []
  {
    if snaps != [] {
      var init, last := snaps[..|snaps| - 1], snaps[|snaps| - 1];
      assert forall s :: s in init ==> s in snaps;
      AllUndatedUnderNone(init);
      var xs := Flat(last.entries);
      OnAppend(FiledAsWritten(init), Under(None, xs), None);
      OnUnder<Option<string>, T>(None, xs, None);
      forall d ensures On(FiledAsWritten(snaps), Some(d)) == [] {
        OnAppend(FiledAsWritten(init), Under(None, xs), Some(d));
        OnUnder(None, xs, Some(d));
      }
    }
  }

  /**
   * As written, snapshots none of whose file names has a date, holding at
   * least one item between them, leave exactly one bucket, under None.
   */
  lemma AllUndatedAsWritten<T(!new), I>(snaps: seq<Snapshot<T>>, step: (I, T) -> I, empty: I)
    requires forall s :: s in snaps ==> FilenameDate.ExtractTimestamp(s.filename) == None
    requires AllItems(snaps) != []
    ensures FoldFiled(FiledAsWritten(snaps), step, empty, map[]).Keys == {None}
  {
    AllUndatedUnderNone(snaps);
    forall k ensures k in FoldFiled(FiledAsWritten(snaps), step, empty, map[]) <==> k == None {
      FoldFiledAt(FiledAsWritten(snaps), step, empty, k);
    }
  }

  /** A snapshot whose file name has no date files nothing. */
  lemma UndatedFileNotFiled<T(!new)>(a: seq<Snapshot<T>>, s: Snapshot<T>)
    requires FilenameDate.ExtractTimestamp(s.filename) == None
    ensures Filed(a + [s]) == Filed(a)
  {
    FiledPrefix(a + [s], |a|);
    assert (a + [s])[..|a|] == a;
    assert (a + [s])[..|a| + 1] == a + [s];
  }

  /**
   * Folding the filed items gives, for every date, the bucket the as-written
   * filing gives under Some(date).
   */
  lemma DatedBucketsAgree<T(!new), I>(snaps: seq<Snapshot<T>>, step: (I, T) -> I, empty: I, d: string)
    ensures (d in FoldFiled(Filed(snaps), step, empty, map[])) <==>
            (Some(d) in FoldFiled(FiledAsWritten(snaps), step, empty, map[]))
    ensures d in FoldFiled(Filed(snaps), step, empty, map[]) ==>
              FoldFiled(Filed(snaps), step, empty, map[])[d]
                == FoldFiled(FiledAsWritten(snaps), step, empty, map[])[Some(d)]
  {
    FiledIsDatedPart(snaps, d);
    FoldFiledAt(Filed(snaps), step, empty, d);
    FoldFiledAt(FiledAsWritten(snaps), step, empty, Some(d));
  }

  /** When every file name carries a date, nothing is filed under None as written. */
  lemma {:induction false} AllDatedNothingUndated<T(!new)>(snaps: seq<Snapshot<T>>)
    requires forall s :: s in snaps ==> FilenameDate.ExtractTimestamp(s.filename).Some?
    ensures On(FiledAsWritten(snaps), None) == []
  {
    if snaps != [] {
      var init, last := snaps[..|snaps| - 1], snaps[|snaps| - 1];
      assert forall s :: s in init ==> s in snaps;
      AllDatedNothingUndated(init);
      var e := FilenameDate.ExtractTimestamp(last.filename);
      OnAppend(FiledAsWritten(init), Under(e, Flat(last.entries)), None);
      OnUnder(e, Flat(last.entries), None);
    }
  }

  /**
   * When every file name carries a date, the as-written fold has no None
   * bucket and otherwise holds exactly the corrected fold's buckets.
   */
  lemma AllDatedAgree<T(!new), I>(snaps: seq<Snapshot<T>>, step: (I, T) -> I, empty: I)
    requires forall s :: s in snaps ==> FilenameDate.ExtractTimestamp(s.filename).Some?
    ensures None !in FoldFiled(FiledAsWritten(snaps), step, empty, map[])
    ensures forall d :: (d in FoldFiled(Filed(snaps), step, empty, map[])) <==>
                        (Some(d) in FoldFiled(FiledAsWritten(snaps), step, empty, map[]))
    ensures forall d :: d in FoldFiled(Filed(snaps), step, empty, map[]) ==>
                        FoldFiled(Filed(snaps), step, empty, map[])[d]
                          == FoldFiled(FiledAsWritten(snaps), step, empty, map[])[Some(d)]
  {
    AllDatedNothingUndated(snaps);
    FoldFiledAt(FiledAsWritten(snaps), step, empty, None);
    forall d {
      DatedBucketsAgree(snaps, step, empty, d);
    }
  }
}
