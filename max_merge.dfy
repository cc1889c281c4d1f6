/**
 * The max-merge rule of the combiner: every key holds a `{count, uniques}`
 * record that starts at zero and is only ever raised to the larger of its
 * current value and the value just observed.
 */
module MaxMerge {
  import opened Folds


  /** The `{count, uniques}` record kept per key. */
  datatype Tally = Tally(count: int, uniques: int)

  /** The record a key gets when it is first seen. */
  const Zero := Tally(0, 0)

  function Max(a: int, b: int): int {
    if a >= b then a else b
  }

  /** One observation of a key: the count and uniques reported for it. */
  datatype Reading = Reading(key: string, count: int, uniques: int)

  /**
   * One merge step: inserts `key` at zero when it is absent, then raises its
   * count and uniques to the observed ones where those are larger.
   */
  function Bump(m: map<string, Tally>, key: string, count: int, uniques: int): (r: map<string, Tally>)
    ensures r.Keys == m.Keys + {key}
    ensures forall k :: k in m && k != key ==> r[k] == m[k]
    ensures var before := if key in m then m[key] else Zero;
            && before.count <= r[key].count && count <= r[key].count
            && (r[key].count == before.count || r[key].count == count)
            && before.uniques <= r[key].uniques && uniques <= r[key].uniques
            && (r[key].uniques == before.uniques || r[key].uniques == uniques)
  {
    var before := if key in m then m[key] else Zero;
    m[key := Tally(Max(count, before.count), Max(uniques, before.uniques))]
  }

  /**
   * `m` is the max-merge of the readings `rs`: its keys are exactly the keys
   * read, and each key's count (uniques) is the maximum of 0 and every count
   * (uniques) read for that key.
   */
  ghost predicate IsMaxMerge(m: map<string, Tally>, rs: set<Reading>)
  {
    && (forall k :: k in m <==> exists r :: r in rs && r.key == k)
    && (forall r :: r in rs ==> r.key in m && r.count <= m[r.key].count && r.uniques <= m[r.key].uniques)
    && (forall k :: k in m ==> 0 <= m[k].count && 0 <= m[k].uniques)
    && (forall k :: k in m && m[k].count != 0 ==>
          exists r :: r in rs && r.key == k && r.count == m[k].count)
    && (forall k :: k in m && m[k].uniques != 0 ==>
          exists r :: r in rs && r.key == k && r.uniques == m[k].uniques)
  }

  /** The empty map is the max-merge of no readings. */
  lemma EmptyIsMaxMerge()
    ensures IsMaxMerge(map[], {})
  {
  }

  /** A merge step extends a max-merge by the reading it absorbs. */
  lemma BumpExtends(m: map<string, Tally>, rs: set<Reading>, x: Reading)
    requires IsMaxMerge(m, rs)
    ensures IsMaxMerge(Bump(m, x.key, x.count, x.uniques), rs + {x})
  {
    BumpKeepsKeys(m, rs, x);
    BumpKeepsCounts(m, rs, x);
    BumpKeepsUniques(m, rs, x);
  }

  lemma BumpKeepsKeys(m: map<string, Tally>, rs: set<Reading>, x: Reading)
    requires forall k :: k in m <==> exists r :: r in rs && r.key == k
    ensures var m' := Bump(m, x.key, x.count, x.uniques);
            forall k :: k in m' <==> exists r :: r in rs + {x} && r.key == k
  {
    var m' := Bump(m, x.key, x.count, x.uniques);
    forall k | k in m' ensures exists r :: r in rs + {x} && r.key == k {
      if k == x.key {
        assert x in rs + {x};
      } else {
        var r :| r in rs && r.key == k;
        assert r in rs + {x};
      }
    }
  }

  lemma BumpKeepsCounts(m: map<string, Tally>, rs: set<Reading>, x: Reading)
    requires IsMaxMerge(m, rs)
    ensures var m' := Bump(m, x.key, x.count, x.uniques);
            && (forall r :: r in rs + {x} ==> r.key in m' && r.count <= m'[r.key].count)
            && (forall k :: k in m' ==> 0 <= m'[k].count)
            && (forall k :: k in m' && m'[k].count != 0 ==>
                  exists r :: r in rs + {x} && r.key == k && r.count == m'[k].count)
  {
    var m' := Bump(m, x.key, x.count, x.uniques);
    forall k | k in m' && m'[k].count != 0
      ensures exists r :: r in rs + {x} && r.key == k && r.count == m'[k].count
    {
      if k == x.key && m'[k].count == x.count {
        assert x in rs + {x};
      } else {
        var r :| r in rs && r.key == k && r.count == m[k].count;
        assert r in rs + {x};
      }
    }
  }

  lemma BumpKeepsUniques(m: map<string, Tally>, rs: set<Reading>, x: Reading)
    requires IsMaxMerge(m, rs)
    ensures var m' := Bump(m, x.key, x.count, x.uniques);
            && (forall r :: r in rs + {x} ==> r.key in m' && r.uniques <= m'[r.key].uniques)
            && (forall k :: k in m' ==> 0 <= m'[k].uniques)
            && (forall k :: k in m' && m'[k].uniques != 0 ==>
                  exists r :: r in rs + {x} && r.key == k && r.uniques == m'[k].uniques)
  {
    var m' := Bump(m, x.key, x.count, x.uniques);
    forall k | k in m' && m'[k].uniques != 0
      ensures exists r :: r in rs + {x} && r.key == k && r.uniques == m'[k].uniques
    {
      if k == x.key && m'[k].uniques == x.uniques {
        assert x in rs + {x};
      } else {
        var r :| r in rs && r.key == k && r.uniques == m[k].uniques;
        assert r in rs + {x};
      }
    }
  }

  /**
   * The max-merge of a set of readings is unique: two maps that both merge
   * the same readings are equal.
   */
  lemma MaxMergeUnique(m1: map<string, Tally>, m2: map<string, Tally>, rs: set<Reading>)
    requires IsMaxMerge(m1, rs) && IsMaxMerge(m2, rs)
    ensures m1 == m2
  {
    forall k | k in m1 ensures k in m2 && m1[k] == m2[k] {
      var r0 :| r0 in rs && r0.key == k;
      assert k in m2;
      if m1[k].count != 0 {
        var r :| r in rs && r.key == k && r.count == m1[k].count;
      }
      if m2[k].count != 0 {
        var r :| r in rs && r.key == k && r.count == m2[k].count;
      }
      if m1[k].uniques != 0 {
        var r :| r in rs && r.key == k && r.uniques == m1[k].uniques;
      }
      if m2[k].uniques != 0 {
        var r :| r in rs && r.key == k && r.uniques == m2[k].uniques;
      }
    }
    assert m1.Keys == m2.Keys;
  }

  /** The readings the items of `xs` make, each item read through `f`. */
  ghost function ReadingsOf<T>(xs: seq<T>, f: T -> Reading): set<Reading> {
    set x | x in xs :: f(x)
  }

  lemma ReadingsSnoc<T>(xs: seq<T>, x: T, f: T -> Reading)
    ensures ReadingsOf(xs + [x], f) == ReadingsOf(xs, f) + {f(x)}
  {
  }

  lemma ReadingsLast<T>(xs: seq<T>, f: T -> Reading)
    requires xs != []
    ensures ReadingsOf(xs, f) == ReadingsOf(xs[..|xs| - 1], f) + {f(xs[|xs| - 1])}
  {
    ReadingsSnoc(xs[..|xs| - 1], xs[|xs| - 1], f);
    assert xs == xs[..|xs| - 1] + [xs[|xs| - 1]];
  }

  /** Items seen, not their order or multiplicity, decide the readings. */
  lemma SameItemsSameReadings<T>(xs: seq<T>, ys: seq<T>, f: T -> Reading)
    requires forall x :: x in xs <==> x in ys
    ensures ReadingsOf(xs, f) == ReadingsOf(ys, f)
  {
  }

  /**
   * Folding items in turn, with a step that absorbs each item's reading,
   * builds the max-merge of their readings.
   */
  lemma {:induction false} FoldIsMaxMerge<T>(xs: seq<T>, f: T -> Reading,
                                             step: (map<string, Tally>, T) -> map<string, Tally>)
    requires forall m, x :: step(m, x) == Bump(m, f(x).key, f(x).count, f(x).uniques)
    ensures IsMaxMerge(FoldLeft(xs, step, map[]), ReadingsOf(xs, f))
  {
    if xs == [] {
      EmptyIsMaxMerge();
    } else {
      var init, last := xs[..|xs| - 1], xs[|xs| - 1];
      FoldIsMaxMerge(init, f, step);
      ReadingsLast(xs, f);
      BumpExtends(FoldLeft(init, step, map[]), ReadingsOf(init, f), f(last));
    }
  }

  /** Two merge steps commute: the merged map does not depend on the order of readings. */
  lemma BumpCommutes(m: map<string, Tally>, a: Reading, b: Reading)
    ensures Bump(Bump(m, a.key, a.count, a.uniques), b.key, b.count, b.uniques)
         == Bump(Bump(m, b.key, b.count, b.uniques), a.key, a.count, a.uniques)
  {
  }

  /** Absorbing the same reading twice gives the map that absorbing it once gives. */
  lemma BumpIdempotent(m: map<string, Tally>, a: Reading)
    ensures var once := Bump(m, a.key, a.count, a.uniques);
            Bump(once, a.key, a.count, a.uniques) == once
  {
  }
}
