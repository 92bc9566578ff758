/**
 * The area catalogue: the names column of the shapefile becomes the sorted,
 * de-duplicated list of area names (`sorted(gdf[NAVN_FELT].unique().tolist())`).
 */
module Areas {
  import opened Wrappers

  type Area = string

  /** Python's `<` on `str`: lexicographic comparison by code point. */
  predicate Below(a: string, b: string)
    decreases |a|
  {
    if |a| == 0 then |b| > 0
    else if |b| == 0 then false
    else a[0] < b[0] || (a[0] == b[0] && Below(a[1..], b[1..]))
  }

  lemma {:induction false} BelowIrreflexive(a: string)
    ensures !Below(a, a)
    decreases |a|
  {
    if |a| > 0 {
      BelowIrreflexive(a[1..]);
    }
  }

  lemma {:induction false} BelowTransitive(a: string, b: string, c: string)
    requires Below(a, b) && Below(b, c)
    ensures Below(a, c)
    decreases |a|
  {
    if |a| > 0 && a[0] == b[0] && b[0] == c[0] {
      BelowTransitive(a[1..], b[1..], c[1..]);
    }
  }

  lemma {:induction false} BelowTotal(a: string, b: string)
    requires a != b
    ensures Below(a, b) || Below(b, a)
    decreases |a|
  {
    if |a| > 0 && |b| > 0 && a[0] == b[0] {
      assert a == [a[0]] + a[1..] && b == [b[0]] + b[1..];
      BelowTotal(a[1..], b[1..]);
    }
  }

  lemma {:induction false} BelowAsymmetric(a: string, b: string)
    requires Below(a, b)
    ensures !Below(b, a)
    decreases |a|
  {
    if |a| > 0 && a[0] == b[0] {
      BelowAsymmetric(a[1..], b[1..]);
    }
  }

  /** Ascending order without repetitions. */
  predicate StrictlySorted(s: seq<string>)
  {
    forall i, j :: 0 <= i < j < |s| ==> Below(s[i], s[j])
  }

  lemma StrictlySortedDistinct(s: seq<string>)
    requires StrictlySorted(s)
    ensures Distinct(s)
  {
    forall i, j | 0 <= i < j < |s| ensures s[i] != s[j] {
      if s[i] == s[j] {
        BelowIrreflexive(s[i]);
      }
    }
  }

  /** `Series.unique()`: each distinct name once, in order of first occurrence. */
  function Unique(names: seq<Area>): (r: seq<Area>)
    ensures Distinct(r)
    ensures forall x :: x in r <==> x in names
  {
    if names == [] then []
    else
      var u := Unique(names[..|names| - 1]);
      var x := names[|names| - 1];
      assert names == names[..|names| - 1] + [x];
      if x in u then u else u + [x]
  }

  /** One step of sorting: place a new name into an ascending list. */
  function Insert(x: Area, s: seq<Area>): (r: seq<Area>)
    ensures |r| == |s| + 1
    ensures forall y :: y in r <==> y == x || y in s
  {
    if s == [] then [x]
    else if Below(x, s[0]) then [x] + s
    else [s[0]] + Insert(x, s[1..])
  }

  lemma {:induction false} InsertSorted(x: Area, s: seq<Area>)
    requires StrictlySorted(s) && x !in s
    ensures StrictlySorted(Insert(x, s))
  {
    if s == [] {
    } else if Below(x, s[0]) {
      var r := [x] + s;
      forall i, j | 0 <= i < j < |r| ensures Below(r[i], r[j]) {
        if i == 0 && j > 1 {
          BelowTransitive(x, s[0], s[j - 1]);
        }
      }
    } else {
      BelowTotal(x, s[0]);
      assert StrictlySorted(s[1..]);
      InsertSorted(x, s[1..]);
      var t := Insert(x, s[1..]);
      forall k | 0 <= k < |t| ensures Below(s[0], t[k]) {
        assert t[k] in t;
        if t[k] != x {
          var m :| 0 <= m < |s[1..]| && s[1..][m] == t[k];
          assert s[m + 1] == t[k];
        }
      }
    }
  }

  /** `sorted(...)` on a list whose names are already distinct. */
  function Sort(xs: seq<Area>): (r: seq<Area>)
    ensures |r| == |xs|
    ensures forall y :: y in r <==> y in xs
  {
    if xs == [] then [] else Insert(xs[0], Sort(xs[1..]))
  }

  lemma {:induction false} SortSorted(xs: seq<Area>)
    requires Distinct(xs)
    ensures StrictlySorted(Sort(xs))
  {
    if xs != [] {
      assert Distinct(xs[1..]);
      SortSorted(xs[1..]);
      assert xs[0] !in xs[1..];
      InsertSorted(xs[0], Sort(xs[1..]));
    }
  }

  /** The area list `områder_liste` derived from the names column. */
  function AreaList(names: seq<Area>): (r: seq<Area>)
  {
    Sort(Unique(names))
  }

  /**
   * The area list is ascending, holds no name twice, and holds exactly the names
   * that occur in the column.
   */
  lemma AreaListSpec(names: seq<Area>)
    ensures StrictlySorted(AreaList(names))
    ensures Distinct(AreaList(names))
    ensures forall x :: x in AreaList(names) <==> x in names
  {
    SortSorted(Unique(names));
    StrictlySortedDistinct(AreaList(names));
  }

  /** An ascending list without repetitions is determined by its set of members. */
  lemma {:induction false} SortedUnique(a: seq<Area>, b: seq<Area>)
    requires StrictlySorted(a) && StrictlySorted(b)
    requires forall x :: x in a <==> x in b
    ensures a == b
    decreases |a|
  {
    StrictlySortedDistinct(a);
    StrictlySortedDistinct(b);
    DistinctCard(a);
    DistinctCard(b);
    assert (set x | x in a) == (set x | x in b);
    if a != [] {
      if a[0] != b[0] {
        assert a[0] in b && b[0] in a;
        var i :| 0 <= i < |b| && b[i] == a[0];
        var j :| 0 <= j < |a| && a[j] == b[0];
        assert Below(b[0], a[0]);
        assert Below(a[0], b[0]);
        BelowAsymmetric(a[0], b[0]);
      }
      assert StrictlySorted(a[1..]) && StrictlySorted(b[1..]);
      forall x ensures x in a[1..] <==> x in b[1..] {
        if x in a[1..] {
          var i :| 1 <= i < |a| && a[i] == x;
          BelowIrreflexive(x);
          assert x != a[0];
          assert x in b;
        }
        if x in b[1..] {
          var i :| 1 <= i < |b| && b[i] == x;
          BelowIrreflexive(x);
          assert x != b[0];
          assert x in a;
        }
      }
      SortedUnique(a[1..], b[1..]);
    }
  }

  /**
   * The derived list is THE sorted list of the distinct names: any ascending,
   * repetition-free list of the same names equals it, whatever the column order.
   */
  lemma AreaListCanonical(names: seq<Area>, other: seq<Area>)
    requires StrictlySorted(other)
    requires forall x :: x in other <==> x in names
    ensures AreaList(names) == other
  {
    AreaListSpec(names);
    SortedUnique(AreaList(names), other);
  }

  /** `[o for o in områder_liste if o != valgt]`: the catalogue without the selection, in order. */
  function Others(areas: seq<Area>, sel: Area): (r: seq<Area>)
    ensures forall x :: x in r <==> x in areas && x != sel
    ensures Subsequence(r, areas)
    ensures |r| <= |areas|
    ensures Distinct(areas) ==> Distinct(r)
    ensures Distinct(areas) && sel in areas ==> |r| == |areas| - 1
    ensures sel !in areas ==> r == areas
  {
    if areas == [] then []
    else
      var prefix := areas[..|areas| - 1];
      var last := areas[|areas| - 1];
      assert areas == prefix + [last];
      assert Distinct(areas) ==> Distinct(prefix) && last !in prefix;
      var r := Others(prefix, sel) + (if last != sel then [last] else []);
      SubsequenceSnoc(Others(prefix, sel), prefix, last);
      assert last != sel ==> r == Others(prefix, sel) + [last];
      assert last == sel ==> r == Others(prefix, sel);
      r
  }
}
