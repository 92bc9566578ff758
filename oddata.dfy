/**
 * The synthetic origin-destination table `od_data` built by
 * `generer_tilfeldig_od_data`: one trip count per ordered pair of distinct
 * areas. A Python dict keeps insertion order and that order is observable
 * downstream, so the table is a sequence of entries with distinct keys.
 */
module OdData {
  import opened Wrappers
  import opened Areas

  /** Bounds of `random.randint(300, 3000)`, both inclusive. */
  const MinTrips := 300
  const MaxTrips := 3000

  /** One dict entry `(fra, til) -> antall`. */
  datatype Trip = Trip(fra: Area, til: Area, antall: int)

  type Key = (Area, Area)
  type OdTable = seq<Trip>

  /** The keys of the table in insertion order (`od_data.keys()`). */
  function Keys(od: OdTable): seq<Key>
  {
    seq(|od|, i requires 0 <= i < |od| => (od[i].fra, od[i].til))
  }

  /** Dict keys never repeat. */
  predicate UniqueKeys(od: OdTable)
  {
    Distinct(Keys(od))
  }

  predicate HasKey(od: OdTable, fra: Area, til: Area)
  {
    (fra, til) in Keys(od)
  }

  predicate NoSelfLoops(od: OdTable)
  {
    forall i :: 0 <= i < |od| ==> od[i].fra != od[i].til
  }

  predicate InRange(od: OdTable)
  {
    forall i :: 0 <= i < |od| ==> MinTrips <= od[i].antall <= MaxTrips
  }

  /**
   * The table that the generator promises for `areas`: a key exactly for each
   * ordered pair of distinct listed areas, no key twice, every count in range.
   */
  ghost predicate Complete(od: OdTable, areas: seq<Area>)
  {
    && UniqueKeys(od)
    && InRange(od)
    && (forall fra, til :: HasKey(od, fra, til) <==> fra in areas && til in areas && fra != til)
  }

  /** Position of the entry with key `(fra, til)`, if any. */
  function Find(od: OdTable, fra: Area, til: Area): (r: Option<nat>)
    ensures r.None? <==> !HasKey(od, fra, til)
    ensures r.Some? ==> r.value < |od| && od[r.value].fra == fra && od[r.value].til == til
  {
    if od == [] then None
    else if od[0].fra == fra && od[0].til == til then
      assert Keys(od)[0] == (fra, til);
      Some(0)
    else
      var r := Find(od[1..], fra, til);
      assert forall k :: k in Keys(od) <==> k == Keys(od)[0] || k in Keys(od[1..]) by {
        assert Keys(od) == [Keys(od)[0]] + Keys(od[1..]);
      }
      if r.Some? then Some(r.value + 1) else None
  }

  /** `od_data[(fra, til)] = antall`: overwrite in place, or append a new key. */
  function Put(od: OdTable, fra: Area, til: Area, antall: int): (r: OdTable)
  {
    match Find(od, fra, til)
    case Some(p) => od[p := Trip(fra, til, antall)]
    case None => od + [Trip(fra, til, antall)]
  }

  /** The key sequence after assigning key `k` to a dict with keys `ks`. */
  function AddKey(ks: seq<Key>, k: Key): seq<Key>
  {
    if k in ks then ks else ks + [k]
  }

  /** Assigning a key adds it at the end unless it is already present; counts stay in range. */
  lemma PutKeys(od: OdTable, fra: Area, til: Area, antall: int)
    requires InRange(od) && MinTrips <= antall <= MaxTrips
    ensures Keys(Put(od, fra, til, antall)) == AddKey(Keys(od), (fra, til))
    ensures InRange(Put(od, fra, til, antall))
  {
  }

  /** Keys in the order their first assignment added them to the dict. */
  function Dedup(ks: seq<Key>): seq<Key>
  {
    if ks == [] then []
    else AddKey(Dedup(ks[..|ks| - 1]), ks[|ks| - 1])
  }

  lemma {:induction false} DedupMembers(ks: seq<Key>)
    ensures Distinct(Dedup(ks))
    ensures forall k :: k in Dedup(ks) <==> k in ks
  {
    if ks != [] {
      var prefix := ks[..|ks| - 1];
      assert ks == prefix + [ks[|ks| - 1]];
      DedupMembers(prefix);
    }
  }

  lemma DedupSnoc(ks: seq<Key>, k: Key)
    ensures Dedup(ks + [k]) == AddKey(Dedup(ks), k)
  {
  }

  lemma {:induction false} DedupOfDistinct(ks: seq<Key>)
    requires Distinct(ks)
    ensures Dedup(ks) == ks
  {
    if ks != [] {
      var prefix := ks[..|ks| - 1];
      assert Distinct(prefix);
      DedupOfDistinct(prefix);
      assert ks[|ks| - 1] !in prefix;
      assert ks == prefix + [ks[|ks| - 1]];
    }
  }

  /** The pairs visited by the inner loop for origin `fra` over `tils`, skipping `fra == til`. */
  function Row(fra: Area, tils: seq<Area>): seq<Key>
  {
    if tils == [] then []
    else
      var til := tils[|tils| - 1];
      Row(fra, tils[..|tils| - 1]) + (if fra != til then [(fra, til)] else [])
  }

  /** The pairs visited by the nested loops, outer over `fras`, inner over `tils`. */
  function Pairs(fras: seq<Area>, tils: seq<Area>): seq<Key>
  {
    if fras == [] then []
    else Pairs(fras[..|fras| - 1], tils) + Row(fras[|fras| - 1], tils)
  }

  lemma RowStep(fra: Area, tils: seq<Area>, j: nat)
    requires j < |tils|
    ensures Row(fra, tils[..j + 1]) == Row(fra, tils[..j]) + (if fra != tils[j] then [(fra, tils[j])] else [])
  {
    assert tils[..j + 1][..j] == tils[..j];
  }

  lemma PairsStep(fras: seq<Area>, tils: seq<Area>, i: nat)
    requires i < |fras|
    ensures Pairs(fras[..i + 1], tils) == Pairs(fras[..i], tils) + Row(fras[i], tils)
  {
    assert fras[..i + 1][..i] == fras[..i];
  }

  /** Every ordered pair of distinct listed areas, in nested-loop order. */
  function OrderedPairs(areas: seq<Area>): seq<Key>
  {
    Pairs(areas, areas)
  }

  lemma {:induction false} RowMembers(fra: Area, tils: seq<Area>)
    ensures forall k :: k in Row(fra, tils) <==> k.0 == fra && k.1 in tils && k.1 != fra
  {
    if tils != [] {
      var prefix := tils[..|tils| - 1];
      RowMembers(fra, prefix);
      assert tils == prefix + [tils[|tils| - 1]];
    }
  }

  lemma {:induction false} PairsMembers(fras: seq<Area>, tils: seq<Area>)
    ensures forall k :: k in Pairs(fras, tils) <==> k.0 in fras && k.1 in tils && k.0 != k.1
  {
    if fras != [] {
      var prefix := fras[..|fras| - 1];
      PairsMembers(prefix, tils);
      RowMembers(fras[|fras| - 1], tils);
      assert fras == prefix + [fras[|fras| - 1]];
    }
  }

  lemma {:induction false} RowDistinct(fra: Area, tils: seq<Area>)
    requires Distinct(tils)
    ensures Distinct(Row(fra, tils))
    ensures |Row(fra, tils)| == if fra in tils then |tils| - 1 else |tils|
  {
    if tils != [] {
      var prefix := tils[..|tils| - 1];
      var til := tils[|tils| - 1];
      assert tils == prefix + [til];
      assert Distinct(prefix);
      RowDistinct(fra, prefix);
      RowMembers(fra, prefix);
      assert til !in prefix;
    }
  }

  lemma {:induction false} PairsDistinct(fras: seq<Area>, tils: seq<Area>)
    requires Distinct(fras) && Distinct(tils)
    ensures Distinct(Pairs(fras, tils))
  {
    if fras != [] {
      var prefix := fras[..|fras| - 1];
      var fra := fras[|fras| - 1];
      assert fras == prefix + [fra];
      assert Distinct(prefix);
      PairsDistinct(prefix, tils);
      RowDistinct(fra, tils);
      PairsMembers(prefix, tils);
      RowMembers(fra, tils);
      assert fra !in prefix;
      var p, r := Pairs(prefix, tils), Row(fra, tils);
      forall i, j | 0 <= i < j < |p + r| ensures (p + r)[i] != (p + r)[j] {
        if i < |p| && j >= |p| {
          assert (p + r)[i] in p && (p + r)[j] in r;
        }
      }
    }
  }

  /** Each outer area with the whole distinct area list contributes n - 1 pairs. */
  lemma {:induction false} PairsCount(fras: seq<Area>, tils: seq<Area>)
    requires Distinct(tils)
    requires forall a :: a in fras ==> a in tils
    ensures |Pairs(fras, tils)| == |fras| * (|tils| - 1)
  {
    if fras != [] {
      var prefix := fras[..|fras| - 1];
      var fra := fras[|fras| - 1];
      assert fras == prefix + [fra];
      assert fra in tils;
      assert forall a :: a in prefix ==> a in fras;
      PairsCount(prefix, tils);
      RowDistinct(fra, tils);
      var m := |tils| - 1;
      assert |Row(fra, tils)| == m;
      assert |Pairs(fras, tils)| == |Pairs(prefix, tils)| + |Row(fra, tils)|;
      MulStep(|prefix|, m);
    }
  }

  /** `a` rows of `m` pairs and one more row make `a + 1` rows; kept apart so the step stays cheap. */
  lemma MulStep(a: int, m: int)
    ensures a * m + m == (a + 1) * m
  {
  }

  /** One pass of the inner loop body that assigns a count to a new pair. */
  lemma AssignStep(od: OdTable, done: seq<Key>, fra: Area, tils: seq<Area>, j: nat, antall: int)
    requires j < |tils| && fra != tils[j]
    requires Keys(od) == Dedup(done + Row(fra, tils[..j])) && InRange(od)
    requires MinTrips <= antall <= MaxTrips
    ensures Keys(Put(od, fra, tils[j], antall)) == Dedup(done + Row(fra, tils[..j + 1]))
    ensures InRange(Put(od, fra, tils[j], antall))
  {
    var before := done + Row(fra, tils[..j]);
    RowStep(fra, tils, j);
    PutKeys(od, fra, tils[j], antall);
    DedupSnoc(before, (fra, tils[j]));
    assert done + Row(fra, tils[..j + 1]) == before + [(fra, tils[j])];
  }

  /**
   * `generer_tilfeldig_od_data`: nested loops over the area list that assign a
   * random count in [MinTrips, MaxTrips] to every pair of distinct areas.
   */
  method Generate(areas: seq<Area>) returns (od: OdTable)
    ensures Keys(od) == Dedup(OrderedPairs(areas))
    ensures Complete(od, areas)
    ensures NoSelfLoops(od)
    ensures Distinct(areas) ==> Keys(od) == OrderedPairs(areas)
    ensures Distinct(areas) ==> |od| == |areas| * (|areas| - 1)
  {
    od := [];
    var i := 0;
    while i < |areas|
      invariant 0 <= i <= |areas|
      invariant Keys(od) == Dedup(Pairs(areas[..i], areas))
      invariant InRange(od)
    {
      var fra := areas[i];
      var j := 0;
      assert Pairs(areas[..i], areas) + Row(fra, areas[..0]) == Pairs(areas[..i], areas);
      while j < |areas|
        invariant 0 <= j <= |areas|
        invariant Keys(od) == Dedup(Pairs(areas[..i], areas) + Row(fra, areas[..j]))
        invariant InRange(od)
      {
        var til := areas[j];
        if fra != til {
          var antall :| MinTrips <= antall <= MaxTrips;
          AssignStep(od, Pairs(areas[..i], areas), fra, areas, j, antall);
          od := Put(od, fra, til, antall);
        } else {
          RowStep(fra, areas, j);
          assert Row(fra, areas[..j + 1]) == Row(fra, areas[..j]);
        }
        j := j + 1;
      }
      assert areas[..j] == areas;
      PairsStep(areas, areas, i);
      i := i + 1;
    }
    assert areas[..i] == areas;
    GeneratedTable(od, areas);
  }

  /**
   * What the generator's result implies: a key exactly for each ordered pair of
   * distinct listed areas, no self-loops, and for a distinct area list the keys
   * in nested-loop order and n * (n - 1) of them.
   */
  lemma GeneratedTable(od: OdTable, areas: seq<Area>)
    requires Keys(od) == Dedup(OrderedPairs(areas)) && InRange(od)
    ensures Complete(od, areas)
    ensures NoSelfLoops(od)
    ensures Distinct(areas) ==> Keys(od) == OrderedPairs(areas)
    ensures Distinct(areas) ==> |od| == |areas| * (|areas| - 1)
  {
    PairsMembers(areas, areas);
    DedupMembers(OrderedPairs(areas));
    forall n | 0 <= n < |od| ensures od[n].fra != od[n].til {
      assert Keys(od)[n] in Keys(od);
    }
    if Distinct(areas) {
      PairsDistinct(areas, areas);
      DedupOfDistinct(OrderedPairs(areas));
      PairsCount(areas, areas);
    }
  }

  /**
   * Any table meeting the generator's promise over n distinct areas has exactly
   * n * (n - 1) entries; in particular a single area yields an empty table.
   */
  lemma CompleteCount(od: OdTable, areas: seq<Area>)
    requires Complete(od, areas) && Distinct(areas)
    ensures |od| == |areas| * (|areas| - 1)
    ensures |areas| == 1 ==> od == []
  {
    var ps := OrderedPairs(areas);
    PairsMembers(areas, areas);
    PairsDistinct(areas, areas);
    PairsCount(areas, areas);
    DistinctCard(Keys(od));
    DistinctCard(ps);
    forall k: Key ensures k in Keys(od) <==> k in ps {
      assert HasKey(od, k.0, k.1) <==> k in Keys(od);
    }
    assert (set k | k in Keys(od)) == (set k | k in ps);
  }
}
