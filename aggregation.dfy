/**
 * Aggregation for the selected area: the OD table is scanned in insertion
 * order into `reiser_ut` (trips leaving the selection) and `reiser_inn` (trips
 * arriving at it), whose totals and net flow feed the three metrics.
 */
module Aggregation {
  import opened Wrappers
  import opened Areas
  import opened OdData

  /**
   * A row of `reiser_ut` (`{'til': ..., 'antall': ...}`) or of `reiser_inn`
   * (`{'fra': ..., 'antall': ...}`). Both kinds end up in one DataFrame when the
   * Sankey nodes are chosen, so they share one type.
   */
  datatype Rel = Ut(til: Area, antall: int) | Inn(fra: Area, antall: int)

  /** The rows the scan appends to `reiser_ut`: entries whose origin is `sel`, in table order. */
  function Outbound(od: OdTable, sel: Area): seq<Rel>
  {
    if od == [] then []
    else
      var e := od[|od| - 1];
      Outbound(od[..|od| - 1], sel) + (if e.fra == sel then [Ut(e.til, e.antall)] else [])
  }

  /** The rows the scan appends to `reiser_inn`: entries whose destination is `sel`, in table order. */
  function Inbound(od: OdTable, sel: Area): seq<Rel>
  {
    if od == [] then []
    else
      var e := od[|od| - 1];
      Inbound(od[..|od| - 1], sel) + (if e.til == sel then [Inn(e.fra, e.antall)] else [])
  }

  /** `sum([r['antall'] for r in rows])`. */
  function Total(rows: seq<Rel>): int
  {
    if rows == [] then 0 else Total(rows[..|rows| - 1]) + rows[|rows| - 1].antall
  }

  /** The "Netto" metric: inbound minus outbound, not clamped. */
  function Net(od: OdTable, sel: Area): int
  {
    Total(Inbound(od, sel)) - Total(Outbound(od, sel))
  }

  /** The loop over `od_data.items()` that fills `reiser_ut` and `reiser_inn`. */
  method Aggregate(od: OdTable, sel: Area) returns (reiserUt: seq<Rel>, reiserInn: seq<Rel>)
    ensures reiserUt == Outbound(od, sel)
    ensures reiserInn == Inbound(od, sel)
  {
    reiserUt, reiserInn := [], [];
    var k := 0;
    while k < |od|
      invariant 0 <= k <= |od|
      invariant reiserUt == Outbound(od[..k], sel)
      invariant reiserInn == Inbound(od[..k], sel)
    {
      assert od[..k + 1][..k] == od[..k];
      var e := od[k];
      if e.fra == sel {
        reiserUt := reiserUt + [Ut(e.til, e.antall)];
      }
      if e.til == sel {
        reiserInn := reiserInn + [Inn(e.fra, e.antall)];
      }
      k := k + 1;
    }
    assert od[..k] == od;
  }

  lemma TotalAppend(a: seq<Rel>, b: seq<Rel>)
    ensures Total(a + b) == Total(a) + Total(b)
    decreases |b|
  {
    if b != [] {
      assert (a + b)[..|a + b| - 1] == a + b[..|b| - 1];
      assert (a + b)[|a + b| - 1] == b[|b| - 1];
      TotalAppend(a, b[..|b| - 1]);
    } else {
      assert a + b == a;
    }
  }

  /**
   * `reiser_ut` holds exactly the entries leaving `sel`: an outbound row
   * `(til, w)` exists iff the table has the entry `(sel, til) -> w`; every row is
   * an outbound row.
   */
  lemma {:induction false} OutboundMembers(od: OdTable, sel: Area)
    ensures forall r :: r in Outbound(od, sel) ==> r.Ut?
    ensures forall til, w :: Ut(til, w) in Outbound(od, sel) <==> Trip(sel, til, w) in od
    ensures |Outbound(od, sel)| <= |od|
  {
    if od != [] {
      var prefix := od[..|od| - 1];
      assert od == prefix + [od[|od| - 1]];
      OutboundMembers(prefix, sel);
    }
  }

  /**
   * `reiser_inn` holds exactly the entries arriving at `sel`: an inbound row
   * `(fra, w)` exists iff the table has the entry `(fra, sel) -> w`.
   */
  lemma {:induction false} InboundMembers(od: OdTable, sel: Area)
    ensures forall r :: r in Inbound(od, sel) ==> r.Inn?
    ensures forall fra, w :: Inn(fra, w) in Inbound(od, sel) <==> Trip(fra, sel, w) in od
    ensures |Inbound(od, sel)| <= |od|
  {
    if od != [] {
      var prefix := od[..|od| - 1];
      assert od == prefix + [od[|od| - 1]];
      InboundMembers(prefix, sel);
    }
  }

  /** Total count of trips on entries that touch `sel`, each entry counted once. */
  function Touching(od: OdTable, sel: Area): int
  {
    if od == [] then 0
    else
      var e := od[|od| - 1];
      Touching(od[..|od| - 1], sel) + (if e.fra == sel || e.til == sel then e.antall else 0)
  }

  /**
   * Without self-loops no entry is counted in both directions: outbound plus
   * inbound total is the weight of the entries touching the selection.
   */
  lemma {:induction false} NoDoubleCounting(od: OdTable, sel: Area)
    requires NoSelfLoops(od)
    ensures Total(Outbound(od, sel)) + Total(Inbound(od, sel)) == Touching(od, sel)
  {
    if od != [] {
      var prefix := od[..|od| - 1];
      var e := od[|od| - 1];
      assert NoSelfLoops(prefix);
      NoDoubleCounting(prefix, sel);
      TotalAppend(Outbound(prefix, sel), if e.fra == sel then [Ut(e.til, e.antall)] else []);
      TotalAppend(Inbound(prefix, sel), if e.til == sel then [Inn(e.fra, e.antall)] else []);
    }
  }

  /** The other endpoint of each row, in row order. */
  function Ends(rows: seq<Rel>): seq<Area>
  {
    if rows == [] then []
    else
      var r := rows[|rows| - 1];
      Ends(rows[..|rows| - 1]) + [if r.Ut? then r.til else r.fra]
  }

  lemma {:induction false} EndsSpec(rows: seq<Rel>)
    ensures |Ends(rows)| == |rows|
    ensures forall i :: 0 <= i < |rows| ==> Ends(rows)[i] == if rows[i].Ut? then rows[i].til else rows[i].fra
  {
    if rows != [] {
      EndsSpec(rows[..|rows| - 1]);
    }
  }

  /** Destinations of keys leaving `sel`, in key order. */
  function DestsOf(ks: seq<Key>, sel: Area): seq<Area>
  {
    if ks == [] then []
    else
      var k := ks[|ks| - 1];
      DestsOf(ks[..|ks| - 1], sel) + (if k.0 == sel then [k.1] else [])
  }

  /** Origins of keys arriving at `sel`, in key order. */
  function OriginsOf(ks: seq<Key>, sel: Area): seq<Area>
  {
    if ks == [] then []
    else
      var k := ks[|ks| - 1];
      OriginsOf(ks[..|ks| - 1], sel) + (if k.1 == sel then [k.0] else [])
  }

  lemma {:induction false} EndsOutbound(od: OdTable, sel: Area)
    ensures Ends(Outbound(od, sel)) == DestsOf(Keys(od), sel)
  {
    if od != [] {
      var prefix := od[..|od| - 1];
      EndsOutbound(prefix, sel);
      assert Keys(od)[..|od| - 1] == Keys(prefix);
      var e := od[|od| - 1];
      assert Keys(od)[|od| - 1] == (e.fra, e.til);
      if e.fra == sel {
        var rows := Outbound(prefix, sel) + [Ut(e.til, e.antall)];
        assert rows[..|rows| - 1] == Outbound(prefix, sel);
        assert Ends(rows) == Ends(Outbound(prefix, sel)) + [e.til];
      } else {
        assert Outbound(od, sel) == Outbound(prefix, sel);
      }
    }
  }

  lemma {:induction false} EndsInbound(od: OdTable, sel: Area)
    ensures Ends(Inbound(od, sel)) == OriginsOf(Keys(od), sel)
  {
    if od != [] {
      var prefix := od[..|od| - 1];
      EndsInbound(prefix, sel);
      assert Keys(od)[..|od| - 1] == Keys(prefix);
      var e := od[|od| - 1];
      assert Keys(od)[|od| - 1] == (e.fra, e.til);
      if e.til == sel {
        var rows := Inbound(prefix, sel) + [Inn(e.fra, e.antall)];
        assert rows[..|rows| - 1] == Inbound(prefix, sel);
        assert Ends(rows) == Ends(Inbound(prefix, sel)) + [e.fra];
      } else {
        assert Inbound(od, sel) == Inbound(prefix, sel);
      }
    }
  }

  lemma DestsAppend(a: seq<Key>, b: seq<Key>, sel: Area)
    ensures DestsOf(a + b, sel) == DestsOf(a, sel) + DestsOf(b, sel)
    ensures OriginsOf(a + b, sel) == OriginsOf(a, sel) + OriginsOf(b, sel)
    decreases |b|
  {
    if b != [] {
      assert (a + b)[..|a + b| - 1] == a + b[..|b| - 1];
      assert (a + b)[|a + b| - 1] == b[|b| - 1];
      DestsAppend(a, b[..|b| - 1], sel);
    } else {
      assert a + b == a;
    }
  }

  lemma {:induction false} DestsOfRow(fra: Area, tils: seq<Area>, sel: Area)
    requires Distinct(tils)
    ensures DestsOf(Row(fra, tils), sel) == if fra == sel then Others(tils, sel) else []
  {
    if tils != [] {
      var prefix := tils[..|tils| - 1];
      var til := tils[|tils| - 1];
      SnocFacts(tils);
      DestsOfRow(fra, prefix, sel);
      var step := if fra != til then [(fra, til)] else [];
      DestsAppend(Row(fra, prefix), step, sel);
      RowStepEnds(fra, til, sel);
    }
  }

  lemma {:induction false} OriginsOfRow(fra: Area, tils: seq<Area>, sel: Area)
    requires Distinct(tils)
    ensures OriginsOf(Row(fra, tils), sel) == if fra != sel && sel in tils then [fra] else []
  {
    if tils != [] {
      var prefix := tils[..|tils| - 1];
      var til := tils[|tils| - 1];
      SnocFacts(tils);
      OriginsOfRow(fra, prefix, sel);
      var step := if fra != til then [(fra, til)] else [];
      DestsAppend(Row(fra, prefix), step, sel);
      RowStepEnds(fra, til, sel);
      if til == sel {
        assert sel !in prefix;
      } else {
        assert sel in tils <==> sel in prefix;
      }
    }
  }

  /** The destinations and origins one generated key contributes. */
  lemma RowStepEnds(fra: Area, til: Area, sel: Area)
    ensures DestsOf(if fra != til then [(fra, til)] else [], sel) == if fra == sel && fra != til then [til] else []
    ensures OriginsOf(if fra != til then [(fra, til)] else [], sel) == if til == sel && fra != til then [fra] else []
  {
  }

  lemma {:induction false} DestsOfPairs(fras: seq<Area>, tils: seq<Area>, sel: Area)
    requires Distinct(fras) && Distinct(tils)
    ensures DestsOf(Pairs(fras, tils), sel) == if sel in fras then Others(tils, sel) else []
  {
    if fras != [] {
      var prefix := fras[..|fras| - 1];
      var fra := fras[|fras| - 1];
      SnocFacts(fras);
      DestsOfPairs(prefix, tils, sel);
      DestsOfRow(fra, tils, sel);
      DestsAppend(Pairs(prefix, tils), Row(fra, tils), sel);
      if fra == sel {
        assert sel !in prefix;
      } else {
        assert sel in fras <==> sel in prefix;
      }
    }
  }

  lemma {:induction false} OriginsOfPairs(fras: seq<Area>, tils: seq<Area>, sel: Area)
    requires Distinct(fras) && Distinct(tils)
    ensures OriginsOf(Pairs(fras, tils), sel) == if sel in tils then Others(fras, sel) else []
  {
    if fras != [] {
      var prefix := fras[..|fras| - 1];
      var fra := fras[|fras| - 1];
      SnocFacts(fras);
      OriginsOfPairs(prefix, tils, sel);
      OriginsOfRow(fra, tils, sel);
      DestsAppend(Pairs(prefix, tils), Row(fra, tils), sel);
    }
  }

  /**
   * For the generated table over a distinct catalogue, `reiser_ut` names every
   * other area exactly once, in catalogue order, and so does `reiser_inn`.
   */
  lemma GeneratedRows(od: OdTable, areas: seq<Area>, sel: Area)
    requires Distinct(areas) && sel in areas
    requires Keys(od) == OrderedPairs(areas)
    ensures Ends(Outbound(od, sel)) == Others(areas, sel)
    ensures Ends(Inbound(od, sel)) == Others(areas, sel)
  {
    EndsOutbound(od, sel);
    EndsInbound(od, sel);
    DestsOfPairs(areas, areas, sel);
    OriginsOfPairs(areas, areas, sel);
  }
}
