/**
 * The "Alle områder" table: for every area of the catalogue the trips out,
 * in, their total and the net flow, computed by scanning the whole OD table.
 */
module AreaStats {
  import opened Wrappers
  import opened Areas
  import opened OdData
  import opened Aggregation

  /** One row of `område_stats`. */
  datatype AreaStat = AreaStat(omrade: Area, reiserUt: int, reiserInn: int, totalt: int, netto: int)

  /** The origin (`origin`) or the destination (`!origin`) of an entry. */
  function Endpoint(e: Trip, origin: bool): Area
  {
    if origin then e.fra else e.til
  }

  /**
   * `sum([v for (f, t), v in od_data.items() if f == område])` when `origin`,
   * and the same with `t == område` otherwise.
   */
  function SumAt(od: OdTable, a: Area, origin: bool): int
  {
    if od == [] then 0
    else
      var e := od[|od| - 1];
      SumAt(od[..|od| - 1], a, origin) + (if Endpoint(e, origin) == a then e.antall else 0)
  }

  /** The row the loop appends for area `a`. */
  function StatFor(a: Area, od: OdTable): AreaStat
  {
    var ut := SumAt(od, a, true);
    var inn := SumAt(od, a, false);
    AreaStat(a, ut, inn, ut + inn, inn - ut)
  }

  /** The loop over `områder_liste` that builds `område_stats`. */
  method AllAreaStats(areas: seq<Area>, od: OdTable) returns (stats: seq<AreaStat>)
    ensures |stats| == |areas|
    ensures forall i :: 0 <= i < |areas| ==>
              && stats[i].omrade == areas[i]
              && stats[i].reiserUt == Total(Outbound(od, areas[i]))
              && stats[i].reiserInn == Total(Inbound(od, areas[i]))
              && stats[i].totalt == stats[i].reiserUt + stats[i].reiserInn
              && stats[i].netto == Net(od, areas[i])
  {
    stats := [];
    var i := 0;
    while i < |areas|
      invariant 0 <= i <= |areas|
      invariant |stats| == i
      invariant forall k :: 0 <= k < i ==> stats[k] == StatFor(areas[k], od)
    {
      stats := stats + [StatFor(areas[i], od)];
      i := i + 1;
    }
    forall k | 0 <= k < |areas| ensures stats[k].reiserUt == Total(Outbound(od, areas[k]))
      && stats[k].reiserInn == Total(Inbound(od, areas[k]))
    {
      SumAtIsTotal(od, areas[k]);
    }
  }

  /**
   * The table's comprehensions agree with the selection panel: "Reiser ut" of an
   * area is `total_ut` with that area selected, "Reiser inn" is `total_inn`.
   */
  lemma {:induction false} SumAtIsTotal(od: OdTable, a: Area)
    ensures SumAt(od, a, true) == Total(Outbound(od, a))
    ensures SumAt(od, a, false) == Total(Inbound(od, a))
  {
    if od != [] {
      var prefix := od[..|od| - 1];
      var e := od[|od| - 1];
      SumAtIsTotal(prefix, a);
      TotalAppend(Outbound(prefix, a), if e.fra == a then [Ut(e.til, e.antall)] else []);
      TotalAppend(Inbound(prefix, a), if e.til == a then [Inn(e.fra, e.antall)] else []);
    }
  }

  /** Sum of all trip counts of the table. */
  function Weight(od: OdTable): int
  {
    if od == [] then 0 else Weight(od[..|od| - 1]) + od[|od| - 1].antall
  }

  /** Column sums over the rows of the table. */
  function UtColumn(stats: seq<AreaStat>): int
  {
    if stats == [] then 0 else UtColumn(stats[..|stats| - 1]) + stats[|stats| - 1].reiserUt
  }

  function InnColumn(stats: seq<AreaStat>): int
  {
    if stats == [] then 0 else InnColumn(stats[..|stats| - 1]) + stats[|stats| - 1].reiserInn
  }

  function NettoColumn(stats: seq<AreaStat>): int
  {
    if stats == [] then 0 else NettoColumn(stats[..|stats| - 1]) + stats[|stats| - 1].netto
  }

  /** Sum over a list of areas of the per-area sums. */
  function SumOver(areas: seq<Area>, od: OdTable, origin: bool): int
  {
    if areas == [] then 0
    else SumOver(areas[..|areas| - 1], od, origin) + SumAt(od, areas[|areas| - 1], origin)
  }

  lemma {:induction false} SumOverSnoc(areas: seq<Area>, od: OdTable, e: Trip, origin: bool)
    requires Distinct(areas)
    ensures SumOver(areas, od + [e], origin)
            == SumOver(areas, od, origin) + (if Endpoint(e, origin) in areas then e.antall else 0)
  {
    if areas != [] {
      var prefix := areas[..|areas| - 1];
      var a := areas[|areas| - 1];
      assert areas == prefix + [a];
      assert Distinct(prefix) && a !in prefix;
      SumOverSnoc(prefix, od, e, origin);
      assert (od + [e])[..|od|] == od;
    }
  }

  /**
   * Over a distinct catalogue that holds every endpoint, each entry is counted
   * for exactly one area in each column: the column sums equal the total weight.
   */
  lemma {:induction false} SumOverIsWeight(areas: seq<Area>, od: OdTable, origin: bool)
    requires Distinct(areas)
    requires forall i :: 0 <= i < |od| ==> Endpoint(od[i], origin) in areas
    ensures SumOver(areas, od, origin) == Weight(od)
  {
    if od != [] {
      var prefix := od[..|od| - 1];
      var e := od[|od| - 1];
      assert od == prefix + [e];
      SumOverIsWeight(areas, prefix, origin);
      SumOverSnoc(areas, prefix, e, origin);
    } else {
      SumOverEmpty(areas, origin);
    }
  }

  lemma {:induction false} SumOverEmpty(areas: seq<Area>, origin: bool)
    ensures SumOver(areas, [], origin) == 0
  {
    if areas != [] {
      SumOverEmpty(areas[..|areas| - 1], origin);
    }
  }

  /** The rows are the per-area sums, so the columns are sums over the catalogue. */
  lemma {:induction false} ColumnsAreSums(areas: seq<Area>, od: OdTable, stats: seq<AreaStat>)
    requires |stats| == |areas|
    requires forall i :: 0 <= i < |areas| ==>
               && stats[i].reiserUt == SumAt(od, areas[i], true)
               && stats[i].reiserInn == SumAt(od, areas[i], false)
               && stats[i].netto == stats[i].reiserInn - stats[i].reiserUt
    ensures UtColumn(stats) == SumOver(areas, od, true)
    ensures InnColumn(stats) == SumOver(areas, od, false)
    ensures NettoColumn(stats) == InnColumn(stats) - UtColumn(stats)
  {
    if areas != [] {
      ColumnsAreSums(areas[..|areas| - 1], od, stats[..|stats| - 1]);
    }
  }

  /**
   * For the generated table every trip leaves one area and enters one area of
   * the catalogue: "Reiser ut" and "Reiser inn" both sum to all trips, and
   * "Netto" sums to zero.
   */
  lemma ColumnsBalance(areas: seq<Area>, od: OdTable, stats: seq<AreaStat>)
    requires Distinct(areas) && Complete(od, areas)
    requires |stats| == |areas|
    requires forall i :: 0 <= i < |areas| ==>
               && stats[i].reiserUt == Total(Outbound(od, areas[i]))
               && stats[i].reiserInn == Total(Inbound(od, areas[i]))
               && stats[i].netto == Net(od, areas[i])
    ensures UtColumn(stats) == Weight(od)
    ensures InnColumn(stats) == Weight(od)
    ensures NettoColumn(stats) == 0
  {
    forall i | 0 <= i < |areas| ensures stats[i].reiserUt == SumAt(od, areas[i], true)
      && stats[i].reiserInn == SumAt(od, areas[i], false)
    {
      SumAtIsTotal(od, areas[i]);
    }
    forall i | 0 <= i < |od| ensures od[i].fra in areas && od[i].til in areas {
      assert Keys(od)[i] in Keys(od);
      assert HasKey(od, od[i].fra, od[i].til);
    }
    ColumnsAreSums(areas, od, stats);
    SumOverIsWeight(areas, od, true);
    SumOverIsWeight(areas, od, false);
  }
}
