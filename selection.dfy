/**
 * The selected area kept in the session state across reruns: set to the first
 * area on the first run, then written by the sidebar selectbox and by a click
 * on a map polygon.
 */
module Selection {
  import opened Wrappers
  import opened Areas

  /** `xs.index(x)`: the first position holding `x`, `None` where Python raises `ValueError`. */
  function IndexOf(xs: seq<Area>, x: Area): (r: Option<nat>)
    ensures r.None? <==> x !in xs
    ensures r.Some? ==> r.value < |xs| && xs[r.value] == x
    ensures r.Some? ==> forall j :: 0 <= j < r.value ==> xs[j] != x
  {
    if xs == [] then None
    else if xs[0] == x then Some(0)
    else
      var rest := IndexOf(xs[1..], x);
      if rest.None? then None else Some(rest.value + 1)
  }

  /** One point of the map's selection event; `customdata` holds `[name]` for a polygon. */
  datatype ClickPoint = ClickPoint(customdata: Option<seq<Area>>)

  /**
   * The area a selection event names: the first entry of the first point's
   * `customdata`, when there is a point and its `customdata` is present and
   * non-empty.
   */
  function ClickedArea(points: seq<ClickPoint>): Option<Area>
  {
    if |points| > 0 && points[0].customdata.Some? && |points[0].customdata.value| > 0 then
      Some(points[0].customdata.value[0])
    else None
  }

  /**
   * The `customdata` of the map trace drawn for one ring of area `a`'s polygon
   * with `n` points: the list `[a]` once per point (line 155).
   */
  function TraceData(a: Area, n: nat): seq<seq<Area>>
  {
    seq(n, _ => [a])
  }

  /**
   * What a click on the map means: a click whose first point lies on a ring of
   * area `a` names `a`, stores it, and asks for a rerun iff `a` was not already
   * selected; a click on the selected polygon leaves the session alone. A click
   * that hits no trace point names nothing.
   */
  lemma ClickOnPolygon(a: Area, n: nat, i: nat, rest: seq<ClickPoint>, valgt: Option<Area>)
    requires i < n
    ensures ClickedArea([ClickPoint(Some(TraceData(a, n)[i]))] + rest) == Some(a)
    ensures AfterClick(valgt, [ClickPoint(Some(TraceData(a, n)[i]))] + rest) == Some(a)
    ensures ClickedArea([]) == None && AfterClick(valgt, []) == valgt
  {
    var p := [ClickPoint(Some(TraceData(a, n)[i]))] + rest;
    assert p[0].customdata.value == [a];
  }

  /** The selection after handling a click: replaced only by a named, different area. */
  function AfterClick(valgt: Option<Area>, points: seq<ClickPoint>): Option<Area>
  {
    match ClickedArea(points)
    case None => valgt
    case Some(a) => if Some(a) != valgt then Some(a) else valgt
  }

  /** The session entry `valgt_område`; `None` until the first run stores it. */
  class Session {
    var valgt: Option<Area>

    /** The selection names an area of the catalogue. */
    predicate Valid(areas: seq<Area>)
      reads this
    {
      valgt.Some? && valgt.value in areas
    }

    /** A fresh session has no entry yet. */
    constructor ()
      ensures valgt.None?
    {
      valgt := None;
    }

    /**
     * Lines 76-77: without an entry, store the first area; `ok` is false where
     * `områder_liste[0]` raises `IndexError` on an empty catalogue.
     */
    method Start(areas: seq<Area>) returns (ok: bool)
      modifies this
      ensures ok <==> old(valgt).Some? || |areas| > 0
      ensures valgt == if old(valgt).None? && |areas| > 0 then Some(areas[0]) else old(valgt)
      ensures old(valgt).None? && ok ==> Valid(areas)
    {
      if valgt.None? {
        if |areas| == 0 {
          return false;
        }
        valgt := Some(areas[0]);
      }
      ok := true;
    }

    /**
     * Lines 94-99: the selectbox preselects the stored area by its position and
     * returns either that area (`pick == None`, the user did not change it) or
     * the one the user picked, which is then stored. `ok` is false where line 97
     * fails: reading a session entry that does not exist raises
     * `AttributeError`, and `index(...)` raises `ValueError` for an entry that
     * is not in the list.
     */
    method Selectbox(areas: seq<Area>, pick: Option<nat>) returns (ok: bool)
      requires pick.Some? ==> pick.value < |areas|
      modifies this
      ensures ok <==> old(valgt).Some? && old(valgt).value in areas
      ensures !ok ==> valgt == old(valgt)
      ensures ok && pick.None? ==> valgt == old(valgt)
      ensures ok && pick.Some? ==> valgt == Some(areas[pick.value])
      ensures ok ==> Valid(areas)
    {
      if valgt.None? {
        return false;
      }
      var index := IndexOf(areas, valgt.value);
      if index.None? {
        return false;
      }
      var shown := if pick.Some? then areas[pick.value] else areas[index.value];
      valgt := Some(shown);
      ok := true;
    }

    /**
     * Lines 199-206: a click on a polygon stores its area and asks for a rerun,
     * but only when the area differs from the stored one. A click on a
     * polygon of the catalogue keeps a valid selection valid.
     */
    method Click(ghost areas: seq<Area>, points: seq<ClickPoint>) returns (rerun: bool)
      modifies this
      ensures valgt == AfterClick(old(valgt), points)
      ensures rerun <==> valgt != old(valgt)
      ensures rerun ==> valgt == ClickedArea(points)
      ensures old(Valid(areas)) && (ClickedArea(points).Some? ==> ClickedArea(points).value in areas) ==>
                Valid(areas)
    {
      rerun := false;
      if |points| > 0 {
        var clicked := points[0];
        if clicked.customdata.Some? && |clicked.customdata.value| > 0 {
          var nytt := clicked.customdata.value[0];
          if Some(nytt) != valgt {
            valgt := Some(nytt);
            rerun := true;
          }
        }
      }
    }
  }

  /**
   * A click keeps the selection valid when the clicked polygon is an area of
   * the catalogue (its `customdata` carries the polygon's name).
   */
  lemma ClickKeepsValid(areas: seq<Area>, valgt: Option<Area>, points: seq<ClickPoint>)
    requires valgt.Some? && valgt.value in areas
    requires ClickedArea(points).Some? ==> ClickedArea(points).value in areas
    ensures AfterClick(valgt, points).Some? && AfterClick(valgt, points).value in areas
  {
  }

  /**
   * Handling the same click twice changes nothing the second time, so the
   * rerun that a click triggers cannot trigger another: a click on the
   * already selected polygon does not loop.
   */
  lemma ClickSettles(valgt: Option<Area>, points: seq<ClickPoint>)
    ensures AfterClick(AfterClick(valgt, points), points) == AfterClick(valgt, points)
    ensures ClickedArea(points).Some? ==> AfterClick(valgt, points) == ClickedArea(points)
    ensures ClickedArea(points).None? ==> AfterClick(valgt, points) == valgt
  {
  }
}
