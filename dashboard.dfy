/**
 * The right-hand panel for the selected area, end to end: the scan into
 * outbound and inbound rows, the three metrics, and the Sankey diagram.
 */
module Dashboard {
  import opened Wrappers
  import opened Areas
  import opened OdData
  import opened Aggregation
  import opened Sankey

  /** Lines 208-299 for selection `sel`. */
  method SelectedAreaPanel(od: OdTable, areas: seq<Area>, sel: Area)
    returns (totalUt: int, totalInn: int, netto: int, view: SankeyView)
    ensures totalUt == Total(Outbound(od, sel))
    ensures totalInn == Total(Inbound(od, sel))
    ensures netto == Net(od, sel)
    ensures AllUt(Outbound(od, sel)) && AllInn(Inbound(od, sel))
    ensures Shows(view, areas, sel, Outbound(od, sel), Inbound(od, sel))
  {
    var reiserUt, reiserInn := Aggregate(od, sel);
    totalUt := Total(reiserUt);
    totalInn := Total(reiserInn);
    netto := totalInn - totalUt;
    AggregatedRows(od, sel);
    view := SankeyPanel(areas, sel, reiserUt, reiserInn);
  }

  /**
   * For the generated table over a catalogue of two to eleven distinct areas,
   * every trip to and from the selection is drawn: the diagram has a link from
   * the selection to each other area and one back, `2 * (n - 1)` in all.
   */
  lemma SmallCatalogueFullDiagram(od: OdTable, areas: seq<Area>, sel: Area)
    requires Distinct(areas) && sel in areas && 2 <= |areas| <= 1 + MaxOtherNodes
    requires Keys(od) == OrderedPairs(areas) && NoSelfLoops(od)
    ensures var ut, inn := Outbound(od, sel), Inbound(od, sel);
            AllUt(ut) && AllInn(inn) &&
            |Links(ut, inn, NodeDict(Nodes(areas, sel, ut, inn)), sel)| == 2 * (|areas| - 1)
  {
    var ut, inn := Outbound(od, sel), Inbound(od, sel);
    AggregatedRows(od, sel);
    GeneratedRows(od, areas, sel);
    EndsSpec(ut);
    EndsSpec(inn);
    var andre := Others(areas, sel);
    forall i | 0 <= i < |ut| ensures ut[i].til in areas && ut[i].til != sel {
      assert Ends(ut)[i] in andre;
    }
    forall i | 0 <= i < |inn| ensures inn[i].fra in areas && inn[i].fra != sel {
      assert Ends(inn)[i] in andre;
    }
    EveryRowLinked(areas, sel, ut, inn);
  }

  /**
   * For the generated table each direction of the diagram has at most
   * min(n - 1, 10) links: every other area is the end of one row at most, and
   * the cap keeps at most ten of them.
   */
  lemma GeneratedLinksBound(od: OdTable, areas: seq<Area>, sel: Area)
    requires Distinct(areas) && sel in areas
    requires Keys(od) == OrderedPairs(areas) && NoSelfLoops(od)
    ensures var ut, inn := Outbound(od, sel), Inbound(od, sel);
            var d := NodeDict(Nodes(areas, sel, ut, inn));
            var bound := if |areas| - 1 < MaxOtherNodes then |areas| - 1 else MaxOtherNodes;
            AllUt(ut) && AllInn(inn) &&
            |OutLinks(ut, d, sel)| <= bound && |InLinks(inn, d, sel)| <= bound
  {
    var ut, inn := Outbound(od, sel), Inbound(od, sel);
    var nodes := Nodes(areas, sel, ut, inn);
    var kept := KeptOthers(areas, sel, ut, inn);
    AggregatedRows(od, sel);
    GeneratedRows(od, areas, sel);
    NodesShape(areas, sel, ut, inn);
    KeptShape(areas, sel, ut, inn);
    SubsequenceLength(kept, Others(areas, sel));
    assert |nodes| == 1 + |kept|;
    if |Others(areas, sel)| > MaxOtherNodes {
      EndsSpec(ut);
      assert |ut + inn| > 0;
    }
    OutLinksBound(ut, nodes);
    InLinksBound(inn, nodes);
  }

  /**
   * One pass from the catalogue to the selected-area panel: generate the table,
   * then scan it for `sel`. On two to eleven distinct areas with `sel` among
   * them the panel never shows "no flows": it draws all 2 * (n - 1) trips.
   */
  method GeneratedPanel(areas: seq<Area>, sel: Area)
    returns (od: OdTable, totalUt: int, totalInn: int, netto: int, view: SankeyView)
    ensures Complete(od, areas) && NoSelfLoops(od)
    ensures totalUt == Total(Outbound(od, sel)) && totalInn == Total(Inbound(od, sel))
    ensures netto == totalInn - totalUt && netto == Net(od, sel)
    ensures AllUt(Outbound(od, sel)) && AllInn(Inbound(od, sel))
    ensures Shows(view, areas, sel, Outbound(od, sel), Inbound(od, sel))
    ensures Distinct(areas) && sel in areas && 2 <= |areas| <= 1 + MaxOtherNodes ==>
              view.Diagram? && |view.sources| == 2 * (|areas| - 1)
  {
    od := Generate(areas);
    totalUt, totalInn, netto, view := SelectedAreaPanel(od, areas, sel);
    if Distinct(areas) && sel in areas && 2 <= |areas| <= 1 + MaxOtherNodes {
      SmallCatalogueFullDiagram(od, areas, sel);
    }
  }
}
