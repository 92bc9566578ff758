/**
 * The Sankey diagram of the selected area: the node list (the selection first,
 * then the other areas, capped to the ten that appear in the heaviest rows),
 * the name-to-index dictionary, and the parallel link arrays.
 */
module Sankey {
  import opened Wrappers
  import opened Areas
  import opened OdData
  import opened Aggregation

  /** `MAX_ANDRE_NODER`. */
  const MaxOtherNodes := 10

  predicate AllUt(rows: seq<Rel>)
  {
    forall i :: 0 <= i < |rows| ==> rows[i].Ut?
  }

  predicate AllInn(rows: seq<Rel>)
  {
    forall i :: 0 <= i < |rows| ==> rows[i].Inn?
  }

  // ---------------------------------------------------------------------------
  // `df_rel.nlargest(k, 'antall')` with pandas' default keep='first'
  // ---------------------------------------------------------------------------

  /** Row `j` ranks above row `i`: a larger count, or the same count and an earlier row. */
  predicate Beats(rows: seq<Rel>, j: nat, i: nat)
    requires j < |rows| && i < |rows|
  {
    rows[j].antall > rows[i].antall || (rows[j].antall == rows[i].antall && j < i)
  }

  predicate InBounds(rows: seq<Rel>, cand: seq<nat>)
  {
    forall i :: 0 <= i < |cand| ==> cand[i] < |rows|
  }

  /** The highest-ranked row among the candidate positions. */
  function Best(rows: seq<Rel>, cand: seq<nat>): (b: nat)
    requires |cand| > 0 && InBounds(rows, cand)
    ensures b in cand
    ensures forall c :: c in cand && c != b ==> Beats(rows, b, c)
  {
    if |cand| == 1 then cand[0]
    else
      assert InBounds(rows, cand[1..]);
      var b := Best(rows, cand[1..]);
      assert forall c :: c in cand ==> c == cand[0] || c in cand[1..];
      if Beats(rows, cand[0], b) then cand[0] else b
  }

  /** The candidates other than `b`, in order. */
  function Without(cand: seq<nat>, b: nat): (r: seq<nat>)
    ensures forall c :: c in r <==> c in cand && c != b
    ensures Distinct(cand) ==> Distinct(r)
    ensures Distinct(cand) && b in cand ==> |r| == |cand| - 1
    ensures b !in cand ==> r == cand
  {
    if cand == [] then []
    else
      var rest := Without(cand[1..], b);
      assert Distinct(cand) ==> Distinct(cand[1..]) && cand[0] !in cand[1..];
      if cand[0] != b then
        assert Distinct(cand) ==> Distinct([cand[0]] + rest) by {
          if Distinct(cand) {
            DistinctCons(cand[0], rest);
          }
        }
        [cand[0]] + rest
      else rest
  }

  /** The `k` highest-ranked candidates, best first. */
  function Largest(rows: seq<Rel>, k: nat, cand: seq<nat>): (top: seq<nat>)
    requires InBounds(rows, cand) && Distinct(cand)
    ensures |top| == if k < |cand| then k else |cand|
    ensures Distinct(top)
    ensures forall t :: t in top ==> t in cand
    ensures forall t, c :: t in top && c in cand && c !in top ==> t < |rows| && c < |rows| && Beats(rows, t, c)
    decreases k
  {
    if k == 0 || cand == [] then []
    else
      var b := Best(rows, cand);
      var rest := Without(cand, b);
      assert InBounds(rows, rest) by {
        forall i | 0 <= i < |rest| ensures rest[i] < |rows| {
          assert rest[i] in rest;
        }
      }
      [b] + Largest(rows, k - 1, rest)
  }

  /** The positions `0, 1, ..., n - 1` of a DataFrame's rows. */
  function Positions(n: nat): seq<nat>
  {
    seq(n, i => i)
  }

  /**
   * `df_rel.nlargest(k, 'antall')`: the positions of min(k, n) distinct rows,
   * best first, such that every chosen row ranks above every row left out (a
   * larger count, or an equal count and an earlier row).
   */
  function NLargest(rows: seq<Rel>, k: nat): (top: seq<nat>)
    ensures |top| == if k < |rows| then k else |rows|
    ensures Distinct(top) && InBounds(rows, top)
    ensures forall t :: t in top ==> t < |rows|
    ensures forall t, c :: t in top && 0 <= c < |rows| && c !in top ==> t < |rows| && Beats(rows, t, c)
  {
    var all := Positions(|rows|);
    assert InBounds(rows, all) && Distinct(all);
    var top := Largest(rows, k, all);
    forall c | 0 <= c < |rows| ensures c in all {
      assert all[c] == c;
    }
    assert InBounds(rows, top) by {
      forall i | 0 <= i < |top| ensures top[i] < |rows| {
        assert top[i] in top;
      }
    }
    top
  }

  // ---------------------------------------------------------------------------
  // Columns of the chosen rows and the capped list of other areas
  // ---------------------------------------------------------------------------

  /** The two name columns a DataFrame built from the mixed rows can have. */
  datatype Column = Til | Fra

  /** One cell of a name column; `None` stands for the NaN of a row that lacks that key. */
  function Cell(r: Rel, col: Column): Option<Area>
  {
    match col
    case Til => if r.Ut? then Some(r.til) else None
    case Fra => if r.Inn? then Some(r.fra) else None
  }

  /** `'til' in df_rel.columns`: some row came from `reiser_ut`. */
  predicate HasTilColumn(rows: seq<Rel>)
  {
    exists i :: 0 <= i < |rows| && rows[i].Ut?
  }

  /** The column the code reads: `'til'` when it exists, `'fra'` otherwise. */
  function ReadColumn(rows: seq<Rel>): Column
  {
    if HasTilColumn(rows) then Til else Fra
  }

  /**
   * `df_rel.nlargest(k, 'antall')[col].unique().tolist()`. Only membership of
   * names in this list is read afterwards, and `unique()` does not change it,
   * so the cells are kept with repetitions.
   */
  function TopCells(rows: seq<Rel>, k: nat): (cells: seq<Option<Area>>)
  {
    var top := NLargest(rows, k);
    seq(|top|, i requires 0 <= i < |top| => Cell(rows[top[i]], ReadColumn(rows)))
  }

  /** `[o for o in andre if o in top_områder]`: a NaN cell never equals a name. */
  function Filter(xs: seq<Area>, cells: seq<Option<Area>>): (r: seq<Area>)
    ensures forall x :: x in r <==> x in xs && Some(x) in cells
    ensures Distinct(xs) ==> Distinct(r)
  {
    if xs == [] then []
    else
      var rest := Filter(xs[1..], cells);
      assert Distinct(xs) ==> Distinct(xs[1..]) && xs[0] !in xs[1..];
      if Some(xs[0]) in cells then
        assert Distinct(xs) ==> Distinct([xs[0]] + rest) by {
          if Distinct(xs) {
            DistinctCons(xs[0], rest);
          }
        }
        [xs[0]] + rest
      else rest
  }

  /** `xs[:k]`. */
  function Take(xs: seq<Area>, k: nat): seq<Area>
  {
    if |xs| <= k then xs else xs[..k]
  }

  /** `andre` as the Sankey uses it (the filter and the cap of lines 232-245). */
  function KeptOthers(areas: seq<Area>, sel: Area, reiserUt: seq<Rel>, reiserInn: seq<Rel>): seq<Area>
  {
    var andre := Others(areas, sel);
    var rel := reiserUt + reiserInn;
    if |andre| > MaxOtherNodes && |rel| > 0 then
      Take(Filter(andre, TopCells(rel, MaxOtherNodes)), MaxOtherNodes)
    else andre
  }

  /** `alle_noder`: the selection followed by the kept other areas. */
  function Nodes(areas: seq<Area>, sel: Area, reiserUt: seq<Rel>, reiserInn: seq<Rel>): seq<Area>
  {
    [sel] + KeptOthers(areas, sel, reiserUt, reiserInn)
  }

  lemma {:induction false} TakeFilterSubsequence(xs: seq<Area>, cells: seq<Option<Area>>, k: nat)
    ensures Subsequence(Take(Filter(xs, cells), k), xs)
  {
    if xs != [] {
      var f := Filter(xs, cells);
      var tail := Filter(xs[1..], cells);
      if Some(xs[0]) in cells {
        assert f == [xs[0]] + tail;
        if k > 0 {
          TakeFilterSubsequence(xs[1..], cells, k - 1);
          assert Take(f, k) == [xs[0]] + Take(tail, k - 1);
        }
      } else {
        assert f == tail;
        TakeFilterSubsequence(xs[1..], cells, k);
        var t := Take(f, k);
        if t != [] {
          assert t[0] in f;
          assert t[0] != xs[0];
        }
      }
    }
  }

  /** The names that occur in a column. */
  ghost function NamesIn(cells: seq<Option<Area>>): set<Area>
  {
    set i | 0 <= i < |cells| && cells[i].Some? :: cells[i].value
  }

  lemma {:induction false} NamesInCard(cells: seq<Option<Area>>)
    ensures |NamesIn(cells)| <= |cells|
  {
    if cells != [] {
      var prefix := cells[..|cells| - 1];
      NamesInCard(prefix);
      var last := cells[|cells| - 1];
      assert NamesIn(cells) == NamesIn(prefix) + (if last.Some? then {last.value} else {}) by {
        forall x ensures x in NamesIn(cells) <==> x in NamesIn(prefix) || (last.Some? && x == last.value) {
          if x in NamesIn(cells) {
            var i :| 0 <= i < |cells| && cells[i].Some? && cells[i].value == x;
            if i < |prefix| {
              assert prefix[i] == cells[i];
            }
          }
          if x in NamesIn(prefix) {
            var i :| 0 <= i < |prefix| && prefix[i].Some? && prefix[i].value == x;
            assert cells[i] == prefix[i];
          }
        }
      }
    }
  }

  /** A repetition-free list of names drawn from `cells` is no longer than `cells`. */
  lemma FilterFits(xs: seq<Area>, cells: seq<Option<Area>>)
    requires Distinct(xs)
    ensures |Filter(xs, cells)| <= |cells|
  {
    var f := Filter(xs, cells);
    DistinctCard(f);
    forall x | x in f ensures x in NamesIn(cells) {
      var i :| 0 <= i < |cells| && cells[i] == Some(x);
    }
    SubsetCard((set x | x in f), NamesIn(cells));
    NamesInCard(cells);
  }

  /**
   * The kept other areas: other areas of the catalogue, in catalogue order,
   * without repetitions when the catalogue has none; all of them when there are
   * at most ten or when no row exists to rank them by, at most ten otherwise.
   */
  lemma KeptShape(areas: seq<Area>, sel: Area, reiserUt: seq<Rel>, reiserInn: seq<Rel>)
    ensures Subsequence(KeptOthers(areas, sel, reiserUt, reiserInn), Others(areas, sel))
    ensures forall x :: x in KeptOthers(areas, sel, reiserUt, reiserInn) ==> x in areas && x != sel
    ensures Distinct(areas) ==> Distinct(KeptOthers(areas, sel, reiserUt, reiserInn))
    ensures |Others(areas, sel)| <= MaxOtherNodes ==> KeptOthers(areas, sel, reiserUt, reiserInn) == Others(areas, sel)
    ensures reiserUt + reiserInn == [] ==> KeptOthers(areas, sel, reiserUt, reiserInn) == Others(areas, sel)
    ensures |Others(areas, sel)| > MaxOtherNodes && |reiserUt + reiserInn| > 0 ==>
              |KeptOthers(areas, sel, reiserUt, reiserInn)| <= MaxOtherNodes
  {
    var andre := Others(areas, sel);
    var rel := reiserUt + reiserInn;
    var kept := KeptOthers(areas, sel, reiserUt, reiserInn);
    if |andre| > MaxOtherNodes && |rel| > 0 {
      var cells := TopCells(rel, MaxOtherNodes);
      var f := Filter(andre, cells);
      assert kept == Take(f, MaxOtherNodes);
      TakeFilterSubsequence(andre, cells, MaxOtherNodes);
      if Distinct(areas) {
        assert Distinct(f);
      }
    } else {
      SubsequenceRefl(andre);
    }
    SubsequenceMembers(kept, andre);
  }

  /**
   * The node list: the selection at index 0, then other areas of the catalogue
   * in catalogue order; no node twice when the catalogue has no name twice; at most eleven nodes once
   * the cap applies.
   */
  lemma NodesShape(areas: seq<Area>, sel: Area, reiserUt: seq<Rel>, reiserInn: seq<Rel>)
    ensures Nodes(areas, sel, reiserUt, reiserInn)[0] == sel
    ensures Subsequence(Nodes(areas, sel, reiserUt, reiserInn)[1..], areas)
    ensures forall i :: 1 <= i < |Nodes(areas, sel, reiserUt, reiserInn)| ==>
              Nodes(areas, sel, reiserUt, reiserInn)[i] in areas && Nodes(areas, sel, reiserUt, reiserInn)[i] != sel
    ensures Distinct(areas) ==> Distinct(Nodes(areas, sel, reiserUt, reiserInn))
    ensures |Others(areas, sel)| > MaxOtherNodes && |reiserUt + reiserInn| > 0 ==>
              |Nodes(areas, sel, reiserUt, reiserInn)| <= 1 + MaxOtherNodes
  {
    var kept := KeptOthers(areas, sel, reiserUt, reiserInn);
    KeptShape(areas, sel, reiserUt, reiserInn);
    SubsequenceTrans(kept, Others(areas, sel), areas);
    assert Nodes(areas, sel, reiserUt, reiserInn)[1..] == kept;
    ConsShape(sel, kept, areas);
  }

  /** The selection in front of areas other than it. */
  lemma ConsShape(sel: Area, kept: seq<Area>, areas: seq<Area>)
    requires forall x :: x in kept ==> x in areas && x != sel
    ensures ([sel] + kept)[0] == sel
    ensures forall i :: 1 <= i < |[sel] + kept| ==> ([sel] + kept)[i] in areas && ([sel] + kept)[i] != sel
    ensures Distinct(kept) ==> Distinct([sel] + kept)
  {
    forall i | 1 <= i < |[sel] + kept| ensures ([sel] + kept)[i] in areas && ([sel] + kept)[i] != sel {
      assert ([sel] + kept)[i] == kept[i - 1];
    }
    if Distinct(kept) {
      DistinctCons(sel, kept);
    }
  }

  /**
   * Above ten other areas, the kept ones are exactly the other areas named in
   * the read column of the ten heaviest rows: the `[:10]` cap never drops one.
   */
  lemma KeptFromTopRows(areas: seq<Area>, sel: Area, reiserUt: seq<Rel>, reiserInn: seq<Rel>)
    requires Distinct(areas)
    requires |Others(areas, sel)| > MaxOtherNodes && |reiserUt + reiserInn| > 0
    ensures forall o :: o in KeptOthers(areas, sel, reiserUt, reiserInn) <==>
              o in Others(areas, sel) && Some(o) in TopCells(reiserUt + reiserInn, MaxOtherNodes)
  {
    var rel := reiserUt + reiserInn;
    var cells := TopCells(rel, MaxOtherNodes);
    FilterFits(Others(areas, sel), cells);
    assert KeptOthers(areas, sel, reiserUt, reiserInn) == Filter(Others(areas, sel), cells);
  }

  /** The `'til'` column exists exactly when `reiser_ut` has a row. */
  lemma ReadColumnOfRows(reiserUt: seq<Rel>, reiserInn: seq<Rel>)
    requires AllUt(reiserUt) && AllInn(reiserInn)
    ensures ReadColumn(reiserUt + reiserInn) == if |reiserUt| > 0 then Til else Fra
  {
    var rel := reiserUt + reiserInn;
    if |reiserUt| > 0 {
      assert rel[0].Ut?;
    } else {
      assert rel == reiserInn;
    }
  }

  /** A name is in the read column iff it is the cell of one of the chosen rows. */
  lemma TopCellsMembers(rows: seq<Rel>, k: nat, o: Area)
    ensures Some(o) in TopCells(rows, k) <==>
              exists t :: t in NLargest(rows, k) && t < |rows| && Cell(rows[t], ReadColumn(rows)) == Some(o)
  {
    var top := NLargest(rows, k);
    var cells := TopCells(rows, k);
    if Some(o) in cells {
      var i :| 0 <= i < |cells| && cells[i] == Some(o);
      assert top[i] in top;
    }
    forall t | t in top && t < |rows| && Cell(rows[t], ReadColumn(rows)) == Some(o)
      ensures Some(o) in cells
    {
      var i :| 0 <= i < |top| && top[i] == t;
      assert cells[i] == Some(o);
    }
  }

  /**
   * What a name in the read column means: with at least one outbound row the
   * `'til'` column is read, and a name there is the destination of an outbound
   * row among the ten heaviest (inbound rows give NaN); with none, the `'fra'`
   * column is read and a name is the origin of one of those rows.
   */
  lemma TopCellsSpec(reiserUt: seq<Rel>, reiserInn: seq<Rel>, o: Area)
    requires AllUt(reiserUt) && AllInn(reiserInn)
    ensures var rel := reiserUt + reiserInn;
            |reiserUt| > 0 ==>
              (Some(o) in TopCells(rel, MaxOtherNodes) <==>
               exists t :: t in NLargest(rel, MaxOtherNodes) && t < |rel| && rel[t].Ut? && rel[t].til == o)
    ensures var rel := reiserUt + reiserInn;
            |reiserUt| == 0 ==>
              (Some(o) in TopCells(rel, MaxOtherNodes) <==>
               exists t :: t in NLargest(rel, MaxOtherNodes) && t < |rel| && rel[t].Inn? && rel[t].fra == o)
  {
    ReadColumnOfRows(reiserUt, reiserInn);
    TopCellsMembers(reiserUt + reiserInn, MaxOtherNodes, o);
  }


  // ---------------------------------------------------------------------------
  // `node_dict` and the link arrays
  // ---------------------------------------------------------------------------

  /** `{node: idx for idx, node in enumerate(alle_noder)}`: a later index wins. */
  function NodeDict(nodes: seq<Area>): (d: map<Area, nat>)
    ensures forall x :: x in d <==> x in nodes
    ensures forall x :: x in d ==> d[x] < |nodes| && nodes[d[x]] == x
    ensures Distinct(nodes) ==> forall i :: 0 <= i < |nodes| ==> d[nodes[i]] == i
  {
    if nodes == [] then map[]
    else
      var prefix := nodes[..|nodes| - 1];
      var last := nodes[|nodes| - 1];
      assert nodes == prefix + [last];
      assert Distinct(nodes) ==> Distinct(prefix) && last !in prefix;
      NodeDict(prefix)[last := |nodes| - 1]
  }

  /** One Sankey link: `sources[i]`, `targets[i]`, `values[i]`. */
  datatype Link = Link(source: nat, target: nat, value: int)

  /** The links the first loop emits, one per outbound row whose destination is a node. */
  function OutLinks(reiserUt: seq<Rel>, d: map<Area, nat>, sel: Area): seq<Link>
    requires AllUt(reiserUt) && sel in d
  {
    if reiserUt == [] then []
    else
      var r := reiserUt[|reiserUt| - 1];
      OutLinks(reiserUt[..|reiserUt| - 1], d, sel)
        + (if r.til in d then [Link(d[sel], d[r.til], r.antall)] else [])
  }

  /** The links the second loop emits, one per inbound row whose origin is a node. */
  function InLinks(reiserInn: seq<Rel>, d: map<Area, nat>, sel: Area): seq<Link>
    requires AllInn(reiserInn) && sel in d
  {
    if reiserInn == [] then []
    else
      var r := reiserInn[|reiserInn| - 1];
      InLinks(reiserInn[..|reiserInn| - 1], d, sel)
        + (if r.fra in d then [Link(d[r.fra], d[sel], r.antall)] else [])
  }

  /** All links in emission order: outbound ones first, then inbound ones. */
  function Links(reiserUt: seq<Rel>, reiserInn: seq<Rel>, d: map<Area, nat>, sel: Area): seq<Link>
    requires AllUt(reiserUt) && AllInn(reiserInn) && sel in d
  {
    OutLinks(reiserUt, d, sel) + InLinks(reiserInn, d, sel)
  }

  /** The two loops that fill the parallel arrays `sources`, `targets` and `values`. */
  method BuildLinks(reiserUt: seq<Rel>, reiserInn: seq<Rel>, d: map<Area, nat>, sel: Area)
    returns (sources: seq<nat>, targets: seq<nat>, values: seq<int>)
    requires AllUt(reiserUt) && AllInn(reiserInn) && sel in d
    ensures |sources| == |targets| == |values| == |Links(reiserUt, reiserInn, d, sel)|
    ensures forall i :: 0 <= i < |sources| ==>
              Links(reiserUt, reiserInn, d, sel)[i] == Link(sources[i], targets[i], values[i])
  {
    sources, targets, values := [], [], [];
    var k := 0;
    while k < |reiserUt|
      invariant 0 <= k <= |reiserUt|
      invariant |sources| == |targets| == |values| == |OutLinks(reiserUt[..k], d, sel)|
      invariant forall i :: 0 <= i < |sources| ==>
                  OutLinks(reiserUt[..k], d, sel)[i] == Link(sources[i], targets[i], values[i])
    {
      assert reiserUt[..k + 1][..k] == reiserUt[..k];
      var r := reiserUt[k];
      if r.til in d {
        sources := sources + [d[sel]];
        targets := targets + [d[r.til]];
        values := values + [r.antall];
      }
      k := k + 1;
    }
    assert reiserUt[..k] == reiserUt;
    ghost var outs := OutLinks(reiserUt, d, sel);
    k := 0;
    while k < |reiserInn|
      invariant 0 <= k <= |reiserInn|
      invariant |sources| == |targets| == |values| == |outs + InLinks(reiserInn[..k], d, sel)|
      invariant forall i :: 0 <= i < |sources| ==>
                  (outs + InLinks(reiserInn[..k], d, sel))[i] == Link(sources[i], targets[i], values[i])
    {
      assert reiserInn[..k + 1][..k] == reiserInn[..k];
      var r := reiserInn[k];
      if r.fra in d {
        sources := sources + [d[r.fra]];
        targets := targets + [d[sel]];
        values := values + [r.antall];
      }
      k := k + 1;
    }
    assert reiserInn[..k] == reiserInn;
  }

  /**
   * With the node dictionary of a repetition-free node list headed by the
   * selection, and no outbound row back to the selection: every outbound link
   * goes from index 0 to a later node and carries the count of an outbound row
   * to that node, and every such row yields that link.
   */
  lemma {:induction false} OutLinksSpec(reiserUt: seq<Rel>, nodes: seq<Area>)
    requires |nodes| > 0 && Distinct(nodes) && AllUt(reiserUt)
    requires forall i :: 0 <= i < |reiserUt| ==> reiserUt[i].til != nodes[0]
    ensures forall l :: l in OutLinks(reiserUt, NodeDict(nodes), nodes[0]) ==>
              l.source == 0 && 0 < l.target < |nodes| && Ut(nodes[l.target], l.value) in reiserUt
    ensures forall t, w :: 0 < t < |nodes| && Ut(nodes[t], w) in reiserUt ==>
              Link(0, t, w) in OutLinks(reiserUt, NodeDict(nodes), nodes[0])
  {
    var d := NodeDict(nodes);
    if reiserUt != [] {
      var prefix := reiserUt[..|reiserUt| - 1];
      var r := reiserUt[|reiserUt| - 1];
      assert reiserUt == prefix + [r];
      assert AllUt(prefix);
      OutLinksSpec(prefix, nodes);
      assert d[nodes[0]] == 0;
      forall t, w | 0 < t < |nodes| && Ut(nodes[t], w) in reiserUt
        ensures Link(0, t, w) in OutLinks(reiserUt, d, nodes[0])
      {
        if Ut(nodes[t], w) !in prefix {
          assert r == Ut(nodes[t], w);
          assert d[r.til] == t;
        }
      }
    }
  }

  /**
   * Likewise for inbound links: each goes from a later node to index 0 and
   * carries the count of an inbound row from that node, and every such row
   * yields that link.
   */
  lemma {:induction false} InLinksSpec(reiserInn: seq<Rel>, nodes: seq<Area>)
    requires |nodes| > 0 && Distinct(nodes) && AllInn(reiserInn)
    requires forall i :: 0 <= i < |reiserInn| ==> reiserInn[i].fra != nodes[0]
    ensures forall l :: l in InLinks(reiserInn, NodeDict(nodes), nodes[0]) ==>
              l.target == 0 && 0 < l.source < |nodes| && Inn(nodes[l.source], l.value) in reiserInn
    ensures forall s, w :: 0 < s < |nodes| && Inn(nodes[s], w) in reiserInn ==>
              Link(s, 0, w) in InLinks(reiserInn, NodeDict(nodes), nodes[0])
  {
    var d := NodeDict(nodes);
    if reiserInn != [] {
      var prefix := reiserInn[..|reiserInn| - 1];
      var r := reiserInn[|reiserInn| - 1];
      assert reiserInn == prefix + [r];
      assert AllInn(prefix);
      InLinksSpec(prefix, nodes);
      assert d[nodes[0]] == 0;
      forall s, w | 0 < s < |nodes| && Inn(nodes[s], w) in reiserInn
        ensures Link(s, 0, w) in InLinks(reiserInn, d, nodes[0])
      {
        if Inn(nodes[s], w) !in prefix {
          assert r == Inn(nodes[s], w);
          assert d[r.fra] == s;
        }
      }
    }
  }

  /** A link per outbound row when every destination is a node, none when no destination is. */
  lemma {:induction false} OutLinksCount(reiserUt: seq<Rel>, d: map<Area, nat>, sel: Area)
    requires AllUt(reiserUt) && sel in d
    ensures (forall i :: 0 <= i < |reiserUt| ==> reiserUt[i].til in d) ==> |OutLinks(reiserUt, d, sel)| == |reiserUt|
    ensures (forall i :: 0 <= i < |reiserUt| ==> reiserUt[i].til !in d) ==> OutLinks(reiserUt, d, sel) == []
  {
    if reiserUt != [] {
      var prefix := reiserUt[..|reiserUt| - 1];
      assert AllUt(prefix);
      OutLinksCount(prefix, d, sel);
    }
  }

  /** A link per inbound row when every origin is a node, none when no origin is. */
  lemma {:induction false} InLinksCount(reiserInn: seq<Rel>, d: map<Area, nat>, sel: Area)
    requires AllInn(reiserInn) && sel in d
    ensures (forall i :: 0 <= i < |reiserInn| ==> reiserInn[i].fra in d) ==> |InLinks(reiserInn, d, sel)| == |reiserInn|
    ensures (forall i :: 0 <= i < |reiserInn| ==> reiserInn[i].fra !in d) ==> InLinks(reiserInn, d, sel) == []
  {
    if reiserInn != [] {
      var prefix := reiserInn[..|reiserInn| - 1];
      assert AllInn(prefix);
      InLinksCount(prefix, d, sel);
    }
  }

  /** Distinct positions of nodes after index 0 are no more than those nodes. */
  lemma PositionsFit(ps: seq<nat>, nodes: seq<Area>)
    requires |nodes| > 0 && Distinct(nodes) && Distinct(ps)
    requires forall i :: 0 <= i < |ps| ==> 0 < ps[i] < |nodes|
    ensures |ps| <= |nodes| - 1
  {
    var names := seq(|ps|, i requires 0 <= i < |ps| => nodes[ps[i]]);
    var later := nodes[1..];
    forall x | x in names ensures x in later {
      var i :| 0 <= i < |names| && names[i] == x;
      assert later[ps[i] - 1] == x;
    }
    DistinctCard(names);
    DistinctCard(later);
    SubsetCard((set x | x in names), (set x | x in later));
  }

  /** The `targets` and the `sources` arrays of a link list. */
  function Targets(links: seq<Link>): seq<nat>
  {
    if links == [] then [] else Targets(links[..|links| - 1]) + [links[|links| - 1].target]
  }

  function Sources(links: seq<Link>): seq<nat>
  {
    if links == [] then [] else Sources(links[..|links| - 1]) + [links[|links| - 1].source]
  }

  lemma {:induction false} EndpointsSpec(links: seq<Link>)
    ensures |Targets(links)| == |links| && |Sources(links)| == |links|
    ensures forall i :: 0 <= i < |links| ==> Targets(links)[i] == links[i].target && Sources(links)[i] == links[i].source
  {
    if links != [] {
      EndpointsSpec(links[..|links| - 1]);
    }
  }

  /** A destination no earlier outbound row has is not yet the target of a link. */
  lemma FreshTarget(prefix: seq<Rel>, nodes: seq<Area>, til: Area)
    requires |nodes| > 0 && Distinct(nodes) && AllUt(prefix)
    requires forall i :: 0 <= i < |prefix| ==> prefix[i].til != nodes[0]
    requires til !in Ends(prefix) && til in NodeDict(nodes)
    ensures NodeDict(nodes)[til] !in Targets(OutLinks(prefix, NodeDict(nodes), nodes[0]))
  {
    var d := NodeDict(nodes);
    var before := OutLinks(prefix, d, nodes[0]);
    OutLinksSpec(prefix, nodes);
    EndsSpec(prefix);
    EndpointsSpec(before);
    forall i | 0 <= i < |before| ensures Targets(before)[i] != d[til] {
      assert before[i] in before;
      var k :| 0 <= k < |prefix| && prefix[k] == Ut(nodes[before[i].target], before[i].value);
      assert Ends(prefix)[k] == nodes[before[i].target];
    }
  }

  /** An origin no earlier inbound row has is not yet the source of a link. */
  lemma FreshSource(prefix: seq<Rel>, nodes: seq<Area>, fra: Area)
    requires |nodes| > 0 && Distinct(nodes) && AllInn(prefix)
    requires forall i :: 0 <= i < |prefix| ==> prefix[i].fra != nodes[0]
    requires fra !in Ends(prefix) && fra in NodeDict(nodes)
    ensures NodeDict(nodes)[fra] !in Sources(InLinks(prefix, NodeDict(nodes), nodes[0]))
  {
    var d := NodeDict(nodes);
    var before := InLinks(prefix, d, nodes[0]);
    InLinksSpec(prefix, nodes);
    EndsSpec(prefix);
    EndpointsSpec(before);
    forall i | 0 <= i < |before| ensures Sources(before)[i] != d[fra] {
      assert before[i] in before;
      var k :| 0 <= k < |prefix| && prefix[k] == Inn(nodes[before[i].source], before[i].value);
      assert Ends(prefix)[k] == nodes[before[i].source];
    }
  }

  /**
   * Outbound rows with distinct destinations (as dict keys guarantee) give
   * links with distinct targets.
   */
  lemma {:induction false} OutLinksTargets(reiserUt: seq<Rel>, nodes: seq<Area>)
    requires |nodes| > 0 && Distinct(nodes) && AllUt(reiserUt) && Distinct(Ends(reiserUt))
    requires forall i :: 0 <= i < |reiserUt| ==> reiserUt[i].til != nodes[0]
    ensures Distinct(Targets(OutLinks(reiserUt, NodeDict(nodes), nodes[0])))
  {
    var d := NodeDict(nodes);
    if reiserUt != [] {
      var prefix := reiserUt[..|reiserUt| - 1];
      var r := reiserUt[|reiserUt| - 1];
      assert AllUt(prefix);
      var ends := Ends(reiserUt);
      assert ends[..|ends| - 1] == Ends(prefix);
      SnocFacts(ends);
      OutLinksTargets(prefix, nodes);
      var before := OutLinks(prefix, d, nodes[0]);
      if r.til in d {
        var link := Link(d[nodes[0]], d[r.til], r.antall);
        assert OutLinks(reiserUt, d, nodes[0]) == before + [link];
        FreshTarget(prefix, nodes, r.til);
        DistinctSnoc(Targets(before), d[r.til]);
        assert (before + [link])[..|before|] == before;
        assert Targets(before + [link]) == Targets(before) + [d[r.til]];
      } else {
        assert OutLinks(reiserUt, d, nodes[0]) == before;
      }
    }
  }

  /** Inbound rows with distinct origins give links with distinct sources. */
  lemma {:induction false} InLinksSources(reiserInn: seq<Rel>, nodes: seq<Area>)
    requires |nodes| > 0 && Distinct(nodes) && AllInn(reiserInn) && Distinct(Ends(reiserInn))
    requires forall i :: 0 <= i < |reiserInn| ==> reiserInn[i].fra != nodes[0]
    ensures Distinct(Sources(InLinks(reiserInn, NodeDict(nodes), nodes[0])))
  {
    var d := NodeDict(nodes);
    if reiserInn != [] {
      var prefix := reiserInn[..|reiserInn| - 1];
      var r := reiserInn[|reiserInn| - 1];
      assert AllInn(prefix);
      var ends := Ends(reiserInn);
      assert ends[..|ends| - 1] == Ends(prefix);
      SnocFacts(ends);
      InLinksSources(prefix, nodes);
      var before := InLinks(prefix, d, nodes[0]);
      if r.fra in d {
        var link := Link(d[r.fra], d[nodes[0]], r.antall);
        assert InLinks(reiserInn, d, nodes[0]) == before + [link];
        FreshSource(prefix, nodes, r.fra);
        DistinctSnoc(Sources(before), d[r.fra]);
        assert (before + [link])[..|before|] == before;
        assert Sources(before + [link]) == Sources(before) + [d[r.fra]];
      } else {
        assert InLinks(reiserInn, d, nodes[0]) == before;
      }
    }
  }

  /**
   * Each direction of the diagram has at most one link per node other than the
   * selection: outbound links point to later nodes, no two to the same one.
   */
  lemma OutLinksBound(reiserUt: seq<Rel>, nodes: seq<Area>)
    requires |nodes| > 0 && Distinct(nodes) && AllUt(reiserUt) && Distinct(Ends(reiserUt))
    requires forall i :: 0 <= i < |reiserUt| ==> reiserUt[i].til != nodes[0]
    ensures forall l :: l in OutLinks(reiserUt, NodeDict(nodes), nodes[0]) ==> 0 < l.target < |nodes|
    ensures Distinct(Targets(OutLinks(reiserUt, NodeDict(nodes), nodes[0])))
    ensures |OutLinks(reiserUt, NodeDict(nodes), nodes[0])| <= |nodes| - 1
  {
    var links := OutLinks(reiserUt, NodeDict(nodes), nodes[0]);
    OutLinksSpec(reiserUt, nodes);
    OutLinksTargets(reiserUt, nodes);
    EndpointsSpec(links);
    forall i | 0 <= i < |links| ensures 0 < Targets(links)[i] < |nodes| {
      assert links[i] in links;
    }
    PositionsFit(Targets(links), nodes);
  }

  /** Inbound links come from later nodes, no two from the same one. */
  lemma InLinksBound(reiserInn: seq<Rel>, nodes: seq<Area>)
    requires |nodes| > 0 && Distinct(nodes) && AllInn(reiserInn) && Distinct(Ends(reiserInn))
    requires forall i :: 0 <= i < |reiserInn| ==> reiserInn[i].fra != nodes[0]
    ensures forall l :: l in InLinks(reiserInn, NodeDict(nodes), nodes[0]) ==> 0 < l.source < |nodes|
    ensures Distinct(Sources(InLinks(reiserInn, NodeDict(nodes), nodes[0])))
    ensures |InLinks(reiserInn, NodeDict(nodes), nodes[0])| <= |nodes| - 1
  {
    var links := InLinks(reiserInn, NodeDict(nodes), nodes[0]);
    InLinksSpec(reiserInn, nodes);
    InLinksSources(reiserInn, nodes);
    EndpointsSpec(links);
    forall i | 0 <= i < |links| ensures 0 < Sources(links)[i] < |nodes| {
      assert links[i] in links;
    }
    PositionsFit(Sources(links), nodes);
  }

  /**
   * The rows the aggregation produces for a table without self-loops: all of
   * them outbound (resp. inbound), and none leads back to the selection.
   */
  lemma AggregatedRows(od: OdTable, sel: Area)
    ensures AllUt(Outbound(od, sel)) && AllInn(Inbound(od, sel))
    ensures NoSelfLoops(od) ==> forall i :: 0 <= i < |Outbound(od, sel)| ==> Outbound(od, sel)[i].til != sel
    ensures NoSelfLoops(od) ==> forall i :: 0 <= i < |Inbound(od, sel)| ==> Inbound(od, sel)[i].fra != sel
  {
    var ut := Outbound(od, sel);
    var inn := Inbound(od, sel);
    OutboundMembers(od, sel);
    InboundMembers(od, sel);
    forall i | 0 <= i < |ut| ensures ut[i].Ut? && (NoSelfLoops(od) ==> ut[i].til != sel) {
      assert ut[i] in ut;
      var j :| 0 <= j < |od| && od[j] == Trip(sel, ut[i].til, ut[i].antall);
    }
    forall i | 0 <= i < |inn| ensures inn[i].Inn? && (NoSelfLoops(od) ==> inn[i].fra != sel) {
      assert inn[i] in inn;
      var j :| 0 <= j < |od| && od[j] == Trip(inn[i].fra, sel, inn[i].antall);
    }
  }

  /**
   * With at most ten other areas nothing is cut: every outbound and every
   * inbound row of another catalogue area becomes a link.
   */
  lemma EveryRowLinked(areas: seq<Area>, sel: Area, reiserUt: seq<Rel>, reiserInn: seq<Rel>)
    requires AllUt(reiserUt) && AllInn(reiserInn)
    requires |Others(areas, sel)| <= MaxOtherNodes
    requires forall i :: 0 <= i < |reiserUt| ==> reiserUt[i].til in areas && reiserUt[i].til != sel
    requires forall i :: 0 <= i < |reiserInn| ==> reiserInn[i].fra in areas && reiserInn[i].fra != sel
    ensures |Links(reiserUt, reiserInn, NodeDict(Nodes(areas, sel, reiserUt, reiserInn)), sel)|
            == |reiserUt| + |reiserInn|
  {
    var nodes := Nodes(areas, sel, reiserUt, reiserInn);
    var d := NodeDict(nodes);
    KeptShape(areas, sel, reiserUt, reiserInn);
    assert nodes == [sel] + Others(areas, sel);
    OutLinksCount(reiserUt, d, sel);
    InLinksCount(reiserInn, d, sel);
  }

  /** What the Sankey panel shows: the "no flows" message, or the diagram. */
  datatype SankeyView =
    | NoFlows
    | Diagram(nodes: seq<Area>, sources: seq<nat>, targets: seq<nat>, values: seq<int>)

  /**
   * The panel for these rows: "no flows" exactly when no link survives;
   * otherwise the diagram of `alle_noder` whose three arrays list the links in
   * emission order.
   */
  predicate Shows(view: SankeyView, areas: seq<Area>, sel: Area, reiserUt: seq<Rel>, reiserInn: seq<Rel>)
    requires AllUt(reiserUt) && AllInn(reiserInn)
  {
    var nodes := Nodes(areas, sel, reiserUt, reiserInn);
    var links := Links(reiserUt, reiserInn, NodeDict(nodes), sel);
    && (view.NoFlows? <==> links == [])
    && (view.Diagram? ==>
          && view.nodes == nodes
          && |view.sources| == |view.targets| == |view.values| == |links|
          && forall i :: 0 <= i < |links| ==>
               links[i] == Link(view.sources[i], view.targets[i], view.values[i]))
  }

  /** Lines 231-299: nodes, dictionary, links, and the `if sources:` branch. */
  method SankeyPanel(areas: seq<Area>, sel: Area, reiserUt: seq<Rel>, reiserInn: seq<Rel>)
    returns (view: SankeyView)
    requires AllUt(reiserUt) && AllInn(reiserInn)
    ensures Shows(view, areas, sel, reiserUt, reiserInn)
  {
    var nodes := Nodes(areas, sel, reiserUt, reiserInn);
    var d := NodeDict(nodes);
    var sources, targets, values := BuildLinks(reiserUt, reiserInn, d, sel);
    if |sources| > 0 {
      view := Diagram(nodes, sources, targets, values);
    } else {
      view := NoFlows;
    }
  }

  /**
   * Ten distinct inbound rows, named by their positions in `reiserInn`, each
   * heavier than every outbound row.
   */
  predicate HeavyInbound(reiserUt: seq<Rel>, reiserInn: seq<Rel>, heavy: seq<nat>)
  {
    && |heavy| == MaxOtherNodes && Distinct(heavy)
    && forall h :: h in heavy ==>
         h < |reiserInn| && forall i :: 0 <= i < |reiserUt| ==> reiserUt[i].antall < reiserInn[h].antall
  }

  /**
   * The effect of reading only the `'til'` column: when some trip leaves the
   * selection, there are over ten other areas, and ten inbound rows are each
   * heavier than every outbound row, every name read is NaN. No other area is
   * kept, and the panel shows "no flows" although trips exist in both
   * directions.
   */
  lemma InboundCrowdsOut(areas: seq<Area>, sel: Area, reiserUt: seq<Rel>, reiserInn: seq<Rel>, heavy: seq<nat>)
    requires AllUt(reiserUt) && AllInn(reiserInn)
    requires |Others(areas, sel)| > MaxOtherNodes
    requires |reiserUt| > 0 && HeavyInbound(reiserUt, reiserInn, heavy)
    requires forall i :: 0 <= i < |reiserUt| ==> reiserUt[i].til != sel
    requires forall i :: 0 <= i < |reiserInn| ==> reiserInn[i].fra != sel
    ensures KeptOthers(areas, sel, reiserUt, reiserInn) == []
    ensures Nodes(areas, sel, reiserUt, reiserInn) == [sel]
    ensures Links(reiserUt, reiserInn, NodeDict([sel]), sel) == []
  {
    CrowdedOutKeepsNothing(areas, sel, reiserUt, reiserInn, heavy);
    var d := NodeDict([sel]);
    OutLinksCount(reiserUt, d, sel);
    InLinksCount(reiserInn, d, sel);
  }

  lemma CrowdedOutKeepsNothing(areas: seq<Area>, sel: Area, reiserUt: seq<Rel>, reiserInn: seq<Rel>, heavy: seq<nat>)
    requires AllUt(reiserUt) && AllInn(reiserInn)
    requires |Others(areas, sel)| > MaxOtherNodes
    requires |reiserUt| > 0 && HeavyInbound(reiserUt, reiserInn, heavy)
    ensures KeptOthers(areas, sel, reiserUt, reiserInn) == []
  {
    NothingNamed(reiserUt, reiserInn, heavy);
    FilterNone(Others(areas, sel), TopCells(reiserUt + reiserInn, MaxOtherNodes));
  }

  /** Under the conditions above, the read `'til'` column of the chosen rows is all NaN. */
  lemma NothingNamed(reiserUt: seq<Rel>, reiserInn: seq<Rel>, heavy: seq<nat>)
    requires AllUt(reiserUt) && AllInn(reiserInn)
    requires |reiserUt| > 0 && HeavyInbound(reiserUt, reiserInn, heavy)
    ensures forall o :: Some(o) !in TopCells(reiserUt + reiserInn, MaxOtherNodes)
  {
    var rel := reiserUt + reiserInn;
    TopHoldsInbound(reiserUt, reiserInn, heavy);
    ReadColumnOfRows(reiserUt, reiserInn);
    forall o ensures Some(o) !in TopCells(rel, MaxOtherNodes) {
      TopCellsMembers(rel, MaxOtherNodes, o);
    }
  }

  /**
   * Pigeonhole step of the lemma above: ten chosen rows cannot include an
   * outbound row while ten heavier inbound rows compete for the slots.
   */
  lemma TopHoldsInbound(reiserUt: seq<Rel>, reiserInn: seq<Rel>, heavy: seq<nat>)
    requires AllUt(reiserUt) && AllInn(reiserInn)
    requires HeavyInbound(reiserUt, reiserInn, heavy)
    ensures forall t :: t in NLargest(reiserUt + reiserInn, MaxOtherNodes) ==>
              t < |reiserUt + reiserInn| && (reiserUt + reiserInn)[t].Inn?
  {
    ChosenAreInbound(reiserUt, reiserInn, heavy, NLargest(reiserUt + reiserInn, MaxOtherNodes));
  }

  /**
   * Any ten or fewer distinct rows that each outrank every row left out are
   * inbound rows when ten inbound rows are heavier than every outbound row.
   */
  lemma ChosenAreInbound(reiserUt: seq<Rel>, reiserInn: seq<Rel>, heavy: seq<nat>, top: seq<nat>)
    requires AllUt(reiserUt) && AllInn(reiserInn)
    requires HeavyInbound(reiserUt, reiserInn, heavy)
    requires Distinct(top) && |top| <= MaxOtherNodes
    requires forall t :: t in top ==> t < |reiserUt + reiserInn|
    requires forall t, c :: t in top && 0 <= c < |reiserUt + reiserInn| && c !in top ==>
               Beats(reiserUt + reiserInn, t, c)
    ensures forall t :: t in top ==> (reiserUt + reiserInn)[t].Inn?
  {
    var rel := reiserUt + reiserInn;
    if forall h :: h in heavy ==> |reiserUt| + h in top {
      TopWhenHeavyChosen(reiserUt, reiserInn, heavy, top);
    } else {
      // A heavy row `c` is left out, and every chosen row outranks it.
      var h :| h in heavy && |reiserUt| + h !in top;
      var c := |reiserUt| + h;
      assert rel[c] == reiserInn[h];
      OutrankedByHeavy(reiserUt, reiserInn, top, c);
    }
  }

  /** Second case: rows that outrank a row heavier than every outbound row are inbound rows. */
  lemma OutrankedByHeavy(reiserUt: seq<Rel>, reiserInn: seq<Rel>, top: seq<nat>, c: nat)
    requires AllUt(reiserUt) && AllInn(reiserInn)
    requires c < |reiserUt + reiserInn|
    requires forall i :: 0 <= i < |reiserUt| ==> reiserUt[i].antall < (reiserUt + reiserInn)[c].antall
    requires forall t :: t in top ==> t < |reiserUt + reiserInn| && Beats(reiserUt + reiserInn, t, c)
    ensures forall t :: t in top ==> (reiserUt + reiserInn)[t].Inn?
  {
    OutboundLighter(reiserUt, reiserInn, (reiserUt + reiserInn)[c].antall);
  }

  /** First case: every heavy row is chosen, so the ten slots are full of them. */
  lemma TopWhenHeavyChosen(reiserUt: seq<Rel>, reiserInn: seq<Rel>, heavy: seq<nat>, top: seq<nat>)
    requires AllInn(reiserInn) && HeavyInbound(reiserUt, reiserInn, heavy)
    requires Distinct(top) && |top| <= MaxOtherNodes
    requires forall h :: h in heavy ==> |reiserUt| + h in top
    ensures forall t :: t in top ==> t < |reiserUt + reiserInn| && (reiserUt + reiserInn)[t].Inn?
  {
    var rel := reiserUt + reiserInn;
    var pool := seq(|heavy|, i requires 0 <= i < |heavy| => |reiserUt| + heavy[i]);
    forall i, j | 0 <= i < j < |pool| ensures pool[i] != pool[j] {
      assert heavy[i] != heavy[j];
    }
    forall x | x in pool ensures x in top {
      var i :| 0 <= i < |pool| && pool[i] == x;
      assert heavy[i] in heavy;
    }
    FilledSlots(top, pool);
    forall t | t in top ensures t < |rel| && rel[t].Inn? {
      var i :| 0 <= i < |pool| && pool[i] == t;
      assert heavy[i] in heavy;
      assert rel[t] == reiserInn[heavy[i]];
    }
  }

  /** Every outbound row of the mixed list is lighter than a count `w` above all outbound counts. */
  lemma OutboundLighter(reiserUt: seq<Rel>, reiserInn: seq<Rel>, w: int)
    requires AllUt(reiserUt) && AllInn(reiserInn)
    requires forall i :: 0 <= i < |reiserUt| ==> reiserUt[i].antall < w
    ensures forall t :: 0 <= t < |reiserUt + reiserInn| && (reiserUt + reiserInn)[t].Ut? ==>
              (reiserUt + reiserInn)[t].antall < w
  {
  }

  /** When every candidate of a pool is chosen and the pool is no smaller, only pool members are chosen. */
  lemma FilledSlots(top: seq<nat>, pool: seq<nat>)
    requires Distinct(top) && Distinct(pool) && |top| <= |pool|
    requires forall x :: x in pool ==> x in top
    ensures forall t :: t in top ==> t in pool
  {
    var inPool := set x: nat | x in pool;
    var chosen := set x: nat | x in top;
    DistinctCard(top);
    DistinctCard(pool);
    assert |chosen| <= |inPool|;
    assert inPool <= chosen;
    SameSizeSubset(inPool, chosen);
    forall t | t in top ensures t in pool {
      assert t in chosen;
    }
  }

  /** A subset as large as its finite superset is the whole superset. */
  lemma SameSizeSubset<T>(a: set<T>, b: set<T>)
    requires a <= b && |b| <= |a|
    ensures a == b
  {
    assert |b - a| == |b| - |a|;
  }

  lemma {:induction false} FilterNone(xs: seq<Area>, cells: seq<Option<Area>>)
    requires forall o :: Some(o) !in cells
    ensures Filter(xs, cells) == []
  {
    if xs != [] {
      FilterNone(xs[1..], cells);
    }
  }
}
