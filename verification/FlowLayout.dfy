// Placement of the flow graph's nodes (layout in frontend/src/components/IntegrationFlow.tsx).
module FlowLayout {
  import opened FlowDepth

  const NODE_W := 180.0
  const COL_GAP := 80.0
  const ROW_GAP := 28.0

  datatype Pos = Pos(x: real, y: real)

  /** The names of depth `d` in the order of the nodes: one column. */
  function Column(nodes: seq<string>, depths: map<string, nat>, d: nat): seq<string>
    requires forall n | n in nodes :: n in depths
  {
    if nodes == [] then []
    else Column(nodes[..|nodes| - 1], depths, d)
         + if depths[nodes[|nodes| - 1]] == d then [nodes[|nodes| - 1]] else []
  }

  lemma {:induction false} ColumnMembers(nodes: seq<string>, depths: map<string, nat>, d: nat)
    requires forall n | n in nodes :: n in depths
    ensures forall n :: n in Column(nodes, depths, d) <==> n in nodes && depths[n] == d
  {
    if nodes != [] {
      var k := |nodes| - 1;
      ColumnMembers(nodes[..k], depths, d);
      assert forall n :: n in nodes <==> n in nodes[..k] || n == nodes[k];
    }
  }

  lemma ColumnSnoc(nodes: seq<string>, k: nat, depths: map<string, nat>, d: nat)
    requires k < |nodes| && forall n | n in nodes :: n in depths
    ensures Column(nodes[..k + 1], depths, d)
         == Column(nodes[..k], depths, d) + if depths[nodes[k]] == d then [nodes[k]] else []
  {
    assert nodes[..k + 1][..k] == nodes[..k];
  }

  /** The columns of the first nodes, each non-empty, listed once in the order they were begun. */
  ghost predicate Columns(columns: map<nat, seq<string>>, order: seq<nat>, nodes: seq<string>, depths: map<string, nat>)
    requires forall n | n in nodes :: n in depths
  {
    (forall d :: d in order <==> d in columns)
    && (forall d | d in columns :: columns[d] == Column(nodes, depths, d) && columns[d] != [])
    && (forall n | n in nodes :: depths[n] in columns)
  }

  lemma ColumnGrows(columns: map<nat, seq<string>>, nodes: seq<string>, k: nat, depths: map<string, nat>, c: nat)
    requires k < |nodes| && forall n | n in nodes :: n in depths
    requires forall d | d in columns :: columns[d] == Column(nodes[..k], depths, d)
    requires forall n | n in nodes[..k] :: depths[n] in columns
    ensures Column(nodes[..k + 1], depths, c)
         == (if c in columns then columns[c] else []) + if depths[nodes[k]] == c then [nodes[k]] else []
  {
    ColumnSnoc(nodes, k, depths, c);
    ColumnMembers(nodes[..k], depths, c);
    var column := Column(nodes[..k], depths, c);
    assert column == [] || column[0] in column;
  }

  lemma ColumnsSnoc(columns: map<nat, seq<string>>, order: seq<nat>, nodes: seq<string>, k: nat,
                    depths: map<string, nat>)
    requires k < |nodes| && forall n | n in nodes :: n in depths
    requires Columns(columns, order, nodes[..k], depths)
    ensures var n, d := nodes[k], depths[nodes[k]];
            Columns(columns[d := (if d in columns then columns[d] else []) + [n]],
                    if d in columns then order else order + [d], nodes[..k + 1], depths)
  {
    var n, d := nodes[k], depths[nodes[k]];
    assert nodes[..k + 1] == nodes[..k] + [n];
    var after := columns[d := (if d in columns then columns[d] else []) + [n]];
    forall c | c in after ensures after[c] == Column(nodes[..k + 1], depths, c) && after[c] != [] {
      ColumnGrows(columns, nodes, k, depths, c);
      hide Column;
      if c != d { assert columns[c] + [] == columns[c]; }
    }
    hide Column;
  }

  // ---- the arithmetic of a column ------------------------------------------------

  function Product(x: real, y: real): real {
    x * y
  }

  function Times(n: nat, h: real): real {
    Product(n as real, h)
  }

  /** The height of `n` boxes with gaps between them. */
  function Stack(n: nat, nodeH: real): real {
    Times(n, nodeH) + (n as real - 1.0) * ROW_GAP
  }

  function SlotY(i: nat, n: nat, inner: real, nodeH: real): real {
    (inner - Stack(n, nodeH)) / 2.0 + Times(i, nodeH + ROW_GAP)
  }

  lemma StackMonotone(m: nat, n: nat, nodeH: real)
    requires m <= n && nodeH > 0.0
    ensures Stack(m, nodeH) <= Stack(n, nodeH)
  {
    hide Product;
    if m < n {
      StepUp(m, n, nodeH);
      assert m as real < n as real;
    }
  }

  lemma StepUp(i: nat, j: nat, h: real)
    requires i < j && h > 0.0
    ensures 0.0 <= Times(i, h) && Times(i, h) + h <= Times(j, h)
  {
    hide Product;
    assert i as real + 1.0 <= j as real;
    ProductStep(i as real, j as real, h);
  }

  lemma ProductStep(a: real, b: real, h: real)
    requires 0.0 <= a && a + 1.0 <= b && h > 0.0
    ensures 0.0 <= Product(a, h) && Product(a, h) + h <= Product(b, h)
  {
    ProductNonNegative(b - a - 1.0, h);
    ProductNonNegative(a, h);
    assert (b - a - 1.0) * h == b * h - a * h - h;
  }

  lemma ProductNonNegative(x: real, y: real)
    requires x >= 0.0 && y >= 0.0
    ensures x * y >= 0.0
  {
  }

  lemma StackIs(n: nat, nodeH: real)
    ensures Stack(n, nodeH) == Times(n, nodeH + ROW_GAP) - ROW_GAP
  {
    var a := n as real;
    assert a * (nodeH + ROW_GAP) == a * nodeH + a * ROW_GAP;
  }

  /** Slots of one column do not overlap. */
  lemma SlotsApart(i: nat, j: nat, n: nat, inner: real, nodeH: real)
    requires i < j && nodeH > 0.0
    ensures SlotY(i, n, inner, nodeH) + nodeH + ROW_GAP <= SlotY(j, n, inner, nodeH)
  {
    StepUp(i, j, nodeH + ROW_GAP);
    hide Times, Stack;
  }

  /** A slot lies within the inner height if the column's stack does. */
  lemma SlotInside(i: nat, n: nat, inner: real, nodeH: real)
    requires i < n && nodeH > 0.0 && Stack(n, nodeH) <= inner
    ensures 0.0 <= SlotY(i, n, inner, nodeH) && SlotY(i, n, inner, nodeH) + nodeH <= inner
  {
    StackIs(n, nodeH);
    StepUp(i, n, nodeH + ROW_GAP);
    hide Times, Stack;
  }

  /** A column stands in the middle: as much room above its first box as below its last. */
  lemma ColumnCentred(n: nat, inner: real, nodeH: real)
    requires n > 0
    ensures SlotY(0, n, inner, nodeH) == inner - (SlotY(n - 1, n, inner, nodeH) + nodeH)
  {
    StackIs(n, nodeH);
    var h, m := nodeH + ROW_GAP, (n - 1) as real;
    assert n as real == m + 1.0;
    assert (m + 1.0) * h == m * h + h;
  }

  function ColumnX(d: nat): real {
    Times(d, NODE_W + COL_GAP)
  }

  lemma ColumnsApart(c: nat, d: nat)
    requires c < d
    ensures ColumnX(c) + NODE_W + COL_GAP <= ColumnX(d) && 0.0 <= ColumnX(c)
  {
    StepUp(c, d, NODE_W + COL_GAP);
    hide Times;
  }

  // ---- the placement ----------------------------------------------------------------

  /** Two node boxes have no point in common. */
  predicate Apart(p: Pos, q: Pos, nodeH: real) {
    p.x + NODE_W < q.x || q.x + NODE_W < p.x || p.y + nodeH < q.y || q.y + nodeH < p.y
  }

  /** `name` sits in some slot of the column of its depth. */
  ghost predicate Placed(p: Pos, name: string, depths: map<string, nat>, columns: map<nat, seq<string>>,
                         inner: real, nodeH: real)
    requires name in depths && depths[name] in columns
  {
    var d := depths[name];
    p.x == ColumnX(d)
    && exists i: nat :: i < |columns[d]| && columns[d][i] == name && p.y == SlotY(i, |columns[d]|, inner, nodeH)
  }

  lemma PlacedApart(p: Pos, a: string, q: Pos, b: string, depths: map<string, nat>, columns: map<nat, seq<string>>,
                    inner: real, nodeH: real)
    requires a in depths && depths[a] in columns && b in depths && depths[b] in columns
    requires a != b && nodeH > 0.0
    requires Placed(p, a, depths, columns, inner, nodeH) && Placed(q, b, depths, columns, inner, nodeH)
    ensures Apart(p, q, nodeH)
  {
    var c, d := depths[a], depths[b];
    hide SlotY;
    if c < d {
      ColumnsApart(c, d);
    } else if d < c {
      ColumnsApart(d, c);
    } else {
      var n := |columns[c]|;
      var i: nat :| i < n && columns[c][i] == a && p.y == SlotY(i, n, inner, nodeH);
      var j: nat :| j < n && columns[c][j] == b && q.y == SlotY(j, n, inner, nodeH);
      if i < j {
        SlotsApart(i, j, n, inner, nodeH);
      } else {
        SlotsApart(j, i, n, inner, nodeH);
      }
    }
  }

  lemma PlacedInside(p: Pos, a: string, depths: map<string, nat>, columns: map<nat, seq<string>>,
                     inner: real, nodeH: real)
    requires a in depths && depths[a] in columns && nodeH > 0.0
    requires Placed(p, a, depths, columns, inner, nodeH) && Stack(|columns[depths[a]]|, nodeH) <= inner
    ensures 0.0 <= p.y && p.y + nodeH <= inner
  {
    hide SlotY, Stack;
    var n := |columns[depths[a]]|;
    var i: nat :| i < n && columns[depths[a]][i] == a && p.y == SlotY(i, n, inner, nodeH);
    SlotInside(i, n, inner, nodeH);
  }

  /** What a layout promises about the boxes it returns. */
  ghost predicate Tidy(pos: map<string, Pos>, nodes: seq<string>, depths: map<string, nat>, inner: real, nodeH: real) {
    && (forall n :: n in pos <==> n in nodes)
    && (forall n | n in pos :: n in depths && pos[n].x == depths[n] as real * 260.0)
    && (forall a, b | a in pos && b in pos && a != b :: Apart(pos[a], pos[b], nodeH))
    && (forall n | n in pos :: 0.0 <= pos[n].y && pos[n].y + nodeH <= inner)
  }

  /** Assigns every name its column. */
  method FindDepths(nodes: seq<string>, edges: seq<Edge>) returns (depths: map<string, nat>)
    ensures forall n | n in nodes :: n in depths
    ensures StepClosed(edges, depths)
    ensures Acyclic(edges) ==> AllLongest(edges, depths)
  {
    var search := new Search(nodes, edges);
    for k := 0 to |nodes|
      invariant search.Valid() && search.visiting == {} && search.edges == edges
      invariant forall i | 0 <= i < k :: nodes[i] in search.depths
    {
      var _ := search.Depth(nodes[k]);
    }
    return search.depths;
  }

  /** Groups the names into columns. */
  method FindColumns(nodes: seq<string>, depths: map<string, nat>)
    returns (columns: map<nat, seq<string>>, order: seq<nat>)
    requires forall n | n in nodes :: n in depths
    ensures Columns(columns, order, nodes, depths)
  {
    columns, order := map[], [];
    for k := 0 to |nodes|
      invariant Columns(columns, order, nodes[..k], depths)
    {
      hide Columns;
      ColumnsSnoc(columns, order, nodes, k, depths);
      var d := depths[nodes[k]];
      var column := if d in columns then columns[d] else [];
      if d !in columns {
        order := order + [d];
      }
      columns := columns[d := column + [nodes[k]]];
    }
    assert nodes[..|nodes|] == nodes;
  }

  method LongestColumn(columns: map<nat, seq<string>>, order: seq<nat>) returns (maxCol: nat)
    requires forall d :: d in order <==> d in columns
    ensures forall d | d in columns :: |columns[d]| <= maxCol
    ensures maxCol == 0 || exists d :: d in columns && |columns[d]| == maxCol
  {
    maxCol := 0;
    for k := 0 to |order|
      invariant forall i | 0 <= i < k :: order[i] in columns && |columns[order[i]]| <= maxCol
      invariant maxCol == 0 || exists d :: d in columns && |columns[d]| == maxCol
    {
      assert order[k] in order;
      if |columns[order[k]]| > maxCol {
        maxCol := |columns[order[k]]|;
      }
    }
    forall d | d in columns ensures |columns[d]| <= maxCol {
      var i :| 0 <= i < |order| && order[i] == d;
    }
  }

  lemma StacksFit(columns: map<nat, seq<string>>, maxCol: nat, inner: real, nodeH: real)
    requires forall d | d in columns :: |columns[d]| <= maxCol
    requires nodeH > 0.0 && Stack(maxCol, nodeH) <= inner
    ensures forall d | d in columns :: Stack(|columns[d]|, nodeH) <= inner
  {
    hide Stack;
    forall d | d in columns ensures Stack(|columns[d]|, nodeH) <= inner {
      StackMonotone(|columns[d]|, maxCol, nodeH);
    }
  }

  /** The boxes of each column follow one another from the top, 28 apart, in the order of the nodes, with as
      much of the inner height above them as below. */
  ghost predicate Centred(pos: map<string, Pos>, nodes: seq<string>, depths: map<string, nat>,
                          inner: real, nodeH: real)
  {
    (forall n | n in nodes :: n in depths)
    && forall n | n in pos && n in depths :: InRow(pos[n], n, Column(nodes, depths, depths[n]), inner, nodeH)
  }

  ghost predicate InRow(p: Pos, n: string, column: seq<string>, inner: real, nodeH: real) {
    var m := |column| as real;
    exists i: nat :: i < |column| && column[i] == n
      && p.y == (inner - (m * nodeH + (m - 1.0) * 28.0)) / 2.0 + i as real * (nodeH + 28.0)
  }

  /** The inner height is that of the longest column, or of one box if that is more. */
  ghost predicate HeightNeeded(nodes: seq<string>, depths: map<string, nat>, inner: real, nodeH: real) {
    (forall n | n in nodes :: n in depths)
    && exists m: nat :: LongestIs(nodes, depths, m)
         && var stack := m as real * nodeH + (m as real - 1.0) * 28.0;
            inner == if stack > nodeH then stack else nodeH
  }

  ghost predicate LongestIs(nodes: seq<string>, depths: map<string, nat>, m: nat)
    requires forall n | n in nodes :: n in depths
  {
    (forall d: nat :: |Column(nodes, depths, d)| <= m) && exists d: nat :: |Column(nodes, depths, d)| == m
  }

  lemma LongestOfColumns(columns: map<nat, seq<string>>, order: seq<nat>, nodes: seq<string>,
                         depths: map<string, nat>, maxCol: nat)
    requires nodes != [] && forall n | n in nodes :: n in depths
    requires Columns(columns, order, nodes, depths) && forall d | d in columns :: |columns[d]| <= maxCol
    requires maxCol == 0 || exists d :: d in columns && |columns[d]| == maxCol
    ensures LongestIs(nodes, depths, maxCol)
  {
    forall d: nat ensures |Column(nodes, depths, d)| <= maxCol {
      ColumnMembers(nodes, depths, d);
      var column := Column(nodes, depths, d);
      assert column == [] || column[0] in column;
    }
    hide Column;
    assert nodes[0] in nodes && |columns[depths[nodes[0]]]| > 0 by { assert depths[nodes[0]] in columns; }
  }

  lemma HeightIs(nodes: seq<string>, depths: map<string, nat>, m: nat, nodeH: real)
    requires (forall n | n in nodes :: n in depths) && LongestIs(nodes, depths, m)
    ensures HeightNeeded(nodes, depths, if Stack(m, nodeH) > nodeH then Stack(m, nodeH) else nodeH, nodeH)
  {
    hide LongestIs;
    assert Stack(m, nodeH) == m as real * nodeH + (m as real - 1.0) * 28.0;
  }

  lemma PlacedCentred(pos: map<string, Pos>, nodes: seq<string>, depths: map<string, nat>,
                      columns: map<nat, seq<string>>, order: seq<nat>, inner: real, nodeH: real)
    requires (forall n | n in nodes :: n in depths) && Columns(columns, order, nodes, depths)
    requires AllPlaced(pos, nodes, depths, columns, inner, nodeH)
    ensures Centred(pos, nodes, depths, inner, nodeH)
  {
    forall n | n in pos && n in depths ensures InRow(pos[n], n, Column(nodes, depths, depths[n]), inner, nodeH) {
      var column := columns[depths[n]];
      hide Column, SlotY, Columns, InRow;
      var i: nat :| i < |column| && column[i] == n && pos[n].y == SlotY(i, |column|, inner, nodeH);
      SlotInRow(pos[n], n, column, i, inner, nodeH);
    }
  }

  lemma SlotInRow(p: Pos, n: string, column: seq<string>, i: nat, inner: real, nodeH: real)
    requires i < |column| && column[i] == n && p.y == SlotY(i, |column|, inner, nodeH)
    ensures InRow(p, n, column, inner, nodeH)
  {
  }

  /** Places every node of the graph; `inner` is the height the columns are centred in. */
  method Layout(nodes: seq<string>, edges: seq<Edge>, nodeH: real) returns (pos: map<string, Pos>, inner: real)
    requires nodeH > 0.0
    // Every node is placed exactly once, in the column of its depth, without overlap, inside the height.
    // Each column is centred in the height, and the height is no larger than the longest column needs.
    ensures exists depths :: Tidy(pos, nodes, depths, inner, nodeH) && StepClosed(edges, depths)
                             && (Acyclic(edges) ==> AllLongest(edges, depths))
                             && Centred(pos, nodes, depths, inner, nodeH)
                             && (nodes != [] ==> HeightNeeded(nodes, depths, inner, nodeH))
    // No column lies further right than there are names with an edge into them, cycles or not.
    ensures forall n | n in pos :: 0.0 <= pos[n].x <= ColumnX(|Targets(edges)|)
    // Without cycles every edge points to a strictly later column.
    ensures Acyclic(edges) ==>
              forall e | e in edges && e.source in pos && e.target in pos ::
                pos[e.source].x + 260.0 <= pos[e.target].x
  {
    if nodes == [] {
      pos, inner := map[], 0.0;
      EmptyTidy(edges, nodeH);
      return;
    }
    hide Stack, StepClosed, AllLongest, Acyclic, AllPlaced, Tidy, ColumnX, Targets, Centred, HeightNeeded, LongestIs,
         Columns;
    var depths := FindDepths(nodes, edges);
    var columns, order := FindColumns(nodes, depths);
    var maxCol := LongestColumn(columns, order);
    LongestOfColumns(columns, order, nodes, depths, maxCol);
    HeightIs(nodes, depths, maxCol, nodeH);
    inner := if Stack(maxCol, nodeH) > nodeH then Stack(maxCol, nodeH) else nodeH;
    pos := Place(nodes, depths, columns, order, inner, nodeH);
    PlacedCentred(pos, nodes, depths, columns, order, inner, nodeH);
    StacksFit(columns, maxCol, inner, nodeH);
    PlacementTidy(pos, nodes, depths, columns, inner, nodeH);
    ColumnsOrdered(pos, nodes, edges, depths, inner, nodeH);
  }

  ghost predicate AllPlaced(pos: map<string, Pos>, nodes: seq<string>, depths: map<string, nat>,
                            columns: map<nat, seq<string>>, inner: real, nodeH: real)
  {
    (forall n :: n in pos <==> n in nodes)
    && (forall n | n in pos :: n in depths && depths[n] in columns
                               && Placed(pos[n], n, depths, columns, inner, nodeH))
  }

  /** Every box placed so far is in a slot of its column. */
  ghost predicate InSlots(pos: map<string, Pos>, nodes: seq<string>, depths: map<string, nat>,
                          columns: map<nat, seq<string>>, inner: real, nodeH: real)
  {
    forall n | n in pos :: n in nodes && n in depths && depths[n] in columns
                           && Placed(pos[n], n, depths, columns, inner, nodeH)
  }

  lemma SlotFilled(pos: map<string, Pos>, nodes: seq<string>, depths: map<string, nat>,
                   columns: map<nat, seq<string>>, inner: real, nodeH: real, d: nat, i: nat)
    requires InSlots(pos, nodes, depths, columns, inner, nodeH)
    requires d in columns && i < |columns[d]|
    requires columns[d][i] in nodes && columns[d][i] in depths && depths[columns[d][i]] == d
    ensures InSlots(pos[columns[d][i] := Pos(ColumnX(d), SlotY(i, |columns[d]|, inner, nodeH))],
                    nodes, depths, columns, inner, nodeH)
  {
    hide SlotY, ColumnX;
    assert Placed(Pos(ColumnX(d), SlotY(i, |columns[d]|, inner, nodeH)), columns[d][i], depths, columns, inner, nodeH);
  }

  predicate AllIn(names: seq<string>, pos: map<string, Pos>) {
    forall i | 0 <= i < |names| :: names[i] in pos
  }

  /** Fills one column from the top. */
  method PlaceColumn(d: nat, nodes: seq<string>, depths: map<string, nat>, columns: map<nat, seq<string>>,
                     inner: real, nodeH: real, before: map<string, Pos>) returns (pos: map<string, Pos>)
    requires InSlots(before, nodes, depths, columns, inner, nodeH) && d in columns
    requires forall n | n in columns[d] :: n in nodes && n in depths && depths[n] == d
    ensures InSlots(pos, nodes, depths, columns, inner, nodeH)
    ensures before.Keys <= pos.Keys && AllIn(columns[d], pos)
  {
    hide InSlots, SlotY, ColumnX;
    pos := before;
    var services := columns[d];
    for i := 0 to |services|
      invariant InSlots(pos, nodes, depths, columns, inner, nodeH)
      invariant before.Keys <= pos.Keys
      invariant forall j | 0 <= j < i :: services[j] in pos
    {
      assert services[i] in columns[d];
      SlotFilled(pos, nodes, depths, columns, inner, nodeH, d, i);
      pos := pos[services[i] := Pos(ColumnX(d), SlotY(i, |services|, inner, nodeH))];
    }
  }

  lemma ColumnsMembers(nodes: seq<string>, depths: map<string, nat>, columns: map<nat, seq<string>>, order: seq<nat>)
    requires forall n | n in nodes :: n in depths
    requires Columns(columns, order, nodes, depths)
    ensures forall d, n | d in columns && n in columns[d] :: n in nodes && n in depths && depths[n] == d
    ensures forall n | n in nodes :: depths[n] in columns && n in columns[depths[n]]
  {
    forall d | d in columns ensures forall n :: n in columns[d] <==> n in nodes && depths[n] == d {
      ColumnMembers(nodes, depths, d);
    }
    hide Column;
  }

  /** Fills the columns one after the other. */
  method PlaceColumns(nodes: seq<string>, depths: map<string, nat>, columns: map<nat, seq<string>>, order: seq<nat>,
                      inner: real, nodeH: real) returns (pos: map<string, Pos>)
    requires Listed(nodes, depths, columns, order)
    ensures InSlots(pos, nodes, depths, columns, inner, nodeH) && ColumnsIn(columns, order, |order|, pos)
  {
    pos := map[];
    NothingInSlots(nodes, depths, columns, inner, nodeH);
    assert ColumnsIn(columns, order, 0, pos);
    assert forall i | 0 <= i < |order| :: order[i] in columns;
    assert forall d, n | d in columns && n in columns[d] :: n in nodes && n in depths && depths[n] == d;
    hide *;
    for k := 0 to |order|
      invariant InSlots(pos, nodes, depths, columns, inner, nodeH)
      invariant ColumnsIn(columns, order, k, pos)
    {
      ghost var before := pos;
      pos := PlaceColumn(order[k], nodes, depths, columns, inner, nodeH, pos);
      ColumnsInMore(columns, order, k, before, pos);
    }
  }

  /** Places every node: the columns one after the other. */
  method Place(nodes: seq<string>, depths: map<string, nat>, columns: map<nat, seq<string>>, order: seq<nat>,
               inner: real, nodeH: real) returns (pos: map<string, Pos>)
    requires forall n | n in nodes :: n in depths
    requires Columns(columns, order, nodes, depths)
    ensures AllPlaced(pos, nodes, depths, columns, inner, nodeH)
  {
    hide *;
    ColumnsListed(nodes, depths, columns, order);
    pos := PlaceColumns(nodes, depths, columns, order, inner, nodeH);
    EveryNodeIn(pos, nodes, depths, columns, order);
    SlotsPlaced(pos, nodes, depths, columns, inner, nodeH);
  }

  /** The first `k` columns are placed. */
  predicate ColumnsIn(columns: map<nat, seq<string>>, order: seq<nat>, k: nat, pos: map<string, Pos>) {
    k <= |order| && forall i | 0 <= i < k :: order[i] in columns && AllIn(columns[order[i]], pos)
  }

  lemma ColumnsInMore(columns: map<nat, seq<string>>, order: seq<nat>, k: nat,
                      before: map<string, Pos>, after: map<string, Pos>)
    requires ColumnsIn(columns, order, k, before) && before.Keys <= after.Keys
    requires k < |order| && order[k] in columns && AllIn(columns[order[k]], after)
    ensures ColumnsIn(columns, order, k + 1, after)
  {
    forall i | 0 <= i < k ensures AllIn(columns[order[i]], after) {
      AllInMore(columns[order[i]], before, after);
    }
  }

  /** Each listed column holds nodes of its depth, and every node stands in a listed column. */
  predicate Listed(nodes: seq<string>, depths: map<string, nat>, columns: map<nat, seq<string>>, order: seq<nat>) {
    (forall i | 0 <= i < |order| :: order[i] in columns)
    && (forall d, n | d in columns && n in columns[d] :: n in nodes && n in depths && depths[n] == d)
    && (forall n | n in nodes ::
          n in depths && depths[n] in order && depths[n] in columns && n in columns[depths[n]])
  }

  lemma ColumnsListed(nodes: seq<string>, depths: map<string, nat>, columns: map<nat, seq<string>>, order: seq<nat>)
    requires forall n | n in nodes :: n in depths
    requires Columns(columns, order, nodes, depths)
    ensures Listed(nodes, depths, columns, order)
  {
    ColumnsMembers(nodes, depths, columns, order);
    hide Column;
    forall i | 0 <= i < |order| ensures order[i] in columns {
      assert order[i] in order;
    }
  }

  lemma NothingInSlots(nodes: seq<string>, depths: map<string, nat>, columns: map<nat, seq<string>>,
                       inner: real, nodeH: real)
    ensures InSlots(map[], nodes, depths, columns, inner, nodeH)
  {
  }

  lemma SlotsPlaced(pos: map<string, Pos>, nodes: seq<string>, depths: map<string, nat>,
                    columns: map<nat, seq<string>>, inner: real, nodeH: real)
    requires InSlots(pos, nodes, depths, columns, inner, nodeH) && forall n | n in nodes :: n in pos
    ensures AllPlaced(pos, nodes, depths, columns, inner, nodeH)
  {
  }

  lemma AllInMore(names: seq<string>, before: map<string, Pos>, after: map<string, Pos>)
    requires AllIn(names, before) && before.Keys <= after.Keys
    ensures AllIn(names, after)
  {
    forall i | 0 <= i < |names| ensures names[i] in after {
      assert names[i] in before.Keys;
    }
  }

  lemma EveryNodeIn(pos: map<string, Pos>, nodes: seq<string>, depths: map<string, nat>,
                    columns: map<nat, seq<string>>, order: seq<nat>)
    requires Listed(nodes, depths, columns, order)
    requires ColumnsIn(columns, order, |order|, pos)
    ensures forall n | n in nodes :: n in pos
  {
    forall n | n in nodes ensures n in pos {
      var d := depths[n];
      var i :| 0 <= i < |order| && order[i] == d;
      var j :| 0 <= j < |columns[d]| && columns[d][j] == n;
      assert AllIn(columns[order[i]], pos);
    }
  }

  lemma EmptyTidy(edges: seq<Edge>, nodeH: real)
    ensures Tidy(map[], [], map[], 0.0, nodeH) && StepClosed(edges, map[]) && AllLongest(edges, map[])
    ensures Centred(map[], [], map[], 0.0, nodeH)
  {
  }

  lemma PlacementTidy(pos: map<string, Pos>, nodes: seq<string>, depths: map<string, nat>,
                      columns: map<nat, seq<string>>, inner: real, nodeH: real)
    requires nodeH > 0.0 && AllPlaced(pos, nodes, depths, columns, inner, nodeH)
    requires forall d | d in columns :: Stack(|columns[d]|, nodeH) <= inner
    ensures Tidy(pos, nodes, depths, inner, nodeH)
  {
    hide Stack;
    forall a, b | a in pos && b in pos && a != b ensures Apart(pos[a], pos[b], nodeH) {
      PlacedApart(pos[a], a, pos[b], b, depths, columns, inner, nodeH);
    }
    forall n | n in pos ensures 0.0 <= pos[n].y && pos[n].y + nodeH <= inner {
      PlacedInside(pos[n], n, depths, columns, inner, nodeH);
    }
  }

  lemma EdgeDeepens(edges: seq<Edge>, e: Edge, c: nat, d: nat)
    requires e in edges && LongestTo(edges, e.source, c) && LongestTo(edges, e.target, d)
    ensures c < d
  {
    var p :| PathTo(edges, p, e.source) && |p| == c + 1;
    assert Edge(e.source, e.target) == e;
    PathSnoc(edges, p, e.target);
    assert |p + [e.target]| == c + 2;
  }

  lemma ColumnsOrdered(pos: map<string, Pos>, nodes: seq<string>, edges: seq<Edge>, depths: map<string, nat>,
                       inner: real, nodeH: real)
    requires Tidy(pos, nodes, depths, inner, nodeH) && StepClosed(edges, depths)
    requires Acyclic(edges) ==> AllLongest(edges, depths)
    ensures forall n | n in pos :: 0.0 <= pos[n].x <= ColumnX(|Targets(edges)|)
    ensures Acyclic(edges) ==>
              forall e | e in edges && e.source in pos && e.target in pos ::
                pos[e.source].x + NODE_W + COL_GAP <= pos[e.target].x
  {
    forall n | n in pos ensures 0.0 <= pos[n].x <= ColumnX(|Targets(edges)|) {
      DepthBound(edges, depths, n);
      if depths[n] < |Targets(edges)| {
        ColumnsApart(depths[n], |Targets(edges)|);
      }
    }
    if Acyclic(edges) {
      forall e | e in edges && e.source in pos && e.target in pos
        ensures pos[e.source].x + NODE_W + COL_GAP <= pos[e.target].x
      {
        EdgeDeepens(edges, e, depths[e.source], depths[e.target]);
        ColumnsApart(depths[e.source], depths[e.target]);
      }
    }
  }

  // ---- exactly the acyclic graphs can be laid out forward ------------------------------

  /** Every edge leads to a larger depth. */
  predicate Forward(edges: seq<Edge>, depths: map<string, nat>) {
    forall e | e in edges :: e.source in depths && e.target in depths && depths[e.source] < depths[e.target]
  }

  lemma {:induction false} ForwardPath(edges: seq<Edge>, depths: map<string, nat>, p: seq<string>)
    requires Forward(edges, depths) && Path(edges, p) && |p| > 1
    ensures p[0] in depths && p[|p| - 1] in depths && depths[p[0]] < depths[p[|p| - 1]]
    decreases |p|
  {
    PathFront(edges, p);
    if |p| > 2 {
      ForwardPath(edges, depths, p[..|p| - 1]);
    }
  }

  /** The depths the search finds for all names lead every edge forward if and only if the graph has no cycle. */
  lemma ForwardIffAcyclic(edges: seq<Edge>, depths: map<string, nat>)
    requires forall n | n in Names(edges) :: n in depths
    requires Acyclic(edges) ==> AllLongest(edges, depths)
    ensures Forward(edges, depths) <==> Acyclic(edges)
  {
    if Forward(edges, depths) {
      forall p | Path(edges, p) && |p| > 1 ensures p[0] != p[|p| - 1] {
        ForwardPath(edges, depths, p);
      }
    }
    if Acyclic(edges) {
      forall e | e in edges
        ensures e.source in depths && e.target in depths && depths[e.source] < depths[e.target]
      {
        assert e.source in Names(edges) && e.target in Names(edges);
        EdgeDeepens(edges, e, depths[e.source], depths[e.target]);
      }
    }
  }
}
