/**
 * The interactive state of the terminal progress display: which stage
 * is shown, which tree nodes are collapsed, which row is selected and
 * how far the list is scrolled, the selection in the grid of operations,
 * and a bounded tail of recent error lines.
 *
 * Drawing, key handling and the terminal itself are not modelled; the
 * flat trees are those of `ApplyView`, and whether a stage has data yet
 * is a parameter.
 */
module TuiState {
  import opened Wrappers
  import ApplyView

  type Nodes<V> = ApplyView.Nodes<V>

  // ---------------------------------------------------------------------
  // Pipeline stages
  // ---------------------------------------------------------------------

  datatype Stage = ResourceParams | Resources | ResourceStates | ResourceChanges | OperationsTree | OperationsEpochs

  const StageCount: nat := 6

  /** The stages in pipeline order. */
  const AllStages: seq<Stage> := [ResourceParams, Resources, ResourceStates, ResourceChanges, OperationsTree, OperationsEpochs]

  /** A stage's position in pipeline order. */
  function StageIndex(s: Stage): (r: nat)
    ensures r < StageCount && AllStages[r] == s
    ensures forall i | 0 <= i < r :: AllStages[i] != s
  {
    match s
    case ResourceParams => 0
    case Resources => 1
    case ResourceStates => 2
    case ResourceChanges => 3
    case OperationsTree => 4
    case OperationsEpochs => 5
  }

  /** The stage at a position; positions past the last stage are out of bounds. */
  function StageFromIndex(i: nat): (r: Stage)
    requires i < StageCount
  {
    AllStages[i]
  }

  /** Position and stage are inverse to each other. */
  lemma StageIndexRoundTrip(s: Stage, i: nat)
    requires i < StageCount
    ensures StageFromIndex(StageIndex(s)) == s
    ensures StageIndex(StageFromIndex(i)) == i
  {
  }

  /**
   * Move to the nearest stage with data in the direction's sign; stay
   * when there is none that way, or when the direction is zero.
   */
  method NavigateStageRelative(stage: Stage, direction: int, available: Stage -> bool) returns (r: Stage)
    ensures direction == 0 ==> r == stage
    ensures direction > 0 ==>
              if exists i | StageIndex(stage) < i < StageCount :: available(StageFromIndex(i)) then
                && StageIndex(stage) < StageIndex(r) && available(r)
                && forall i | StageIndex(stage) < i < StageIndex(r) :: !available(StageFromIndex(i))
              else r == stage
    ensures direction < 0 ==>
              if exists i | 0 <= i < StageIndex(stage) :: available(StageFromIndex(i)) then
                && StageIndex(r) < StageIndex(stage) && available(r)
                && forall i | StageIndex(r) < i < StageIndex(stage) :: !available(StageFromIndex(i))
              else r == stage
  {
    r := stage;
    if direction == 0 {
      return;
    }
    var current := StageIndex(stage);
    if direction > 0 {
      var next := current + 1;
      while next < StageCount
        invariant current + 1 <= next <= StageCount
        invariant forall i | current < i < next :: !available(StageFromIndex(i))
      {
        var candidate := StageFromIndex(next);
        if available(candidate) {
          StageIndexRoundTrip(candidate, next);
          r := candidate;
          return;
        }
        next := next + 1;
      }
    } else {
      var next := current;
      while next > 0
        invariant 0 <= next <= current
        invariant forall i | next <= i < current :: !available(StageFromIndex(i))
      {
        next := next - 1;
        var candidate := StageFromIndex(next);
        if available(candidate) {
          StageIndexRoundTrip(candidate, next);
          r := candidate;
          return;
        }
      }
    }
  }

  // ---------------------------------------------------------------------
  // Scrolling
  // ---------------------------------------------------------------------

  /** Subtraction stopping at zero: the least amount that, added to `b`, reaches `a`. */
  function SaturatingSub(a: nat, b: nat): (r: nat)
    ensures r + b >= a
    ensures r == 0 || r + b == a
  {
    if a >= b then a - b else 0
  }

  /** Whether `row` shows in a window of `height` rows starting at `offset`. */
  predicate Shows(offset: nat, height: nat, row: nat) {
    offset <= row < offset + height
  }

  /** The list offset after scrolling just enough for `row` to show; a window of no rows never scrolls. */
  function EnsureVisibleRow(offset: nat, row: nat, height: nat): (r: nat)
    ensures height == 0 ==> r == offset
    ensures height > 0 ==> Shows(r, height, row)
    ensures Shows(offset, height, row) ==> r == offset
  {
    if height == 0 then offset
    else
      var bottom := offset + SaturatingSub(height, 1);
      if row < offset then row
      else if row > bottom then SaturatingSub(row, SaturatingSub(height, 1))
      else offset
  }

  function Distance(a: nat, b: nat): nat {
    if a >= b then a - b else b - a
  }

  /** No offset that shows the row is closer to the old one: the list scrolls as little as it can. */
  lemma EnsureVisibleRowMinimal(offset: nat, row: nat, height: nat, other: nat)
    requires Shows(other, height, row)
    ensures Distance(EnsureVisibleRow(offset, row, height), offset) <= Distance(other, offset)
  {
  }

  // ---------------------------------------------------------------------
  // Tree rows
  // ---------------------------------------------------------------------

  datatype TreeState = TreeState(collapsed: set<nat>, selectedNode: Option<nat>, listOffset: nat)

  /** One visible row: the node's position, its depth, whether it is a branch and shown open, and its view. */
  datatype TreeRow<V> = TreeRow(index: nat, depth: nat, isBranch: bool, isExpanded: bool, view: ApplyView.ViewNode<V>)

  predicate IsExpanded(state: TreeState, node: nat) {
    node !in state.collapsed
  }

  /** Collapse an expanded node, expand a collapsed one. */
  function Toggle(state: TreeState, node: nat): (r: TreeState)
    ensures IsExpanded(r, node) <==> !IsExpanded(state, node)
    ensures forall other | other != node :: IsExpanded(r, other) <==> IsExpanded(state, other)
    ensures r.selectedNode == state.selectedNode && r.listOffset == state.listOffset
  {
    if node in state.collapsed then state.(collapsed := state.collapsed - {node})
    else state.(collapsed := state.collapsed + {node})
  }

  /** Toggling the same node twice changes nothing. */
  lemma ToggleTwice(state: TreeState, node: nat)
    ensures Toggle(Toggle(state, node), node) == state
  {
  }

  /** Positions below `n` not yet visited. */
  function Unvisited(n: nat, visited: set<nat>): set<nat> {
    set i | 0 <= i < n && i !in visited
  }

  ghost predicate Distinct<V>(rows: seq<TreeRow<V>>) {
    forall i, j | 0 <= i < j < |rows| :: rows[i].index != rows[j].index
  }

  /** `parent` is an expanded branch row whose node lists `child`'s node, one level above it. */
  ghost predicate IsParentRow<V>(nodes: Nodes<V>, parent: TreeRow<V>, child: TreeRow<V>) {
    && parent.isBranch && parent.isExpanded
    && ApplyView.GetNode(nodes, parent.index).Some?
    && ApplyView.GetNode(nodes, parent.index).value.FlatBranch?
    && child.index in ApplyView.GetNode(nodes, parent.index).value.childIndices
    && child.depth == parent.depth + 1
  }

  /** Some earlier row is the parent of row `i`. */
  ghost predicate ParentBefore<V>(nodes: Nodes<V>, rows: seq<TreeRow<V>>, i: nat)
    requires i < |rows|
  {
    exists j {:trigger IsParentRow(nodes, rows[j], rows[i])} | 0 <= j < i :: IsParentRow(nodes, rows[j], rows[i])
  }

  /**
   * Every row is either a top row, at `depth` and one of `tops`, or
   * deeper and below a parent row shown earlier.
   */
  ghost predicate Nested<V>(nodes: Nodes<V>, rows: seq<TreeRow<V>>, tops: seq<nat>, depth: nat) {
    forall i | 0 <= i < |rows| :: NestedAt(nodes, rows, tops, depth, i)
  }

  ghost predicate NestedAt<V>(nodes: Nodes<V>, rows: seq<TreeRow<V>>, tops: seq<nat>, depth: nat, i: nat)
    requires i < |rows|
  {
    if rows[i].depth == depth then rows[i].index in tops
    else rows[i].depth > depth && ParentBefore(nodes, rows, i)
  }

  /** A parent found earlier stays earlier whatever is put around the rows. */
  lemma ParentBeforeAround<V>(nodes: Nodes<V>, pre: seq<TreeRow<V>>, rows: seq<TreeRow<V>>, post: seq<TreeRow<V>>, i: nat)
    requires i < |rows| && ParentBefore(nodes, rows, i)
    ensures ParentBefore(nodes, pre + rows + post, |pre| + i)
  {
    var j :| 0 <= j < i && IsParentRow(nodes, rows[j], rows[i]);
    assert (pre + rows + post)[|pre| + j] == rows[j] && (pre + rows + post)[|pre| + i] == rows[i];
  }

  /** The rows of a node followed by those of its later siblings keep the nesting. */
  lemma NestedConcat<V>(nodes: Nodes<V>, first: seq<TreeRow<V>>, rest: seq<TreeRow<V>>, children: seq<nat>, depth: nat)
    requires |children| > 0
    requires Nested(nodes, first, [children[0]], depth)
    requires Nested(nodes, rest, children[1..], depth)
    ensures Nested(nodes, first + rest, children, depth)
  {
    var rows := first + rest;
    forall i | 0 <= i < |rows| ensures NestedAt(nodes, rows, children, depth, i) {
      if i < |first| {
        assert rows[i] == first[i] && NestedAt(nodes, first, [children[0]], depth, i);
        if first[i].depth != depth {
          ParentBeforeAround(nodes, [], first, rest, i);
          assert [] + first + rest == rows;
        }
      } else {
        var k := i - |first|;
        assert rows[i] == rest[k] && NestedAt(nodes, rest, children[1..], depth, k);
        if rest[k].depth != depth {
          ParentBeforeAround(nodes, first, rest, [], k);
          assert first + rest + [] == rows;
        }
      }
    }
  }

  /** Under an expanded branch row, the children's top rows have that row as parent. */
  lemma NestedUnder<V>(nodes: Nodes<V>, row: TreeRow<V>, below: seq<TreeRow<V>>)
    requires ApplyView.GetNode(nodes, row.index).Some? && ApplyView.GetNode(nodes, row.index).value.FlatBranch?
    requires row.isBranch && row.isExpanded
    requires Nested(nodes, below, ApplyView.GetNode(nodes, row.index).value.childIndices, row.depth + 1)
    ensures forall i | 0 < i < |[row] + below| :: ([row] + below)[i].depth > row.depth && ParentBefore(nodes, [row] + below, i)
  {
    var rows := [row] + below;
    forall i | 0 < i < |rows| ensures rows[i].depth > row.depth && ParentBefore(nodes, rows, i) {
      assert rows[i] == below[i - 1];
      assert NestedAt(nodes, below, ApplyView.GetNode(nodes, row.index).value.childIndices, row.depth + 1, i - 1);
      if below[i - 1].depth == row.depth + 1 {
        assert IsParentRow(nodes, rows[0], rows[i]);
      } else {
        ParentBeforeAround(nodes, [row], below, [], i - 1);
        assert [row] + below + [] == rows;
      }
    }
  }

  /**
   * The rows shown for the node at `index` and, when it is an expanded
   * branch, for its children in order one level deeper. A position seen
   * before is skipped, so each node shows at most once even if children
   * lists repeat or loop; a missing or empty slot shows nothing. The
   * result carries the visited positions on.
   */
  function Rows<V>(nodes: Nodes<V>, index: nat, depth: nat, collapsed: set<nat>, visited: set<nat>)
    : (r: (seq<TreeRow<V>>, set<nat>))
    ensures visited + {index} <= r.1
    ensures forall i | 0 <= i < |r.0| :: r.0[i].index in r.1 && r.0[i].index !in visited
    ensures forall i | 0 <= i < |r.0| :: ApplyView.GetNode(nodes, r.0[i].index).Some? && r.0[i].depth >= depth
    ensures Distinct(r.0)
    ensures |r.0| > 0 ==> r.0[0].index == index && r.0[0].depth == depth
    ensures index in collapsed ==> |r.0| <= 1
    ensures forall i | 0 < i < |r.0| :: r.0[i].depth > depth && ParentBefore(nodes, r.0, i)
    ensures Nested(nodes, r.0, [index], depth)
    decreases Unvisited(|nodes|, visited), 0
  {
    if index in visited then ([], visited)
    else
      var seen := visited + {index};
      var node := ApplyView.GetNode(nodes, index);
      if node.None? then ([], seen)
      else if node.value.FlatLeaf? then ([TreeRow(index, depth, false, false, node.value.nodeView)], seen)
      else
        var expanded := index !in collapsed;
        var row := TreeRow(index, depth, true, expanded, node.value.nodeView);
        assert index in Unvisited(|nodes|, visited) - Unvisited(|nodes|, seen);
        if expanded then
          var (below, after) := RowsAll(nodes, node.value.childIndices, depth + 1, collapsed, seen);
          NestedUnder(nodes, row, below);
          ([row] + below, after)
        else ([row], seen)
  }

  function RowsAll<V>(nodes: Nodes<V>, children: seq<nat>, depth: nat, collapsed: set<nat>, visited: set<nat>)
    : (r: (seq<TreeRow<V>>, set<nat>))
    ensures visited <= r.1
    ensures forall i | 0 <= i < |r.0| :: r.0[i].index in r.1 && r.0[i].index !in visited
    ensures forall i | 0 <= i < |r.0| :: ApplyView.GetNode(nodes, r.0[i].index).Some? && r.0[i].depth >= depth
    ensures Distinct(r.0)
    ensures |r.0| > 0 ==> r.0[0].depth == depth && r.0[0].index in children
    ensures Nested(nodes, r.0, children, depth)
    decreases Unvisited(|nodes|, visited), 1, |children|
  {
    if |children| == 0 then ([], visited)
    else
      var (first, mid) := Rows(nodes, children[0], depth, collapsed, visited);
      assert Unvisited(|nodes|, mid) <= Unvisited(|nodes|, visited);
      var (rest, after) := RowsAll(nodes, children[1..], depth, collapsed, mid);
      NestedConcat(nodes, first, rest, children, depth);
      (first + rest, after)
  }

  /** The rows of the whole tree, from the root at position 0. */
  function BuildVisibleRows<V>(nodes: Nodes<V>, state: TreeState): (r: seq<TreeRow<V>>)
    ensures Distinct(r)
    ensures forall i | 0 <= i < |r| :: ApplyView.GetNode(nodes, r[i].index).Some?
    ensures |r| > 0 ==> r[0].index == 0 && r[0].depth == 0
  {
    Rows(nodes, 0, 0, state.collapsed, {}).0
  }

  /**
   * The reference rows of a completed subtree laid out from `at`: the
   * preorder walk, not entering collapsed branches, each child one level
   * deeper than its parent.
   */
  function Visible<V>(tree: ApplyView.ViewTree<V>, at: nat, depth: nat, collapsed: set<nat>): seq<TreeRow<V>>
    decreases tree
  {
    match tree
    case Leaf(v) => [TreeRow(at, depth, false, false, ApplyView.Complete(v))]
    case Branch(v, children) =>
      var expanded := at !in collapsed;
      [TreeRow(at, depth, true, expanded, ApplyView.Complete(v))]
      + (if expanded then VisibleAll(children, at + 1, depth + 1, collapsed) else [])
  }

  function VisibleAll<V>(trees: seq<ApplyView.ViewTree<V>>, at: nat, depth: nat, collapsed: set<nat>): seq<TreeRow<V>>
    decreases trees
  {
    if |trees| == 0 then []
    else Visible(trees[0], at, depth, collapsed) + VisibleAll(trees[1..], at + ApplyView.Size(trees[0]), depth, collapsed)
  }

  /** The positions the rows show. */
  function Indices<V>(rows: seq<TreeRow<V>>): (r: set<nat>)
    ensures forall i | 0 <= i < |rows| :: rows[i].index in r
  {
    if |rows| == 0 then {} else {rows[0].index} + Indices(rows[1..])
  }

  /** No position in [at, at + size) has been visited. */
  ghost predicate Fresh(visited: set<nat>, at: nat, size: nat) {
    forall k | at <= k < at + size :: k !in visited
  }

  /** The reference rows of a subtree lie within its layout. */
  lemma {:induction false} VisibleWithin<V>(tree: ApplyView.ViewTree<V>, at: nat, depth: nat, collapsed: set<nat>)
    ensures forall k | k in Indices(Visible(tree, at, depth, collapsed)) :: at <= k < at + ApplyView.Size(tree)
    decreases tree
  {
    match tree
    case Leaf(v) =>
    case Branch(v, children) =>
      VisibleAllWithin(children, at + 1, depth + 1, collapsed);
      var rows := Visible(tree, at, depth, collapsed);
      IndicesAppend([rows[0]], rows[1..]);
      assert rows == [rows[0]] + rows[1..];
  }

  lemma {:induction false} VisibleAllWithin<V>(trees: seq<ApplyView.ViewTree<V>>, at: nat, depth: nat, collapsed: set<nat>)
    ensures forall k | k in Indices(VisibleAll(trees, at, depth, collapsed)) :: at <= k < at + ApplyView.SizeAll(trees)
    decreases trees
  {
    if |trees| > 0 {
      var next := at + ApplyView.Size(trees[0]);
      VisibleWithin(trees[0], at, depth, collapsed);
      VisibleAllWithin(trees[1..], next, depth, collapsed);
      IndicesAppend(Visible(trees[0], at, depth, collapsed), VisibleAll(trees[1..], next, depth, collapsed));
    }
  }

  /**
   * On slots holding a completed subtree none of whose positions was
   * visited, the rows shown are exactly the reference rows, and the
   * visited set grows by exactly their positions.
   */
  lemma {:induction false} RowsOfFlat<V>(nodes: Nodes<V>, at: nat, tree: ApplyView.ViewTree<V>, depth: nat,
                                         collapsed: set<nat>, visited: set<nat>)
    requires ApplyView.Holds(nodes, at, ApplyView.Flat(tree, at))
    requires Fresh(visited, at, ApplyView.Size(tree))
    ensures Rows(nodes, at, depth, collapsed, visited)
         == (Visible(tree, at, depth, collapsed), visited + Indices(Visible(tree, at, depth, collapsed)))
    decreases tree
  {
    assert nodes[at + 0] == Some(ApplyView.Flat(tree, at)[0]);
    match tree
    case Leaf(v) =>
      assert Indices(Visible(tree, at, depth, collapsed)) == {at};
    case Branch(v, children) =>
      ApplyView.HoldsBranch(nodes, at, v, children);
      var rows := Visible(tree, at, depth, collapsed);
      if at !in collapsed {
        var seen := visited + {at};
        RowsOfFlatAll(nodes, at + 1, children, depth + 1, collapsed, seen);
        var below := VisibleAll(children, at + 1, depth + 1, collapsed);
        var row := TreeRow(at, depth, true, true, ApplyView.Complete(v));
        assert rows == [row] + below;
        assert Indices(rows) == {at} + Indices(below) by {
          IndicesAppend([row], below);
        }
        assert at !in visited && ApplyView.GetNode(nodes, at).value.FlatBranch?;
        assert RowsAll(nodes, ApplyView.ChildIndices(children, at + 1), depth + 1, collapsed, seen)
            == (below, seen + Indices(below));
        assert Rows(nodes, at, depth, collapsed, visited) == ([row] + below, seen + Indices(below));
        assert seen + Indices(below) == visited + Indices(rows);
      } else {
        assert at !in visited && ApplyView.GetNode(nodes, at).value.FlatBranch?;
        assert rows == [TreeRow(at, depth, true, false, ApplyView.Complete(v))];
        assert Indices(rows) == {at};
      }
  }

  lemma {:induction false} RowsOfFlatAll<V>(nodes: Nodes<V>, at: nat, trees: seq<ApplyView.ViewTree<V>>, depth: nat,
                                            collapsed: set<nat>, visited: set<nat>)
    requires ApplyView.Holds(nodes, at, ApplyView.FlatAll(trees, at))
    requires Fresh(visited, at, ApplyView.SizeAll(trees))
    ensures RowsAll(nodes, ApplyView.ChildIndices(trees, at), depth, collapsed, visited)
         == (VisibleAll(trees, at, depth, collapsed), visited + Indices(VisibleAll(trees, at, depth, collapsed)))
    decreases trees
  {
    if |trees| > 0 {
      var next := at + ApplyView.Size(trees[0]);
      var indices := ApplyView.ChildIndices(trees, at);
      ApplyView.HoldsSiblings(nodes, at, trees);
      assert Fresh(visited, at, ApplyView.Size(trees[0]));
      RowsOfFlat(nodes, at, trees[0], depth, collapsed, visited);
      var first := Visible(trees[0], at, depth, collapsed);
      var mid := visited + Indices(first);
      VisibleWithin(trees[0], at, depth, collapsed);
      assert Fresh(mid, next, ApplyView.SizeAll(trees[1..]));
      RowsOfFlatAll(nodes, next, trees[1..], depth, collapsed, mid);
      assert indices[0] == at && indices[1..] == ApplyView.ChildIndices(trees[1..], next);
      IndicesAppend(first, VisibleAll(trees[1..], next, depth, collapsed));
      assert Rows(nodes, indices[0], depth, collapsed, visited) == (first, mid);
      var rest := VisibleAll(trees[1..], next, depth, collapsed);
      assert RowsAll(nodes, indices[1..], depth, collapsed, mid) == (rest, mid + Indices(rest));
      assert VisibleAll(trees, at, depth, collapsed) == first + rest;
      assert RowsAll(nodes, indices, depth, collapsed, visited) == (first + rest, mid + Indices(rest));
      assert mid + Indices(rest) == visited + Indices(first + rest);
    } else {
      assert visited + Indices(VisibleAll(trees, at, depth, collapsed)) == visited;
    }
  }

  lemma {:induction false} IndicesAppend<V>(a: seq<TreeRow<V>>, b: seq<TreeRow<V>>)
    ensures Indices(a + b) == Indices(a) + Indices(b)
    decreases |a|
  {
    if |a| == 0 {
      assert a + b == b;
    } else {
      IndicesAppend(a[1..], b);
      assert (a + b)[1..] == a[1..] + b;
    }
  }

  /** The display of a flat tree built from one completed subtree is the reference walk of that subtree. */
  lemma BuildVisibleRowsOfCompleted<V>(tree: ApplyView.ViewTree<V>, state: TreeState)
    ensures BuildVisibleRows(ApplyView.FromViewTreeCompleted(tree), state) == Visible(tree, 0, 0, state.collapsed)
  {
    var nodes := ApplyView.FromViewTreeCompleted(tree);
    RowsOfFlat(nodes, 0, tree, 0, state.collapsed, {});
  }

  /** The first row showing the selected node, if any. */
  function SelectedRowIndex<V>(rows: seq<TreeRow<V>>, state: TreeState): (r: Option<nat>)
    ensures r.Some? <==> state.selectedNode.Some? && exists i | 0 <= i < |rows| :: rows[i].index == state.selectedNode.value
    ensures r.Some? ==> r.value < |rows| && rows[r.value].index == state.selectedNode.value
    ensures r.Some? ==> forall i | 0 <= i < r.value :: rows[i].index != state.selectedNode.value
  {
    match state.selectedNode
    case None => None
    case Some(node) => Position(rows, node)
  }

  function Position<V>(rows: seq<TreeRow<V>>, node: nat): (r: Option<nat>)
    ensures r.Some? <==> exists i | 0 <= i < |rows| :: rows[i].index == node
    ensures r.Some? ==> r.value < |rows| && rows[r.value].index == node
    ensures r.Some? ==> forall i | 0 <= i < r.value :: rows[i].index != node
  {
    if |rows| == 0 then None
    else if rows[0].index == node then Some(0)
    else
      match Position(rows[1..], node)
      case None => None
      case Some(i) =>
        assert rows[i + 1] == rows[1..][i];
        Some(i + 1)
  }

  /**
   * Compute the rows and repair the selection: with no rows nothing is
   * selected and the list is at the top; otherwise a selection that is
   * not shown falls back to the first row.
   */
  function VisibleRows<V>(state: TreeState, nodes: Nodes<V>): (r: (TreeState, seq<TreeRow<V>>))
    ensures r.1 == BuildVisibleRows(nodes, state)
    ensures r.0.collapsed == state.collapsed
    ensures |r.1| == 0 ==> r.0.selectedNode.None? && r.0.listOffset == 0
    ensures |r.1| > 0 ==> r.0.selectedNode.Some? && SelectedRowIndex(r.1, r.0).Some?
    ensures |r.1| > 0 ==> r.0.listOffset == state.listOffset
    ensures SelectedRowIndex(r.1, state).Some? ==> r.0 == state
    ensures |r.1| > 0 && SelectedRowIndex(r.1, state).None? ==> r.0.selectedNode == Some(r.1[0].index)
  {
    var rows := BuildVisibleRows(nodes, state);
    if |rows| == 0 then (state.(selectedNode := None, listOffset := 0), rows)
    else if SelectedRowIndex(rows, state).None? then (state.(selectedNode := Some(rows[0].index)), rows)
    else (state, rows)
  }

  /** The row `delta` away from `current`, kept within the `count` rows. */
  function ClampRow(current: nat, delta: int, count: nat): (r: nat)
    requires current < count
    ensures r < count
    ensures 0 <= current + delta < count ==> r == current + delta
    ensures current + delta < 0 ==> r == 0
    ensures current + delta >= count ==> r == count - 1
  {
    if delta >= 0 then
      if current + delta <= count - 1 then current + delta else count - 1
    else SaturatingSub(current, -delta)
  }

  /** Move the selection `delta` rows, stopping at the first and the last row. */
  function MoveSelection<V>(state: TreeState, nodes: Nodes<V>, delta: int): (r: TreeState)
  {
    var (repaired, rows) := VisibleRows(state, nodes);
    if |rows| == 0 then repaired
    else
      var current := match SelectedRowIndex(rows, repaired) case Some(i) => i case None => 0;
      repaired.(selectedNode := Some(rows[ClampRow(current, delta, |rows|)].index))
  }

  /**
   * Moving selects the row `delta` away from the selected one, clamped to
   * the rows shown; with nothing shown nothing is selected.
   */
  lemma MoveSelectionSpec<V>(state: TreeState, nodes: Nodes<V>, delta: int)
    ensures var rows := BuildVisibleRows(nodes, state);
            var r := MoveSelection(state, nodes, delta);
            && r.collapsed == state.collapsed
            && (|rows| == 0 ==> r.selectedNode.None?)
            && (|rows| > 0 ==>
                  var current := SelectedRowIndex(rows, VisibleRows(state, nodes).0).value;
                  var next := SelectedRowIndex(rows, r);
                  && next.Some?
                  && (0 <= current + delta < |rows| ==> next.value == current + delta)
                  && (current + delta < 0 ==> next.value == 0)
                  && (current + delta >= |rows| ==> next.value == |rows| - 1))
  {
    var rows := BuildVisibleRows(nodes, state);
    if |rows| > 0 {
      var r := MoveSelection(state, nodes, delta);
      var current := SelectedRowIndex(rows, VisibleRows(state, nodes).0).value;
      var k := ClampRow(current, delta, |rows|);
      assert r.selectedNode == Some(rows[k].index);
      DistinctPosition(rows, k);
    }
  }

  lemma DistinctPosition<V>(rows: seq<TreeRow<V>>, k: nat)
    requires Distinct(rows) && k < |rows|
    ensures Position(rows, rows[k].index) == Some(k)
  {
  }

  /** Toggle the selected row's node if it is a branch. */
  function ToggleSelectedBranch<V>(state: TreeState, nodes: Nodes<V>): (r: TreeState)
    ensures var rows := BuildVisibleRows(nodes, state);
            var repaired := VisibleRows(state, nodes).0;
            && r.selectedNode == repaired.selectedNode
            && (|rows| > 0 && rows[SelectedRowIndex(rows, repaired).value].isBranch ==>
                  r == Toggle(repaired, repaired.selectedNode.value))
            && (|rows| == 0 || !rows[SelectedRowIndex(rows, repaired).value].isBranch ==> r == repaired)
  {
    var (repaired, rows) := VisibleRows(state, nodes);
    if |rows| == 0 then repaired
    else
      var selected := match SelectedRowIndex(rows, repaired) case Some(i) => i case None => 0;
      if rows[selected].isBranch then Toggle(repaired, rows[selected].index) else repaired
  }

  // ---------------------------------------------------------------------
  // The operation grid
  // ---------------------------------------------------------------------

  datatype OperationsApplyState = OperationsApplyState(flatIndex: seq<(nat, nat)>, selectedFlat: Option<nat>, listOffset: nat)

  /** (epoch, operation) pairs in `row` for `count` operations. */
  function EpochPairs(epoch: nat, count: nat): (r: seq<(nat, nat)>)
    ensures |r| == count && forall o | 0 <= o < count :: r[o] == (epoch, o)
  {
    seq(count, o requires 0 <= o < count => (epoch, o))
  }

  /** Every (epoch, operation) pair of the grid from epoch `from` on, epoch by epoch. */
  function Pairs<T>(epochs: seq<seq<T>>, from: nat): seq<(nat, nat)>
    decreases |epochs| - from
  {
    if from >= |epochs| then [] else EpochPairs(from, |epochs[from]|) + Pairs(epochs, from + 1)
  }

  predicate LexLess(a: (nat, nat), b: (nat, nat)) {
    a.0 < b.0 || (a.0 == b.0 && a.1 < b.1)
  }

  /** The pairs come in strictly increasing lexicographic order. */
  lemma {:induction false} PairsOrdered<T>(epochs: seq<seq<T>>, from: nat)
    ensures forall i, j | 0 <= i < j < |Pairs(epochs, from)| :: LexLess(Pairs(epochs, from)[i], Pairs(epochs, from)[j])
    decreases |epochs| - from
  {
    if from < |epochs| {
      PairsOrdered(epochs, from + 1);
      PairsBounds(epochs, from + 1);
      var head, tail := EpochPairs(from, |epochs[from]|), Pairs(epochs, from + 1);
      var r := head + tail;
      forall i, j | 0 <= i < j < |r| ensures LexLess(r[i], r[j]) {
        if j < |head| {
          assert r[i] == head[i] && r[j] == head[j];
        } else if i < |head| {
          assert r[i] == head[i] && r[j] == tail[j - |head|];
        } else {
          assert r[i] == tail[i - |head|] && r[j] == tail[j - |head|];
        }
      }
    }
  }

  /** Every pair is a position of the grid from epoch `from` on. */
  lemma {:induction false} PairsBounds<T>(epochs: seq<seq<T>>, from: nat)
    ensures forall i | 0 <= i < |Pairs(epochs, from)| ::
              from <= Pairs(epochs, from)[i].0 < |epochs| && Pairs(epochs, from)[i].1 < |epochs[Pairs(epochs, from)[i].0]|
    decreases |epochs| - from
  {
    if from < |epochs| {
      PairsBounds(epochs, from + 1);
      var head, tail := EpochPairs(from, |epochs[from]|), Pairs(epochs, from + 1);
      var r := head + tail;
      forall i | 0 <= i < |r| ensures from <= r[i].0 < |epochs| && r[i].1 < |epochs[r[i].0]| {
        if i >= |head| {
          assert r[i] == tail[i - |head|];
        } else {
          assert r[i] == head[i];
        }
      }
    }
  }

  /** Every position of the grid from epoch `from` on is among the pairs. */
  lemma {:induction false} PairsComplete<T>(epochs: seq<seq<T>>, from: nat)
    ensures forall e, o | from <= e < |epochs| && 0 <= o < |epochs[e]| :: (e, o) in Pairs(epochs, from)
    decreases |epochs| - from
  {
    if from < |epochs| {
      PairsComplete(epochs, from + 1);
      var head, tail := EpochPairs(from, |epochs[from]|), Pairs(epochs, from + 1);
      forall e, o | from <= e < |epochs| && 0 <= o < |epochs[e]| ensures (e, o) in head + tail {
        if e == from {
          assert (head + tail)[o] == (e, o);
        } else {
          assert (e, o) in tail;
        }
      }
    }
  }

  /** The number of positions from epoch `from` on. */
  function CountFrom<T>(epochs: seq<seq<T>>, from: nat): nat
    decreases |epochs| - from
  {
    if from >= |epochs| then 0 else |epochs[from]| + CountFrom(epochs, from + 1)
  }

  lemma {:induction false} PairsCount<T>(epochs: seq<seq<T>>, from: nat)
    ensures |Pairs(epochs, from)| == CountFrom(epochs, from)
    decreases |epochs| - from
  {
    if from < |epochs| {
      PairsCount(epochs, from + 1);
    }
  }

  /**
   * Re-enumerate the grid's positions and keep the selection within them:
   * nothing selected and the list at the top when there are none, else the
   * old selection (the first position when there was none) clamped to the
   * last one.
   */
  function RebuildIndex<T>(state: OperationsApplyState, epochs: seq<seq<T>>): (r: OperationsApplyState)
    ensures r.flatIndex == Pairs(epochs, 0)
    ensures |r.flatIndex| == 0 ==> r.selectedFlat.None? && r.listOffset == 0
    ensures |r.flatIndex| > 0 ==> r.selectedFlat.Some? && r.selectedFlat.value < |r.flatIndex| && r.listOffset == state.listOffset
    ensures state.selectedFlat.Some? && state.selectedFlat.value < |r.flatIndex| ==> r.selectedFlat == state.selectedFlat
    ensures state.selectedFlat.Some? && state.selectedFlat.value >= |r.flatIndex| > 0 ==> r.selectedFlat == Some(|r.flatIndex| - 1)
    ensures state.selectedFlat.None? && |r.flatIndex| > 0 ==> r.selectedFlat == Some(0)
  {
    var pairs := Pairs(epochs, 0);
    if |pairs| == 0 then OperationsApplyState(pairs, None, 0)
    else
      var selected := match state.selectedFlat case Some(s) => s case None => 0;
      OperationsApplyState(pairs, Some(if selected <= |pairs| - 1 then selected else |pairs| - 1), state.listOffset)
  }

  predicate SelectionInRange(state: OperationsApplyState) {
    state.selectedFlat.Some? ==> state.selectedFlat.value < |state.flatIndex|
  }

  function MoveDown(state: OperationsApplyState): (r: OperationsApplyState)
    ensures r.flatIndex == state.flatIndex
    ensures |state.flatIndex| == 0 ==> r.selectedFlat.None? && r.listOffset == 0
    ensures |state.flatIndex| > 0 ==> r.selectedFlat.Some? && r.selectedFlat.value < |state.flatIndex|
  {
    var count := |state.flatIndex|;
    if count == 0 then state.(selectedFlat := None, listOffset := 0)
    else
      var selected := match state.selectedFlat case Some(s) => s case None => 0;
      state.(selectedFlat := Some(if selected + 1 <= SaturatingSub(count, 1) then selected + 1 else SaturatingSub(count, 1)))
  }

  function MoveUp(state: OperationsApplyState): (r: OperationsApplyState)
    ensures r.flatIndex == state.flatIndex
    ensures |state.flatIndex| == 0 ==> r.selectedFlat.None? && r.listOffset == 0
    ensures |state.flatIndex| > 0 ==> r.selectedFlat.Some?
    ensures SelectionInRange(state) ==> SelectionInRange(r)
  {
    var count := |state.flatIndex|;
    if count == 0 then state.(selectedFlat := None, listOffset := 0)
    else
      var selected := match state.selectedFlat case Some(s) => s case None => 0;
      state.(selectedFlat := Some(SaturatingSub(selected, 1)))
  }

  /** Down then up returns to a selection that was not the last; up then down to one that was not the first. */
  lemma MoveUpDownInverse(state: OperationsApplyState)
    requires state.selectedFlat.Some?
    ensures state.selectedFlat.value + 1 < |state.flatIndex| ==> MoveUp(MoveDown(state)) == state
    ensures 0 < state.selectedFlat.value < |state.flatIndex| ==> MoveDown(MoveUp(state)) == state
  {
  }

  /** At the ends the moves stop: down from the last position and up from the first change nothing. */
  lemma MoveStopsAtEnds(state: OperationsApplyState)
    requires |state.flatIndex| > 0
    ensures state.selectedFlat == Some(|state.flatIndex| - 1) ==> MoveDown(state) == state
    ensures state.selectedFlat == Some(0) ==> MoveUp(state) == state
  {
  }

  // ---------------------------------------------------------------------
  // The bounded tail of lines
  // ---------------------------------------------------------------------

  datatype CircularBuffer<T> = CircularBuffer(buf: seq<T>, cap: nat)

  function NewBuffer<T>(cap: nat): (r: CircularBuffer<T>)
    ensures r.buf == [] && r.cap == cap
  {
    CircularBuffer([], cap)
  }

  /** Append, dropping the oldest item when full. A buffer of no capacity cannot take an item. */
  function Push<T>(b: CircularBuffer<T>, value: T): (r: CircularBuffer<T>)
    requires |b.buf| == b.cap ==> b.cap > 0
    ensures r.cap == b.cap
    ensures |b.buf| <= b.cap ==> |r.buf| <= b.cap
    ensures |r.buf| > 0 && r.buf[|r.buf| - 1] == value
  {
    if |b.buf| == b.cap then b.(buf := b.buf[1..] + [value]) else b.(buf := b.buf + [value])
  }

  function PushAll<T>(b: CircularBuffer<T>, values: seq<T>): CircularBuffer<T>
    requires b.cap > 0
    decreases |values|
  {
    if |values| == 0 then b else PushAll(Push(b, values[0]), values[1..])
  }

  /** The last `n` items of `s`, or all of them when there are fewer. */
  function Last<T>(s: seq<T>, n: nat): (r: seq<T>)
    ensures |r| == if |s| <= n then |s| else n
  {
    if |s| <= n then s else s[|s| - n..]
  }

  /** A buffer holds the last `cap` items of everything pushed into it, oldest first. */
  lemma {:induction false} PushAllKeepsLast<T>(b: CircularBuffer<T>, values: seq<T>)
    requires b.cap > 0 && |b.buf| <= b.cap
    ensures PushAll(b, values).buf == Last(b.buf + values, b.cap)
    decreases |values|
  {
    if |values| > 0 {
      var next := Push(b, values[0]);
      PushIsLast(b, values[0]);
      PushAllKeepsLast(next, values[1..]);
      LastAppend(b.buf + [values[0]], values[1..], b.cap);
      assert b.buf + values == (b.buf + [values[0]]) + values[1..];
    }
  }

  /** One push keeps the last `cap` items. */
  lemma PushIsLast<T>(b: CircularBuffer<T>, value: T)
    requires b.cap > 0 && |b.buf| <= b.cap
    ensures Push(b, value).buf == Last(b.buf + [value], b.cap)
  {
    if |b.buf| == b.cap {
      assert (b.buf + [value])[1..] == b.buf[1..] + [value];
    }
  }

  lemma LastAppend<T>(s: seq<T>, t: seq<T>, n: nat)
    ensures Last(Last(s, n) + t, n) == Last(s + t, n)
  {
  }

  /** From a new buffer: at most `cap` items are kept, and they are the last ones pushed, in order. */
  lemma BufferTail<T>(cap: nat, values: seq<T>)
    requires cap > 0
    ensures |PushAll(NewBuffer(cap), values).buf| <= cap
    ensures PushAll(NewBuffer(cap), values).buf == Last(values, cap)
  {
    PushAllKeepsLast(NewBuffer(cap), values);
    assert [] + values == values;
  }
}
