/**
 * The state behind the progress display of an apply run.
 *
 * A view tree is stored flat: a vector of optional nodes in which a
 * branch lists the positions of its children. A completed subtree is
 * written in preorder from a given position, the branch first and each
 * child's whole subtree after the previous one's; the vector grows as
 * needed, padded with empty slots.
 *
 * The application view keeps one flat tree per pipeline stage and a grid
 * of operations (one row per epoch) with their output and completion.
 * Updates arrive one at a time; each stage's start resets its tree, node
 * updates write into it (creating it if absent), and operation updates
 * outside the grid are ignored.
 *
 * What a view displays is a type parameter `V`.
 */
module ApplyView {
  import opened Wrappers

  type String = seq<char>

  datatype ViewTree<V> = Branch(view: V, children: seq<ViewTree<V>>) | Leaf(view: V)

  datatype ViewNode<V> = NotStarted | Started | Complete(view: V)

  datatype FlatNode<V> =
    | FlatBranch(nodeView: ViewNode<V>, childIndices: seq<nat>)
    | FlatLeaf(nodeView: ViewNode<V>)

  type Nodes<V> = seq<Option<FlatNode<V>>>

  function Max(a: nat, b: nat): nat {
    if a >= b then a else b
  }

  // ---------------------------------------------------------------------
  // Slots
  // ---------------------------------------------------------------------

  /** Grow to cover `index`, padding with empty slots; never shrink. */
  function EnsureIndex<V>(nodes: Nodes<V>, index: nat): (r: Nodes<V>)
    ensures |r| == Max(|nodes|, index + 1)
    ensures forall k | 0 <= k < |r| :: r[k] == if k < |nodes| then nodes[k] else None
  {
    if |nodes| <= index then nodes + seq(index + 1 - |nodes|, _ => None) else nodes
  }

  function SetNode<V>(nodes: Nodes<V>, index: nat, node: FlatNode<V>): (r: Nodes<V>)
    ensures Written(nodes, r, index, [node])
  {
    EnsureIndex(nodes, index)[index := Some(node)]
  }

  function SetNodeNone<V>(nodes: Nodes<V>, index: nat): (r: Nodes<V>)
    ensures |r| == Max(|nodes|, index + 1) && r[index] == None
    ensures forall k | 0 <= k < |r| && k != index :: r[k] == if k < |nodes| then nodes[k] else None
  {
    EnsureIndex(nodes, index)[index := None]
  }

  function SetLeafStarted<V>(nodes: Nodes<V>, index: nat): (r: Nodes<V>)
    ensures Written(nodes, r, index, [FlatLeaf(Started)])
  {
    SetNode(nodes, index, FlatLeaf(Started))
  }

  /** Change a slot's view only: a branch keeps its children, an empty slot becomes a leaf. */
  function SetNodeView<V>(nodes: Nodes<V>, index: nat, newView: ViewNode<V>): (r: Nodes<V>)
    ensures |r| == Max(|nodes|, index + 1)
    ensures forall k | 0 <= k < |r| && k != index :: r[k] == if k < |nodes| then nodes[k] else None
    ensures r[index].Some? && r[index].value.nodeView == newView
    ensures GetNode(nodes, index).Some? && GetNode(nodes, index).value.FlatBranch? ==>
              r[index] == Some(FlatBranch(newView, GetNode(nodes, index).value.childIndices))
    ensures GetNode(nodes, index).Some? && GetNode(nodes, index).value.FlatLeaf? ==> r[index] == Some(FlatLeaf(newView))
    ensures GetNode(nodes, index).None? ==> r[index] == Some(FlatLeaf(newView))
  {
    var grown := EnsureIndex(nodes, index);
    match grown[index]
    case Some(FlatLeaf(_)) => grown[index := Some(FlatLeaf(newView))]
    case Some(FlatBranch(_, children)) => grown[index := Some(FlatBranch(newView, children))]
    case None => grown[index := Some(FlatLeaf(newView))]
  }

  /** The node in a slot: none past the end or in an empty slot. */
  function GetNode<V>(nodes: Nodes<V>, index: nat): (r: Option<FlatNode<V>>)
    ensures r.Some? <==> index < |nodes| && nodes[index].Some?
  {
    if index < |nodes| then nodes[index] else None
  }

  /**
   * `after` is `before` with `flat` written from `at`: grown to cover it,
   * padded with empty slots, and every other slot as it was.
   */
  ghost predicate Written<V>(before: Nodes<V>, after: Nodes<V>, at: nat, flat: seq<FlatNode<V>>) {
    && |after| == Max(|before|, if |flat| == 0 then 0 else at + |flat|)
    && forall k | 0 <= k < |after| ::
         after[k] == if at <= k < at + |flat| then Some(flat[k - at]) else if k < |before| then before[k] else None
  }

  lemma WrittenCompose<V>(n0: Nodes<V>, n1: Nodes<V>, n2: Nodes<V>, at: nat, f1: seq<FlatNode<V>>, f2: seq<FlatNode<V>>)
    requires Written(n0, n1, at, f1) && Written(n1, n2, at + |f1|, f2)
    ensures Written(n0, n2, at, f1 + f2)
  {
    forall k | 0 <= k < |n2|
      ensures n2[k] == if at <= k < at + |f1 + f2| then Some((f1 + f2)[k - at]) else if k < |n0| then n0[k] else None
    {
      if at + |f1| <= k < at + |f1| + |f2| {
        assert (f1 + f2)[k - at] == f2[k - (at + |f1|)];
      } else if at <= k < at + |f1| {
        assert (f1 + f2)[k - at] == f1[k - at];
      }
    }
  }

  lemma WrittenPrepend<V>(n0: Nodes<V>, n1: Nodes<V>, n2: Nodes<V>, at: nat, x: FlatNode<V>, f: seq<FlatNode<V>>)
    requires Written(n0, n1, at + 1, f) && Written(n1, n2, at, [x])
    ensures Written(n0, n2, at, [x] + f)
  {
    forall k | 0 <= k < |n2|
      ensures n2[k] == if at <= k < at + 1 + |f| then Some(([x] + f)[k - at]) else if k < |n0| then n0[k] else None
    {
      if at + 1 <= k < at + 1 + |f| {
        assert ([x] + f)[k - at] == f[k - (at + 1)];
      }
    }
  }

  // ---------------------------------------------------------------------
  // Completed subtrees
  // ---------------------------------------------------------------------

  /** The number of nodes. */
  function Size<V>(tree: ViewTree<V>): (r: nat)
    ensures r >= 1
    decreases tree
  {
    match tree
    case Leaf(_) => 1
    case Branch(_, children) => 1 + SizeAll(children)
  }

  function SizeAll<V>(trees: seq<ViewTree<V>>): nat
    decreases trees
  {
    if |trees| == 0 then 0 else Size(trees[0]) + SizeAll(trees[1..])
  }

  /** Where each child starts when the first starts at `start`: right after the previous child's subtree. */
  function ChildIndices<V>(children: seq<ViewTree<V>>, start: nat): (r: seq<nat>)
    ensures |r| == |children|
    decreases children
  {
    if |children| == 0 then [] else [start] + ChildIndices(children[1..], start + Size(children[0]))
  }

  /** The preorder layout of a completed subtree whose root sits at `at`. */
  function Flat<V>(tree: ViewTree<V>, at: nat): (r: seq<FlatNode<V>>)
    ensures |r| == Size(tree)
    decreases tree
  {
    match tree
    case Leaf(v) => [FlatLeaf(Complete(v))]
    case Branch(v, children) => [FlatBranch(Complete(v), ChildIndices(children, at + 1))] + FlatAll(children, at + 1)
  }

  function FlatAll<V>(trees: seq<ViewTree<V>>, at: nat): (r: seq<FlatNode<V>>)
    ensures |r| == SizeAll(trees)
    decreases trees
  {
    if |trees| == 0 then [] else Flat(trees[0], at) + FlatAll(trees[1..], at + Size(trees[0]))
  }

  /** Write a completed subtree with its root at `index`; the result carries the next free position. */
  function Insert<V>(nodes: Nodes<V>, index: nat, tree: ViewTree<V>): (r: (Nodes<V>, nat))
    decreases tree
  {
    match tree
    case Leaf(v) => (SetNode(nodes, index, FlatLeaf(Complete(v))), index + 1)
    case Branch(v, children) =>
      var (written, next, indices) := InsertAll(nodes, index + 1, children);
      (SetNode(written, index, FlatBranch(Complete(v), indices)), next)
  }

  function InsertAll<V>(nodes: Nodes<V>, next: nat, children: seq<ViewTree<V>>): (r: (Nodes<V>, nat, seq<nat>))
    decreases children
  {
    if |children| == 0 then (nodes, next, [])
    else
      var (first, afterFirst) := Insert(nodes, next, children[0]);
      var (rest, afterRest, indices) := InsertAll(first, afterFirst, children[1..]);
      (rest, afterRest, [next] + indices)
  }

  /** Insert a completed subtree at `start`, after growing the vector to reach it. */
  function InsertSubtreeAtCompleted<V>(nodes: Nodes<V>, start: nat, tree: ViewTree<V>): (r: (Nodes<V>, nat))
    ensures r.1 == start + Size(tree)
    ensures Written(EnsureIndex(nodes, start), r.0, start, Flat(tree, start))
  {
    InsertSpec(EnsureIndex(nodes, start), start, tree);
    Insert(EnsureIndex(nodes, start), start, tree)
  }

  /** A flat tree holding just one completed subtree, from position 0. */
  function FromViewTreeCompleted<V>(tree: ViewTree<V>): (r: Nodes<V>)
    ensures |r| == Size(tree)
    ensures forall k | 0 <= k < |r| :: r[k] == Some(Flat(tree, 0)[k])
  {
    InsertSubtreeAtCompleted([], 0, tree).0
  }

  /**
   * Inserting writes the subtree's preorder layout from `index`, ends
   * right after it, and leaves every other slot as it was.
   */
  lemma {:induction false} InsertSpec<V>(nodes: Nodes<V>, index: nat, tree: ViewTree<V>)
    ensures Insert(nodes, index, tree).1 == index + Size(tree)
    ensures Written(nodes, Insert(nodes, index, tree).0, index, Flat(tree, index))
    decreases tree
  {
    match tree
    case Leaf(v) =>
    case Branch(v, children) =>
      InsertAllSpec(nodes, index + 1, children);
      var (written, next, indices) := InsertAll(nodes, index + 1, children);
      WrittenPrepend(nodes, written, Insert(nodes, index, tree).0, index,
                     FlatBranch(Complete(v), indices), FlatAll(children, index + 1));
  }

  lemma {:induction false} InsertAllSpec<V>(nodes: Nodes<V>, next: nat, children: seq<ViewTree<V>>)
    ensures InsertAll(nodes, next, children).1 == next + SizeAll(children)
    ensures InsertAll(nodes, next, children).2 == ChildIndices(children, next)
    ensures Written(nodes, InsertAll(nodes, next, children).0, next, FlatAll(children, next))
    decreases children
  {
    if |children| == 0 {
      assert Written(nodes, nodes, next, []);
    } else {
      InsertSpec(nodes, next, children[0]);
      var (first, afterFirst) := Insert(nodes, next, children[0]);
      InsertAllSpec(first, afterFirst, children[1..]);
      WrittenCompose(nodes, first, InsertAll(nodes, next, children).0, next,
                     Flat(children[0], next), FlatAll(children[1..], afterFirst));
    }
  }

  /** The first child sits right after its branch, and child j after the whole subtrees of children 0..j-1. */
  lemma {:induction false} ChildIndicesClosed<V>(children: seq<ViewTree<V>>, start: nat)
    ensures forall j | 0 <= j < |children| :: ChildIndices(children, start)[j] == start + SizeAll(children[..j])
    decreases children
  {
    if |children| > 0 {
      ChildIndicesClosed(children[1..], start + Size(children[0]));
      forall j | 1 <= j < |children|
        ensures ChildIndices(children, start)[j] == start + SizeAll(children[..j])
      {
        assert children[..j][1..] == children[1..][..j - 1];
      }
      assert SizeAll(children[..0]) == 0 by {
        assert children[..0] == [];
      }
    }
  }

  // ---------------------------------------------------------------------
  // Reading a flat tree back
  // ---------------------------------------------------------------------

  /** The completed subtree rooted at `index`, if every node below it is complete and children come after their parents. */
  function ReadBack<V>(nodes: Nodes<V>, index: nat): (r: Option<ViewTree<V>>)
    decreases |nodes| - index, 1
  {
    if index >= |nodes| then None
    else match nodes[index]
      case Some(FlatLeaf(Complete(v))) => Some(Leaf(v))
      case Some(FlatBranch(Complete(v), indices)) =>
        (match ReadBackAll(nodes, index, indices)
         case Some(children) => Some(Branch(v, children))
         case None => None)
      case _ => None
  }

  function ReadBackAll<V>(nodes: Nodes<V>, parent: nat, indices: seq<nat>): (r: Option<seq<ViewTree<V>>>)
    requires parent < |nodes|
    ensures r.Some? ==> |r.value| == |indices|
    decreases |nodes| - parent, 0, |indices|
  {
    if |indices| == 0 then Some([])
    else if indices[0] <= parent then None
    else
      match ReadBack(nodes, indices[0])
      case None => None
      case Some(first) =>
        match ReadBackAll(nodes, parent, indices[1..])
        case None => None
        case Some(rest) => Some([first] + rest)
  }

  /** The slots from `at` hold `flat`. */
  ghost predicate Holds<V>(nodes: Nodes<V>, at: nat, flat: seq<FlatNode<V>>) {
    at + |flat| <= |nodes| && forall k | 0 <= k < |flat| :: nodes[at + k] == Some(flat[k])
  }

  /** Slots that hold `a + b` hold `a`, and `b` right after it. */
  lemma HoldsSplit<V>(nodes: Nodes<V>, at: nat, a: seq<FlatNode<V>>, b: seq<FlatNode<V>>)
    requires Holds(nodes, at, a + b)
    ensures Holds(nodes, at, a) && Holds(nodes, at + |a|, b)
  {
    forall k | 0 <= k < |a| ensures nodes[at + k] == Some(a[k]) {
      assert (a + b)[k] == a[k];
    }
    forall k | 0 <= k < |b| ensures nodes[at + |a| + k] == Some(b[k]) {
      assert (a + b)[|a| + k] == b[k];
      assert nodes[at + (|a| + k)] == Some((a + b)[|a| + k]);
    }
  }

  /** Slots that hold a branch's layout hold its node first and then each child's layout in turn. */
  lemma HoldsBranch<V>(nodes: Nodes<V>, at: nat, v: V, children: seq<ViewTree<V>>)
    requires Holds(nodes, at, Flat(Branch(v, children), at))
    ensures nodes[at] == Some(FlatBranch(Complete(v), ChildIndices(children, at + 1)))
    ensures Holds(nodes, at + 1, FlatAll(children, at + 1))
  {
    var flat := Flat(Branch(v, children), at);
    assert nodes[at + 0] == Some(flat[0]);
    HoldsSplit(nodes, at, [flat[0]], FlatAll(children, at + 1));
  }

  /** Slots that hold a run of sibling layouts hold the first sibling's and then the rest. */
  lemma HoldsSiblings<V>(nodes: Nodes<V>, at: nat, children: seq<ViewTree<V>>)
    requires |children| > 0 && Holds(nodes, at, FlatAll(children, at))
    ensures Holds(nodes, at, Flat(children[0], at))
    ensures Holds(nodes, at + Size(children[0]), FlatAll(children[1..], at + Size(children[0])))
  {
    HoldsSplit(nodes, at, Flat(children[0], at), FlatAll(children[1..], at + Size(children[0])));
  }

  /** A completed subtree written anywhere reads back as itself. */
  lemma {:induction false} ReadBackFlat<V>(nodes: Nodes<V>, at: nat, tree: ViewTree<V>)
    requires Holds(nodes, at, Flat(tree, at))
    ensures ReadBack(nodes, at) == Some(tree)
    decreases tree
  {
    assert nodes[at + 0] == Some(Flat(tree, at)[0]);
    match tree
    case Leaf(v) =>
    case Branch(v, children) =>
      HoldsBranch(nodes, at, v, children);
      ReadBackFlatAll(nodes, at, at + 1, children);
  }

  lemma {:induction false} ReadBackFlatAll<V>(nodes: Nodes<V>, parent: nat, at: nat, children: seq<ViewTree<V>>)
    requires parent < at
    requires Holds(nodes, at, FlatAll(children, at))
    ensures parent < |nodes| ==> ReadBackAll(nodes, parent, ChildIndices(children, at)) == Some(children)
    decreases children
  {
    if |children| > 0 && parent < |nodes| {
      HoldsSiblings(nodes, at, children);
      ReadBackFlat(nodes, at, children[0]);
      ReadBackFlatAll(nodes, parent, at + Size(children[0]), children[1..]);
      assert children == [children[0]] + children[1..];
    }
  }

  /** Inserting a completed subtree and reading it back from the same position gives the subtree. */
  lemma InsertReadBack<V>(nodes: Nodes<V>, start: nat, tree: ViewTree<V>)
    ensures ReadBack(InsertSubtreeAtCompleted(nodes, start, tree).0, start) == Some(tree)
  {
    var r := InsertSubtreeAtCompleted(nodes, start, tree).0;
    var flat := Flat(tree, start);
    assert Holds(r, start, flat) by {
      forall k | 0 <= k < |flat| ensures r[start + k] == Some(flat[k]) {
        assert start <= start + k < start + |flat|;
      }
    }
    ReadBackFlat(r, start, tree);
  }

  // ---------------------------------------------------------------------
  // The application view
  // ---------------------------------------------------------------------

  datatype OperationView<V> = OperationView(labelView: ViewNode<V>, stdout: String, stderr: String, isComplete: bool)

  datatype AppView<V> = AppView(
    resourceParams: Option<Nodes<V>>,
    resources: Option<Nodes<V>>,
    resourceStates: Option<Nodes<V>>,
    resourceChanges: Option<Nodes<V>>,
    operationsTree: Option<Nodes<V>>,
    operationsEpochs: seq<seq<OperationView<V>>>)

  datatype AppUpdate<V> =
    | ResourceParams(resourceParams: ViewTree<V>)
    | ResourcesStart
    | ResourcesNode(index: nat, value: ViewTree<V>)
    | ResourcesComplete
    | ResourceStatesStart
    | ResourceStatesStartNode(index: nat)
    | ResourceStatesCompleteNode(index: nat, maybeValue: Option<ViewTree<V>>)
    | ResourceStatesComplete
    | ResourceChangesStart
    | ResourceChangesNode(index: nat, value: ViewTree<V>)
    | ResourceChangesComplete
    | OperationsStart
    | OperationsNode(index: nat, value: ViewTree<V>)
    | OperationsComplete
    | OperationsApplyStart(operations: seq<seq<V>>)
    | OperationApplyStart(epoch: nat, op: nat)
    | OperationApplyStdout(epoch: nat, op: nat, text: String)
    | OperationApplyStderr(epoch: nat, op: nat, text: String)
    | OperationApplyComplete(epoch: nat, op: nat)
    | OperationsApplyComplete

  /** A stage's tree, created empty if it does not exist yet. */
  function EnsureTree<V>(tree: Option<Nodes<V>>): (r: Nodes<V>)
    ensures tree.None? ==> r == []
    ensures tree.Some? ==> r == tree.value
  {
    if tree.None? then [] else tree.value
  }

  /** The operation grid at the start of applying: one row per epoch, labels complete, no output yet. */
  function StartGrid<V>(operations: seq<seq<V>>): (r: seq<seq<OperationView<V>>>)
    ensures |r| == |operations|
    ensures forall e | 0 <= e < |r| :: |r[e]| == |operations[e]|
    ensures forall e, o | 0 <= e < |r| && 0 <= o < |r[e]| ::
              r[e][o] == OperationView(Complete(operations[e][o]), "", "", false)
  {
    seq(|operations|, e requires 0 <= e < |operations| =>
      seq(|operations[e]|, o requires 0 <= o < |operations[e]| => OperationView(Complete(operations[e][o]), "", "", false)))
  }

  /** Change the operation at (`epoch`, `op`) with `f`; positions outside the grid change nothing. */
  function UpdateOperation<V>(grid: seq<seq<OperationView<V>>>, epoch: nat, op: nat,
                              f: OperationView<V> -> OperationView<V>): (r: seq<seq<OperationView<V>>>)
    ensures !(epoch < |grid| && op < |grid[epoch]|) ==> r == grid
    ensures epoch < |grid| && op < |grid[epoch]| ==> r == grid[epoch := grid[epoch][op := f(grid[epoch][op])]]
  {
    if epoch < |grid| && op < |grid[epoch]| then grid[epoch := grid[epoch][op := f(grid[epoch][op])]]
    else grid
  }

  /** One update of the view. */
  function Update<V>(view: AppView<V>, update: AppUpdate<V>): (r: AppView<V>)
  {
    match update
    case ResourceParams(tree) => view.(resourceParams := Some(FromViewTreeCompleted(tree)))
    case ResourcesStart => view.(resources := Some([]))
    case ResourcesNode(index, value) =>
      view.(resources := Some(InsertSubtreeAtCompleted(EnsureTree(view.resources), index, value).0))
    case ResourcesComplete => view
    case ResourceStatesStart => view.(resourceStates := Some([]))
    case ResourceStatesStartNode(index) =>
      view.(resourceStates := Some(SetLeafStarted(EnsureTree(view.resourceStates), index)))
    case ResourceStatesCompleteNode(index, maybeValue) =>
      var tree := EnsureTree(view.resourceStates);
      view.(resourceStates := Some(
        match maybeValue
        case Some(subtree) => InsertSubtreeAtCompleted(tree, index, subtree).0
        case None => SetNodeNone(tree, index)))
    case ResourceStatesComplete => view
    case ResourceChangesStart => view.(resourceChanges := Some([]))
    case ResourceChangesNode(index, value) =>
      view.(resourceChanges := Some(InsertSubtreeAtCompleted(EnsureTree(view.resourceChanges), index, value).0))
    case ResourceChangesComplete => view
    case OperationsStart => view.(operationsTree := Some([]))
    case OperationsNode(index, value) =>
      view.(operationsTree := Some(InsertSubtreeAtCompleted(EnsureTree(view.operationsTree), index, value).0))
    case OperationsComplete => view
    case OperationsApplyStart(operations) => view.(operationsEpochs := StartGrid(operations))
    case OperationApplyStart(epoch, op) =>
      view.(operationsEpochs := UpdateOperation(view.operationsEpochs, epoch, op,
                                  (o: OperationView<V>) => o.(stdout := "", stderr := "", isComplete := false)))
    case OperationApplyStdout(epoch, op, text) =>
      view.(operationsEpochs := UpdateOperation(view.operationsEpochs, epoch, op, (o: OperationView<V>) => o.(stdout := o.stdout + text)))
    case OperationApplyStderr(epoch, op, text) =>
      view.(operationsEpochs := UpdateOperation(view.operationsEpochs, epoch, op, (o: OperationView<V>) => o.(stderr := o.stderr + text)))
    case OperationApplyComplete(epoch, op) =>
      view.(operationsEpochs := UpdateOperation(view.operationsEpochs, epoch, op, (o: OperationView<V>) => o.(isComplete := true)))
    case OperationsApplyComplete => view
  }

  /** Apply updates in order. */
  function Replay<V>(view: AppView<V>, updates: seq<AppUpdate<V>>): AppView<V>
    decreases |updates|
  {
    if |updates| == 0 then view else Replay(Update(view, updates[0]), updates[1..])
  }

  predicate IsOperationUpdate<V>(u: AppUpdate<V>) {
    u.OperationApplyStart? || u.OperationApplyStdout? || u.OperationApplyStderr? || u.OperationApplyComplete?
  }

  /** Updates that concern only the trees leave the operation grid alone, and operation updates leave every tree alone. */
  lemma UpdateFrames<V>(view: AppView<V>, update: AppUpdate<V>)
    ensures !update.OperationsApplyStart? && !IsOperationUpdate(update) ==>
              Update(view, update).operationsEpochs == view.operationsEpochs
    ensures update.OperationsApplyStart? || IsOperationUpdate(update) ==>
              Update(view, update).(operationsEpochs := view.operationsEpochs) == view
  {
  }

  /**
   * An operation update changes at most the one operation it names, and
   * nothing when that position is outside the grid; starting clears the
   * output and the completion flag, output is appended, and completing
   * sets the flag.
   */
  lemma OperationUpdateSpec<V>(view: AppView<V>, update: AppUpdate<V>)
    requires IsOperationUpdate(update)
    ensures var grid := view.operationsEpochs;
            var after := Update(view, update).operationsEpochs;
            && |after| == |grid|
            && (forall e | 0 <= e < |grid| :: |after[e]| == |grid[e]|)
            && (forall e, o | 0 <= e < |grid| && 0 <= o < |grid[e]| && (e, o) != (update.epoch, update.op) ::
                  after[e][o] == grid[e][o])
            && (update.epoch < |grid| && update.op < |grid[update.epoch]| ==>
                  var before := grid[update.epoch][update.op];
                  var now := after[update.epoch][update.op];
                  && now.labelView == before.labelView
                  && (update.OperationApplyStart? ==> now == before.(stdout := "", stderr := "", isComplete := false))
                  && (update.OperationApplyStdout? ==> now == before.(stdout := before.stdout + update.text))
                  && (update.OperationApplyStderr? ==> now == before.(stderr := before.stderr + update.text))
                  && (update.OperationApplyComplete? ==> now == before.(isComplete := true)))
  {
  }

  /**
   * A node update writes the completed subtree's layout from its index
   * into the stage's tree, creating the tree if it was absent; marking a
   * state node started makes it a started leaf, and completing it with no
   * value empties its slot.
   */
  lemma StageNodeSpec<V>(view: AppView<V>, index: nat, value: ViewTree<V>)
    ensures var r := Update(view, ResourcesNode(index, value)).resources;
            r.Some? && Written(EnsureIndex(EnsureTree(view.resources), index), r.value, index, Flat(value, index))
    ensures var r := Update(view, ResourceChangesNode(index, value)).resourceChanges;
            r.Some? && Written(EnsureIndex(EnsureTree(view.resourceChanges), index), r.value, index, Flat(value, index))
    ensures var r := Update(view, OperationsNode(index, value)).operationsTree;
            r.Some? && Written(EnsureIndex(EnsureTree(view.operationsTree), index), r.value, index, Flat(value, index))
    ensures var r := Update(view, ResourceStatesCompleteNode(index, Some(value))).resourceStates;
            r.Some? && Written(EnsureIndex(EnsureTree(view.resourceStates), index), r.value, index, Flat(value, index))
    ensures var r := Update(view, ResourceStatesStartNode(index)).resourceStates;
            r.Some? && Written(EnsureTree(view.resourceStates), r.value, index, [FlatLeaf(Started)])
    ensures var r := Update(view, ResourceStatesCompleteNode(index, None)).resourceStates;
            r.Some? && index < |r.value| && r.value[index] == None
  {
  }

  /** Each stage's start resets its tree to an empty one and touches nothing else. */
  lemma StartResets<V>(view: AppView<V>)
    ensures Update(view, ResourcesStart) == view.(resources := Some([]))
    ensures Update(view, ResourceStatesStart) == view.(resourceStates := Some([]))
    ensures Update(view, ResourceChangesStart) == view.(resourceChanges := Some([]))
    ensures Update(view, OperationsStart) == view.(operationsTree := Some([]))
  {
  }

  /**
   * After a start, output pieces for one operation accumulate in order:
   * its stdout is their concatenation, while the rest of the grid keeps
   * its shape.
   */
  lemma {:induction false} StdoutAccumulates<V>(view: AppView<V>, epoch: nat, op: nat, texts: seq<String>)
    requires epoch < |view.operationsEpochs| && op < |view.operationsEpochs[epoch]|
    ensures var after := Replay(view, StdoutUpdates(epoch, op, texts)).operationsEpochs;
            && |after| == |view.operationsEpochs|
            && op < |after[epoch]|
            && after[epoch][op].stdout == view.operationsEpochs[epoch][op].stdout + Concat(texts)
    decreases |texts|
  {
    if |texts| > 0 {
      var updates := StdoutUpdates<V>(epoch, op, texts);
      var next := Update(view, updates[0]);
      StdoutStep(view, epoch, op, texts[0]);
      assert Replay(view, updates) == Replay(next, StdoutUpdates<V>(epoch, op, texts[1..])) by {
        assert updates[1..] == StdoutUpdates<V>(epoch, op, texts[1..]);
      }
      StdoutAccumulates(next, epoch, op, texts[1..]);
      assert view.operationsEpochs[epoch][op].stdout + Concat(texts)
          == (view.operationsEpochs[epoch][op].stdout + texts[0]) + Concat(texts[1..]);
    }
  }

  lemma StdoutStep<V>(view: AppView<V>, epoch: nat, op: nat, text: String)
    requires epoch < |view.operationsEpochs| && op < |view.operationsEpochs[epoch]|
    ensures var grid := view.operationsEpochs;
            var after := Update(view, OperationApplyStdout(epoch, op, text)).operationsEpochs;
            && |after| == |grid| && |after[epoch]| == |grid[epoch]|
            && after[epoch][op].stdout == grid[epoch][op].stdout + text
  {
  }

  function StdoutUpdates<V>(epoch: nat, op: nat, texts: seq<String>): (r: seq<AppUpdate<V>>)
    ensures |r| == |texts|
    ensures forall i | 0 <= i < |texts| :: r[i] == OperationApplyStdout(epoch, op, texts[i])
  {
    if |texts| == 0 then [] else [OperationApplyStdout(epoch, op, texts[0])] + StdoutUpdates(epoch, op, texts[1..])
  }

  function Concat(texts: seq<String>): String {
    if |texts| == 0 then [] else texts[0] + Concat(texts[1..])
  }
}
