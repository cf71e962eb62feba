/**
 * Scoping the sub-items of a plan node. When a node of the plan tree is
 * expanded into subtrees whose ids, before and after are plain strings,
 * every one of those strings is put under one scope id, fresh for that
 * node and shared by all its subtrees. References written inside one
 * expansion then reach only ids of the same expansion.
 *
 * The fresh scope id is a parameter (the program draws a random one).
 * Subtrees are `Causal.Tree`s: a tree whose nodes carry an optional id
 * and before/after lists, which is what the program's tree with
 * causality metadata holds.
 */
module PlanScope {
  import opened Wrappers
  import Strs
  import Causal

  type String = Strs.String

  /** The id of a node produced by expanding a plan node: an item id within a scope. */
  datatype PlanNodeId = SubItem(scopeId: String, itemId: String)

  /** What a mapped node becomes: the subtrees it expands into. */
  datatype MappedItem<T> = SubTrees(subtrees: seq<T>)

  function Scoped(scope: String, ids: seq<String>): (r: seq<PlanNodeId>)
    ensures |r| == |ids| && forall i | 0 <= i < |ids| :: r[i] == SubItem(scope, ids[i])
  {
    if |ids| == 0 then [] else [SubItem(scope, ids[0])] + Scoped(scope, ids[1..])
  }

  function ScopedId(scope: String, id: Option<String>): (r: Option<PlanNodeId>)
    ensures r.Some? <==> id.Some?
    ensures r.Some? ==> r.value == SubItem(scope, id.value)
  {
    match id
    case Some(x) => Some(SubItem(scope, x))
    case None => None
  }

  /** Every id, before and after in the tree, put under `scope`; shape and payloads unchanged. */
  function ScopeTree<P>(scope: String, tree: Causal.Tree<String, P>): Causal.Tree<PlanNodeId, P>
    decreases tree
  {
    match tree
    case Branch(id, before, after, children) =>
      Causal.Branch(ScopedId(scope, id), Scoped(scope, before), Scoped(scope, after), ScopeAll(scope, children))
    case Leaf(id, payload, before, after) =>
      Causal.Leaf(ScopedId(scope, id), payload, Scoped(scope, before), Scoped(scope, after))
  }

  function ScopeAll<P>(scope: String, trees: seq<Causal.Tree<String, P>>): (r: seq<Causal.Tree<PlanNodeId, P>>)
    ensures |r| == |trees|
    decreases trees
  {
    if |trees| == 0 then [] else [ScopeTree(scope, trees[0])] + ScopeAll(scope, trees[1..])
  }

  /**
   * Map a plan node: nothing for no node; otherwise expand it with `expand`
   * and scope every subtree under `scope`.
   */
  function MapPlanSubitems<N, P>(node: Option<N>, expand: N -> seq<Causal.Tree<String, P>>, scope: String)
    : (r: Option<MappedItem<Causal.Tree<PlanNodeId, P>>>)
    ensures r.Some? <==> node.Some?
    ensures r.Some? ==> |r.value.subtrees| == |expand(node.value)|
  {
    match node
    case None => None
    case Some(n) => Some(SubTrees(ScopeAll(scope, expand(n))))
  }

  // ---------------------------------------------------------------------
  // Properties
  // ---------------------------------------------------------------------

  lemma ScopedAppend(scope: String, a: seq<String>, b: seq<String>)
    ensures Scoped(scope, a + b) == Scoped(scope, a) + Scoped(scope, b)
  {
  }

  /** The scoped subtrees, in order, are the mapped subtrees each scoped on its own. */
  lemma MapPlanSubitemsOrder<N, P>(node: N, expand: N -> seq<Causal.Tree<String, P>>, scope: String)
    ensures var r := MapPlanSubitems(Some(node), expand, scope).value.subtrees;
            forall i | 0 <= i < |r| :: r[i] == ScopeTree(scope, expand(node)[i])
  {
    ScopeAllAt(scope, expand(node));
  }

  lemma {:induction false} ScopeAllAt<P>(scope: String, trees: seq<Causal.Tree<String, P>>)
    ensures forall i | 0 <= i < |trees| :: ScopeAll(scope, trees)[i] == ScopeTree(scope, trees[i])
    decreases |trees|
  {
    if |trees| > 0 {
      ScopeAllAt(scope, trees[1..]);
      assert forall i | 1 <= i < |trees| :: trees[i] == trees[1..][i - 1];
    }
  }

  /** The ids of a scoped tree are its ids, each under the scope, in the same order. */
  lemma {:induction false} ScopeIds<P>(scope: String, tree: Causal.Tree<String, P>)
    ensures Causal.Ids(ScopeTree(scope, tree)) == Scoped(scope, Causal.Ids(tree))
    decreases tree
  {
    match tree
    case Branch(id, _, _, children) =>
      ScopeIdsAll(scope, children);
      ScopedAppend(scope, if id.Some? then [id.value] else [], Causal.IdsAll(children));
    case Leaf(_, _, _, _) =>
  }

  lemma {:induction false} ScopeIdsAll<P>(scope: String, trees: seq<Causal.Tree<String, P>>)
    ensures Causal.IdsAll(ScopeAll(scope, trees)) == Scoped(scope, Causal.IdsAll(trees))
    decreases trees
  {
    if |trees| > 0 {
      ScopeIds(scope, trees[0]);
      ScopeIdsAll(scope, trees[1..]);
      ScopedAppend(scope, Causal.Ids(trees[0]), Causal.IdsAll(trees[1..]));
    }
  }

  /**
   * Scoping keeps the walk the causal scheduler sees: the leaves come in
   * the same order with the same payloads, and every before/after they
   * inherit is the original one under the scope.
   */
  lemma {:induction false} ScopeFlatten<P>(scope: String, tree: Causal.Tree<String, P>, ab: seq<String>, aa: seq<String>)
    ensures Causal.Flatten(ScopeTree(scope, tree), Scoped(scope, ab), Scoped(scope, aa))
         == ScopeCollected(scope, Causal.Flatten(tree, ab, aa))
    decreases tree
  {
    match tree
    case Branch(_, before, after, children) =>
      ScopedAppend(scope, ab, before);
      ScopedAppend(scope, aa, after);
      ScopeFlattenAll(scope, children, ab + before, aa + after);
    case Leaf(_, _, before, after) =>
      ScopedAppend(scope, ab, before);
      ScopedAppend(scope, aa, after);
  }

  lemma {:induction false} ScopeFlattenAll<P>(scope: String, trees: seq<Causal.Tree<String, P>>, ab: seq<String>, aa: seq<String>)
    ensures Causal.FlattenAll(ScopeAll(scope, trees), Scoped(scope, ab), Scoped(scope, aa))
         == ScopeCollected(scope, Causal.FlattenAll(trees, ab, aa))
    decreases trees
  {
    if |trees| > 0 {
      ScopeFlatten(scope, trees[0], ab, aa);
      ScopeFlattenAll(scope, trees[1..], ab, aa);
      ScopeCollectedAppend(scope, Causal.Flatten(trees[0], ab, aa), Causal.FlattenAll(trees[1..], ab, aa));
    }
  }

  /** Collected leaves with their references under `scope`. */
  function ScopeCollected<P>(scope: String, leaves: seq<Causal.Collected<String, P>>): (r: seq<Causal.Collected<PlanNodeId, P>>)
    ensures |r| == |leaves|
    ensures forall i | 0 <= i < |leaves| ::
              r[i] == Causal.Collected(leaves[i].payload, Scoped(scope, leaves[i].before), Scoped(scope, leaves[i].after))
  {
    if |leaves| == 0 then []
    else [Causal.Collected(leaves[0].payload, Scoped(scope, leaves[0].before), Scoped(scope, leaves[0].after))]
         + ScopeCollected(scope, leaves[1..])
  }

  lemma ScopeCollectedAppend<P>(scope: String, a: seq<Causal.Collected<String, P>>, b: seq<Causal.Collected<String, P>>)
    ensures ScopeCollected(scope, a + b) == ScopeCollected(scope, a) + ScopeCollected(scope, b)
  {
    var lhs, ra, rb := ScopeCollected(scope, a + b), ScopeCollected(scope, a), ScopeCollected(scope, b);
    forall i | 0 <= i < |lhs| ensures lhs[i] == (ra + rb)[i] {
      if i < |a| {
        assert (a + b)[i] == a[i];
      } else {
        assert (a + b)[i] == b[i - |a|];
      }
    }
  }

  /** Distinct ids stay distinct under one scope, and repeated ids stay repeated. */
  lemma ScopedUnique(scope: String, ids: seq<String>)
    ensures Causal.Unique(Scoped(scope, ids)) <==> Causal.Unique(ids)
  {
    var s := Scoped(scope, ids);
    if Causal.Unique(ids) {
      forall i, j | 0 <= i < j < |s| ensures s[i] != s[j] {
        assert ids[i] != ids[j];
      }
    }
  }

  /** Ids from expansions with different scope ids never meet, so no reference can cross between them. */
  lemma ScopesDisjoint<P>(s1: String, t1: Causal.Tree<String, P>, s2: String, t2: Causal.Tree<String, P>)
    requires s1 != s2
    ensures forall i, j | 0 <= i < |Causal.Ids(ScopeTree(s1, t1))| && 0 <= j < |Causal.Ids(ScopeTree(s2, t2))| ::
              Causal.Ids(ScopeTree(s1, t1))[i] != Causal.Ids(ScopeTree(s2, t2))[j]
  {
    ScopeIds(s1, t1);
    ScopeIds(s2, t2);
  }
}
