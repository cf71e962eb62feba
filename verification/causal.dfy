/**
 * The causal tree shared by the epoch builders of the operation and
 * resource crates: branches group nodes, leaves carry a payload, and any
 * node may carry an id and `before` / `after` references to other ids.
 *
 * `Collect` is the program's depth-first walk. It threads four pieces of
 * state: the ancestors' accumulated references, the ids of the enclosing
 * branches, the set of ids seen so far, and the map from id to leaf
 * positions. The reference definitions say what that walk produces:
 * `Flatten` (each leaf with the references of its ancestors prepended),
 * `Ids` (the ids in walk order), `FirstRepeat` (the first id met twice)
 * and `Spans` (a branch id resolves to the contiguous block of leaves
 * beneath it, a leaf id to its own position).
 *
 * `LeafEdges` turns the references into dependency edges and `LeafEpochs`
 * layers the leaves with Kahn's algorithm.
 */
module Causal {
  import opened Wrappers
  import Kahn

  datatype Tree<Id, P> =
    | Branch(id: Option<Id>, before: seq<Id>, after: seq<Id>, children: seq<Tree<Id, P>>)
    | Leaf(id: Option<Id>, payload: P, before: seq<Id>, after: seq<Id>)

  /** A leaf as collected: its payload and its effective references. */
  datatype Collected<Id, P> = Collected(payload: P, before: seq<Id>, after: seq<Id>)

  datatype EpochError<Id> =
    | DuplicateId(id: Id)
    | UnknownBeforeRef(id: Id)
    | UnknownAfterRef(id: Id)
    | CycleDetected(remaining: nat)

  /** The state the walk threads through the tree. */
  datatype Walk<Id, P> = Walk(seen: set<Id>, idToLeaves: map<Id, seq<nat>>, leaves: seq<Collected<Id, P>>)

  function IdSet<Id>(s: seq<Id>): set<Id> {
    set x | x in s
  }

  predicate Unique<Id(==)>(s: seq<Id>) {
    forall i, j | 0 <= i < j < |s| :: s[i] != s[j]
  }

  /** The positions lo, lo+1, ..., hi-1. */
  function Range(lo: nat, hi: nat): (r: seq<nat>)
    requires lo <= hi
    ensures |r| == hi - lo && forall k | 0 <= k < |r| :: r[k] == lo + k
  {
    if lo == hi then [] else Range(lo, hi - 1) + [hi - 1]
  }

  // ---------------------------------------------------------------------
  // The walk
  // ---------------------------------------------------------------------

  /**
   * Append `index` to the leaf list of every active branch id that the
   * map knows.
   */
  function AddToActive<Id>(m: map<Id, seq<nat>>, active: seq<Id>, index: nat): map<Id, seq<nat>>
  {
    if |active| == 0 then m
    else
      var b := active[0];
      AddToActive(if b in m then m[b := m[b] + [index]] else m, active[1..], index)
  }

  /**
   * The walk over one node. A branch passes its references down by
   * extending the ancestors' lists for its children only; its id is
   * registered (with an empty leaf list unless one is already there) and
   * made active for the children. A leaf is pushed with its effective
   * references, added to every active branch, and then its own id is
   * checked and registered.
   */
  function Collect<Id, P>(node: Tree<Id, P>, ab: seq<Id>, aa: seq<Id>, active: seq<Id>, st: Walk<Id, P>)
    : Result<Walk<Id, P>, EpochError<Id>>
    decreases node
  {
    match node
    case Branch(id, before, after, children) =>
      if id.Some? then
        var b := id.value;
        if b in st.seen then Err(DuplicateId(b))
        else
          var m := if b in st.idToLeaves then st.idToLeaves else st.idToLeaves[b := []];
          CollectAll(children, ab + before, aa + after, active + [b], Walk(st.seen + {b}, m, st.leaves))
      else
        CollectAll(children, ab + before, aa + after, active, st)
    case Leaf(id, payload, before, after) =>
      var index := |st.leaves|;
      var leaves := st.leaves + [Collected(payload, ab + before, aa + after)];
      var m := AddToActive(st.idToLeaves, active, index);
      if id.Some? then
        var l := id.value;
        if l in st.seen then Err(DuplicateId(l))
        else Ok(Walk(st.seen + {l}, m[l := [index]], leaves))
      else
        Ok(Walk(st.seen, m, leaves))
  }

  function CollectAll<Id, P>(children: seq<Tree<Id, P>>, ab: seq<Id>, aa: seq<Id>, active: seq<Id>, st: Walk<Id, P>)
    : Result<Walk<Id, P>, EpochError<Id>>
    decreases children
  {
    if |children| == 0 then Ok(st)
    else
      var st1 :- Collect(children[0], ab, aa, active, st);
      CollectAll(children[1..], ab, aa, active, st1)
  }

  /** The walk from the root, with empty state. */
  function CollectTree<Id(==), P>(tree: Tree<Id, P>): Result<Walk<Id, P>, EpochError<Id>> {
    Collect(tree, [], [], [], Walk({}, map[], []))
  }

  // ---------------------------------------------------------------------
  // Reference definitions
  // ---------------------------------------------------------------------

  /** The leaves in left-to-right order, each with its ancestors' references prepended to its own. */
  function Flatten<Id, P>(node: Tree<Id, P>, ab: seq<Id>, aa: seq<Id>): seq<Collected<Id, P>>
    decreases node
  {
    match node
    case Branch(_, before, after, children) => FlattenAll(children, ab + before, aa + after)
    case Leaf(_, payload, before, after) => [Collected(payload, ab + before, aa + after)]
  }

  function FlattenAll<Id, P>(children: seq<Tree<Id, P>>, ab: seq<Id>, aa: seq<Id>): seq<Collected<Id, P>>
    decreases children
  {
    if |children| == 0 then [] else Flatten(children[0], ab, aa) + FlattenAll(children[1..], ab, aa)
  }

  /** The number of leaves. */
  function Count<Id, P>(node: Tree<Id, P>): nat
    decreases node
  {
    match node
    case Branch(_, _, _, children) => CountAll(children)
    case Leaf(_, _, _, _) => 1
  }

  function CountAll<Id, P>(children: seq<Tree<Id, P>>): nat
    decreases children
  {
    if |children| == 0 then 0 else Count(children[0]) + CountAll(children[1..])
  }

  /** The ids of the nodes in walk order, a branch's before its children's. */
  function Ids<Id, P>(node: Tree<Id, P>): seq<Id>
    decreases node
  {
    match node
    case Branch(id, _, _, children) => (if id.Some? then [id.value] else []) + IdsAll(children)
    case Leaf(id, _, _, _) => if id.Some? then [id.value] else []
  }

  function IdsAll<Id, P>(children: seq<Tree<Id, P>>): seq<Id>
    decreases children
  {
    if |children| == 0 then [] else Ids(children[0]) + IdsAll(children[1..])
  }

  /** The first id of `ids` that is in `seen` or occurs earlier in `ids`. */
  function FirstRepeat<Id>(seen: set<Id>, ids: seq<Id>): Option<Id>
    decreases |ids|
  {
    if |ids| == 0 then None
    else if ids[0] in seen then Some(ids[0])
    else FirstRepeat(seen + {ids[0]}, ids[1..])
  }

  /**
   * What each id stands for when the node's first leaf is at `offset`: a
   * leaf id its own position, a branch id the positions of all leaves
   * beneath it.
   */
  function Spans<Id, P>(node: Tree<Id, P>, offset: nat): map<Id, seq<nat>>
    decreases node
  {
    match node
    case Branch(id, _, _, children) =>
      var inner := SpansAll(children, offset);
      if id.Some? then inner[id.value := Range(offset, offset + CountAll(children))] else inner
    case Leaf(id, _, _, _) =>
      if id.Some? then map[id.value := [offset]] else map[]
  }

  function SpansAll<Id, P>(children: seq<Tree<Id, P>>, offset: nat): map<Id, seq<nat>>
    decreases children
  {
    if |children| == 0 then map[]
    else Spans(children[0], offset) + SpansAll(children[1..], offset + Count(children[0]))
  }

  // ---------------------------------------------------------------------
  // Facts about the reference definitions
  // ---------------------------------------------------------------------

  lemma {:induction false} FirstRepeatAppend<Id>(seen: set<Id>, a: seq<Id>, b: seq<Id>)
    ensures FirstRepeat(seen, a + b)
         == if FirstRepeat(seen, a).Some? then FirstRepeat(seen, a) else FirstRepeat(seen + IdSet(a), b)
    decreases |a|
  {
    if |a| == 0 {
      assert a + b == b;
      assert seen + IdSet(a) == seen;
    } else {
      assert (a + b)[0] == a[0];
      assert (a + b)[1..] == a[1..] + b;
      if a[0] !in seen {
        FirstRepeatAppend(seen + {a[0]}, a[1..], b);
        assert seen + {a[0]} + IdSet(a[1..]) == seen + IdSet(a);
      }
    }
  }

  /** With no repeat, no id of `ids` was seen before and none occurs twice. */
  lemma {:induction false} FirstRepeatNone<Id>(seen: set<Id>, ids: seq<Id>)
    requires FirstRepeat(seen, ids).None?
    ensures IdSet(ids) !! seen && Unique(ids)
    decreases |ids|
  {
    if |ids| > 0 {
      FirstRepeatNone(seen + {ids[0]}, ids[1..]);
      assert ids == [ids[0]] + ids[1..];
    }
  }

  /** A repeat is an id that was seen before or occurs earlier. */
  lemma {:induction false} FirstRepeatSome<Id>(seen: set<Id>, ids: seq<Id>)
    requires FirstRepeat(seen, ids).Some?
    ensures exists k | 0 <= k < |ids| :: ids[k] == FirstRepeat(seen, ids).value
                                         && (ids[k] in seen || ids[k] in ids[..k])
    decreases |ids|
  {
    if ids[0] in seen {
      assert ids[0] == FirstRepeat(seen, ids).value;
    } else {
      FirstRepeatSome(seen + {ids[0]}, ids[1..]);
      var k :| 0 <= k < |ids[1..]| && ids[1..][k] == FirstRepeat(seen, ids).value
               && (ids[1..][k] in seen + {ids[0]} || ids[1..][k] in ids[1..][..k]);
      assert ids[k + 1] == ids[1..][k];
      assert ids[1..][..k] == ids[1..k + 1];
      assert ids[..k + 1] == [ids[0]] + ids[1..k + 1];
    }
  }

  lemma RangeAppend(a: nat, b: nat, c: nat)
    requires a <= b <= c
    ensures Range(a, b) + Range(b, c) == Range(a, c)
  {
  }

  /**
   * `m'` is `m` with `add` appended to the list of every active id and
   * every other list unchanged (`m'` may know more ids).
   */
  ghost predicate Grown<Id>(m: map<Id, seq<nat>>, m': map<Id, seq<nat>>, active: seq<Id>, add: seq<nat>) {
    && m.Keys <= m'.Keys
    && (forall k {:trigger m'[k]} | k in m && k in active :: m'[k] == m[k] + add)
    && (forall k {:trigger m'[k]} | k in m && k !in active :: m'[k] == m[k])
  }

  lemma {:induction false} GrownCompose<Id>(m0: map<Id, seq<nat>>, m1: map<Id, seq<nat>>, m2: map<Id, seq<nat>>, active: seq<Id>,
                         a0: seq<nat>, a1: seq<nat>)
    requires Grown(m0, m1, active, a0) && Grown(m1, m2, active, a1)
    ensures Grown(m0, m2, active, a0 + a1)
  {
    forall k | k in m0 && k in active ensures m2[k] == m0[k] + (a0 + a1) {
      assert m2[k] == m0[k] + a0 + a1;
    }
  }

  /** Each active id that the map knows gains `index` once; nothing else changes. */
  lemma {:induction false} AddToActiveSpec<Id>(m: map<Id, seq<nat>>, active: seq<Id>, index: nat)
    requires Unique(active) && forall b | b in active :: b in m
    ensures AddToActive(m, active, index).Keys == m.Keys
    ensures Grown(m, AddToActive(m, active, index), active, [index])
    decreases |active|
  {
    if |active| > 0 {
      var b := active[0];
      var m1 := m[b := m[b] + [index]];
      assert forall x | x in active[1..] :: x in active;
      AddToActiveSpec(m1, active[1..], index);
      assert b !in active[1..] by {
        forall j | 0 <= j < |active[1..]| ensures active[1..][j] != b {
          assert active[1..][j] == active[j + 1];
        }
      }
      assert forall k :: k in active <==> k == b || k in active[1..] by {
        assert active == [b] + active[1..];
      }
    }
  }

  lemma {:induction false} CountFlatten<Id, P>(node: Tree<Id, P>, ab: seq<Id>, aa: seq<Id>)
    ensures |Flatten(node, ab, aa)| == Count(node)
    decreases node
  {
    match node
    case Branch(_, before, after, children) => CountFlattenAll(children, ab + before, aa + after);
    case Leaf(_, _, _, _) =>
  }

  lemma {:induction false} CountFlattenAll<Id, P>(children: seq<Tree<Id, P>>, ab: seq<Id>, aa: seq<Id>)
    ensures |FlattenAll(children, ab, aa)| == CountAll(children)
    decreases children
  {
    if |children| > 0 {
      CountFlatten(children[0], ab, aa);
      CountFlattenAll(children[1..], ab, aa);
    }
  }

  /** Exactly the ids of a node are resolved by its spans. */
  lemma {:induction false} SpansKeys<Id, P>(node: Tree<Id, P>, offset: nat)
    ensures Spans(node, offset).Keys == IdSet(Ids(node))
    decreases node
  {
    match node
    case Branch(id, _, _, children) => SpansAllKeys(children, offset);
    case Leaf(_, _, _, _) =>
  }

  lemma {:induction false} SpansAllKeys<Id, P>(children: seq<Tree<Id, P>>, offset: nat)
    ensures SpansAll(children, offset).Keys == IdSet(IdsAll(children))
    decreases children
  {
    if |children| > 0 {
      SpansKeys(children[0], offset);
      SpansAllKeys(children[1..], offset + Count(children[0]));
    }
  }

  // ---------------------------------------------------------------------
  // What the walk computes
  // ---------------------------------------------------------------------

  /** The state the walk may start a node in: active ids are distinct and registered, registered ids are seen. */
  ghost predicate Ready<Id, P>(st: Walk<Id, P>, active: seq<Id>) {
    && Unique(active)
    && (forall b | b in active :: b in st.idToLeaves)
    && st.idToLeaves.Keys <= st.seen
  }

  /**
   * `st'` is `st` after walking a piece of tree with ids `ids`, leaves
   * `flat` and spans `spans`: the leaves are appended, the ids become
   * seen and registered with their spans, and each active id gains the
   * positions of the new leaves.
   */
  ghost predicate Advanced<Id, P>(st: Walk<Id, P>, active: seq<Id>, ids: seq<Id>, flat: seq<Collected<Id, P>>,
                                  spans: map<Id, seq<nat>>, st': Walk<Id, P>)
  {
    var o := |st.leaves|;
    && st'.leaves == st.leaves + flat
    && st'.seen == st.seen + IdSet(ids)
    && st'.idToLeaves.Keys == st.idToLeaves.Keys + IdSet(ids)
    && Grown(st.idToLeaves, st'.idToLeaves, active, Range(o, o + |flat|))
    && (forall k {:trigger st'.idToLeaves[k]} | k in ids :: k in st'.idToLeaves && k in spans && st'.idToLeaves[k] == spans[k])
  }

  lemma AdvancedCompose<Id, P>(st: Walk<Id, P>, active: seq<Id>,
                               ids0: seq<Id>, f0: seq<Collected<Id, P>>, sp0: map<Id, seq<nat>>, st1: Walk<Id, P>,
                               ids1: seq<Id>, f1: seq<Collected<Id, P>>, sp1: map<Id, seq<nat>>, st2: Walk<Id, P>)
    requires Ready(st, active)
    requires Advanced(st, active, ids0, f0, sp0, st1) && Advanced(st1, active, ids1, f1, sp1, st2)
    requires IdSet(ids0) !! st.seen && IdSet(ids1) !! st1.seen
    requires sp0.Keys == IdSet(ids0) && sp1.Keys == IdSet(ids1)
    ensures Advanced(st, active, ids0 + ids1, f0 + f1, sp0 + sp1, st2)
  {
    AdvancedComposeSets(st, active, ids0, f0, sp0, st1, ids1, f1, sp1, st2);
    AdvancedComposeMaps(st, active, ids0, f0, sp0, st1, ids1, f1, sp1, st2);
  }

  /** The leaves, the seen ids and the registered ids of two advances add up. */
  lemma AdvancedComposeSets<Id, P>(st: Walk<Id, P>, active: seq<Id>,
                               ids0: seq<Id>, f0: seq<Collected<Id, P>>, sp0: map<Id, seq<nat>>, st1: Walk<Id, P>,
                               ids1: seq<Id>, f1: seq<Collected<Id, P>>, sp1: map<Id, seq<nat>>, st2: Walk<Id, P>)
    requires Advanced(st, active, ids0, f0, sp0, st1) && Advanced(st1, active, ids1, f1, sp1, st2)
    ensures st2.leaves == st.leaves + (f0 + f1)
    ensures st2.seen == st.seen + IdSet(ids0 + ids1)
    ensures st2.idToLeaves.Keys == st.idToLeaves.Keys + IdSet(ids0 + ids1)
  {
    IdSetAppend(ids0, ids1);
  }

  /** What the active ids gain, and the spans of the new ids, add up over two advances. */
  lemma {:induction false} AdvancedComposeMaps<Id, P>(st: Walk<Id, P>, active: seq<Id>,
                               ids0: seq<Id>, f0: seq<Collected<Id, P>>, sp0: map<Id, seq<nat>>, st1: Walk<Id, P>,
                               ids1: seq<Id>, f1: seq<Collected<Id, P>>, sp1: map<Id, seq<nat>>, st2: Walk<Id, P>)
    requires Ready(st, active)
    requires Advanced(st, active, ids0, f0, sp0, st1) && Advanced(st1, active, ids1, f1, sp1, st2)
    requires IdSet(ids0) !! st.seen && IdSet(ids1) !! st1.seen
    requires sp0.Keys == IdSet(ids0) && sp1.Keys == IdSet(ids1)
    ensures Grown(st.idToLeaves, st2.idToLeaves, active, Range(|st.leaves|, |st.leaves| + |f0 + f1|))
    ensures forall k | k in ids0 + ids1 :: k in sp0 + sp1 && st2.idToLeaves[k] == (sp0 + sp1)[k]
  {
    var o := |st.leaves|;
    var o1 := |st1.leaves|;
    assert o1 == o + |f0|;
    RangeAppend(o, o1, o1 + |f1|);
    GrownCompose(st.idToLeaves, st1.idToLeaves, st2.idToLeaves, active, Range(o, o1), Range(o1, o1 + |f1|));
    assert forall b | b in active :: b in st.seen;
    IdSetAppend(ids0, ids1);
    assert IdSet(ids1) !! st.seen + IdSet(ids0);
    ComposeNew(st1.idToLeaves, st2.idToLeaves, st.seen, active, ids0, sp0, ids1, sp1);
  }

  lemma IdSetAppend<Id>(a: seq<Id>, b: seq<Id>)
    ensures IdSet(a + b) == IdSet(a) + IdSet(b)
  {
  }

  lemma {:induction false} ComposeNew<Id>(m1: map<Id, seq<nat>>, m2: map<Id, seq<nat>>, seen: set<Id>, active: seq<Id>,
                       ids0: seq<Id>, sp0: map<Id, seq<nat>>, ids1: seq<Id>, sp1: map<Id, seq<nat>>)
    requires forall b | b in active :: b in seen
    requires IdSet(ids0) !! seen && IdSet(ids1) !! seen + IdSet(ids0)
    requires sp0.Keys == IdSet(ids0) && sp1.Keys == IdSet(ids1)
    requires forall k | k in ids0 :: k in m1 && m1[k] == sp0[k]
    requires m1.Keys <= m2.Keys
    requires forall k | k in m1 && k !in active :: m2[k] == m1[k]
    requires forall k | k in ids1 :: k in m2 && m2[k] == sp1[k]
    ensures forall k | k in ids0 + ids1 :: k in sp0 + sp1 && m2[k] == (sp0 + sp1)[k]
  {
    forall k | k in ids0 + ids1 ensures k in sp0 + sp1 && m2[k] == (sp0 + sp1)[k] {
      if k !in ids1 {
        assert k in ids0;
        assert k !in seen;
        assert k !in IdSet(ids1);
      }
    }
  }

  /** Registering a branch id before its children makes it resolve to all of their leaves. */
  lemma {:induction false} AdvancedBranch<Id, P>(st: Walk<Id, P>, active: seq<Id>, b: Id, st1: Walk<Id, P>,
                              ids: seq<Id>, flat: seq<Collected<Id, P>>, spans: map<Id, seq<nat>>, st': Walk<Id, P>,
                              allIds: seq<Id>, allSpans: map<Id, seq<nat>>)
    requires b !in st.idToLeaves && b !in active && b !in st.seen && b !in IdSet(ids)
    requires st1 == Walk(st.seen + {b}, st.idToLeaves[b := []], st.leaves)
    requires Advanced(st1, active + [b], ids, flat, spans, st')
    requires allIds == [b] + ids && allSpans == spans[b := Range(|st.leaves|, |st.leaves| + |flat|)]
    ensures Advanced(st, active, allIds, flat, allSpans, st')
  {
    var o := |st.leaves|;
    var add := Range(o, o + |flat|);
    assert |st1.leaves| == o;
    IdSetCons(b, ids);
    assert st'.seen == st.seen + IdSet(allIds);
    assert st'.idToLeaves.Keys == st.idToLeaves.Keys + IdSet(allIds) by {
      assert st1.idToLeaves.Keys == st.idToLeaves.Keys + {b};
    }
    assert Grown(st.idToLeaves, st'.idToLeaves, active, add) && st'.idToLeaves[b] == add by {
      GrownBranch(st.idToLeaves, st'.idToLeaves, active, b, add);
    }
    BranchSpans(st'.idToLeaves, b, add, ids, spans);
  }

  lemma IdSetCons<Id>(b: Id, ids: seq<Id>)
    ensures IdSet([b] + ids) == {b} + IdSet(ids)
  {
  }

  /** The branch id's span is everything added; the children's ids keep theirs. */
  lemma BranchSpans<Id>(m: map<Id, seq<nat>>, b: Id, add: seq<nat>, ids: seq<Id>, spans: map<Id, seq<nat>>)
    requires b in m && m[b] == add && b !in IdSet(ids)
    requires forall k | k in ids :: k in m && k in spans && m[k] == spans[k]
    ensures forall k | k in [b] + ids :: k in m && k in spans[b := add] && m[k] == spans[b := add][k]
  {
    forall k | k in [b] + ids ensures k in m && k in spans[b := add] && m[k] == spans[b := add][k] {
      if k != b {
        assert k in ids;
      }
    }
  }

  /** An id registered with an empty list and made active ends up holding exactly what the active ids gained. */
  lemma {:induction false} GrownBranch<Id>(m: map<Id, seq<nat>>, m': map<Id, seq<nat>>, active: seq<Id>, b: Id, add: seq<nat>)
    requires b !in m && b !in active
    requires Grown(m[b := []], m', active + [b], add)
    ensures Grown(m, m', active, add) && b in m' && m'[b] == add
  {
    assert forall k :: k in active + [b] <==> k in active || k == b;
    assert m[b := []][b] == [];
  }

  /**
   * The walk over a node started in a `Ready` state fails exactly when
   * some id of the node repeats (an earlier one or one seen before), with
   * `DuplicateId` of the first such id; otherwise it advances the state
   * by the node's leaves, ids and spans.
   */
  lemma {:induction false} CollectCorrect<Id, P>(node: Tree<Id, P>, ab: seq<Id>, aa: seq<Id>, active: seq<Id>, st: Walk<Id, P>)
    requires Ready(st, active)
    ensures Collect(node, ab, aa, active, st).Ok? <==> FirstRepeat(st.seen, Ids(node)).None?
    ensures Collect(node, ab, aa, active, st).Err? ==>
              Collect(node, ab, aa, active, st).error == DuplicateId(FirstRepeat(st.seen, Ids(node)).value)
    ensures Collect(node, ab, aa, active, st).Ok? ==>
              Advanced(st, active, Ids(node), Flatten(node, ab, aa), Spans(node, |st.leaves|), Collect(node, ab, aa, active, st).value)
    decreases node, 2
  {
    match node
    case Branch(id, before, after, children) =>
      if id.Some? {
        CollectNamedBranchCorrect(id.value, before, after, children, ab, aa, active, st);
      } else {
        CountFlattenAll(children, ab + before, aa + after);
        assert Ids(node) == IdsAll(children);
        CollectAllCorrect(children, ab + before, aa + after, active, st);
      }
    case Leaf(_, _, _, _) =>
      CollectLeafCorrect(node, ab, aa, active, st);
  }

  lemma {:induction false} CollectNamedBranchCorrect<Id, P>(b: Id, before: seq<Id>, after: seq<Id>, children: seq<Tree<Id, P>>,
                                                             ab: seq<Id>, aa: seq<Id>, active: seq<Id>, st: Walk<Id, P>)
    requires Ready(st, active)
    ensures var node := Branch(Some(b), before, after, children);
            && (Collect(node, ab, aa, active, st).Ok? <==> FirstRepeat(st.seen, Ids(node)).None?)
            && (Collect(node, ab, aa, active, st).Err? ==>
                  Collect(node, ab, aa, active, st).error == DuplicateId(FirstRepeat(st.seen, Ids(node)).value))
            && (Collect(node, ab, aa, active, st).Ok? ==>
                  Advanced(st, active, Ids(node), Flatten(node, ab, aa), Spans(node, |st.leaves|), Collect(node, ab, aa, active, st).value))
    decreases children, 1
  {
    var node := Branch(Some(b), before, after, children);
    var o := |st.leaves|;
    var ab' := ab + before;
    var aa' := aa + after;
    assert Ids(node) == [b] + IdsAll(children);
    assert Ids(node)[0] == b && Ids(node)[1..] == IdsAll(children);
    if b !in st.seen {
      CountFlattenAll(children, ab', aa');
      var st1 := Walk(st.seen + {b}, st.idToLeaves[b := []], st.leaves);
      assert Ready(st1, active + [b]);
      CollectAllCorrect(children, ab', aa', active + [b], st1);
      var r := CollectAll(children, ab', aa', active + [b], st1);
      if r.Ok? {
        FirstRepeatNone(st1.seen, IdsAll(children));
        AdvancedBranch(st, active, b, st1, IdsAll(children), FlattenAll(children, ab', aa'), SpansAll(children, o), r.value,
                       Ids(node), Spans(node, o));
      }
    }
  }

  lemma {:induction false} CollectLeafCorrect<Id, P>(node: Tree<Id, P>, ab: seq<Id>, aa: seq<Id>, active: seq<Id>, st: Walk<Id, P>)
    requires Ready(st, active) && node.Leaf?
    ensures Collect(node, ab, aa, active, st).Ok? <==> FirstRepeat(st.seen, Ids(node)).None?
    ensures Collect(node, ab, aa, active, st).Err? ==>
              Collect(node, ab, aa, active, st).error == DuplicateId(FirstRepeat(st.seen, Ids(node)).value)
    ensures Collect(node, ab, aa, active, st).Ok? ==>
              Advanced(st, active, Ids(node), Flatten(node, ab, aa), Spans(node, |st.leaves|), Collect(node, ab, aa, active, st).value)
  {
    var o := |st.leaves|;
    AddToActiveSpec(st.idToLeaves, active, o);
    assert Range(o, o + 1) == [o];
    if node.id.Some? {
      var l := node.id.value;
      assert Ids(node) == [l];
      if l !in st.seen {
        assert FirstRepeat(st.seen, Ids(node)) == FirstRepeat(st.seen + {l}, []);
        assert IdSet([l]) == {l};
      }
    }
  }

  lemma {:induction false} CollectAllCorrect<Id, P>(children: seq<Tree<Id, P>>, ab: seq<Id>, aa: seq<Id>, active: seq<Id>, st: Walk<Id, P>)
    requires Ready(st, active)
    ensures CollectAll(children, ab, aa, active, st).Ok? <==> FirstRepeat(st.seen, IdsAll(children)).None?
    ensures CollectAll(children, ab, aa, active, st).Err? ==>
              CollectAll(children, ab, aa, active, st).error == DuplicateId(FirstRepeat(st.seen, IdsAll(children)).value)
    ensures CollectAll(children, ab, aa, active, st).Ok? ==>
              Advanced(st, active, IdsAll(children), FlattenAll(children, ab, aa), SpansAll(children, |st.leaves|),
                       CollectAll(children, ab, aa, active, st).value)
    decreases children, 0
  {
    var o := |st.leaves|;
    if |children| == 0 {
      assert Range(o, o) == [];
      assert st.leaves + [] == st.leaves;
    } else {
      var c := children[0];
      var rest := children[1..];
      CollectCorrect(c, ab, aa, active, st);
      FirstRepeatAppend(st.seen, Ids(c), IdsAll(rest));
      var r0 := Collect(c, ab, aa, active, st);
      if r0.Ok? {
        var st1 := r0.value;
        FirstRepeatNone(st.seen, Ids(c));
        assert Ready(st1, active);
        CollectAllCorrect(rest, ab, aa, active, st1);
        var r := CollectAll(rest, ab, aa, active, st1);
        if r.Ok? {
          FirstRepeatNone(st1.seen, IdsAll(rest));
          CollectAllStep(children, ab, aa, active, st, st1, r.value);
        }
      }
    }
  }

  /** Walking the first child and then the rest advances the state by all the children. */
  lemma {:induction false} CollectAllStep<Id, P>(children: seq<Tree<Id, P>>, ab: seq<Id>, aa: seq<Id>, active: seq<Id>,
                                                 st: Walk<Id, P>, st1: Walk<Id, P>, st2: Walk<Id, P>)
    requires |children| > 0 && Ready(st, active)
    requires IdSet(Ids(children[0])) !! st.seen && IdSet(IdsAll(children[1..])) !! st1.seen
    requires Advanced(st, active, Ids(children[0]), Flatten(children[0], ab, aa), Spans(children[0], |st.leaves|), st1)
    requires Advanced(st1, active, IdsAll(children[1..]), FlattenAll(children[1..], ab, aa), SpansAll(children[1..], |st1.leaves|), st2)
    ensures Advanced(st, active, IdsAll(children), FlattenAll(children, ab, aa), SpansAll(children, |st.leaves|), st2)
  {
    var c := children[0];
    var rest := children[1..];
    var o := |st.leaves|;
    CountFlatten(c, ab, aa);
    var o1 := |st1.leaves|;
    assert o1 == o + Count(c);
    SpansKeys(c, o);
    SpansAllKeys(rest, o1);
    AdvancedCompose(st, active, Ids(c), Flatten(c, ab, aa), Spans(c, o), st1,
                    IdsAll(rest), FlattenAll(rest, ab, aa), SpansAll(rest, o1), st2);
    assert IdsAll(children) == Ids(c) + IdsAll(rest);
    assert FlattenAll(children, ab, aa) == Flatten(c, ab, aa) + FlattenAll(rest, ab, aa);
    assert SpansAll(children, o) == Spans(c, o) + SpansAll(rest, o1);
  }

  /** The walk from the root fails with the first repeated id, or yields the flattened leaves and their spans. */
  lemma CollectTreeCorrect<Id, P>(tree: Tree<Id, P>)
    ensures CollectTree(tree).Ok? <==> FirstRepeat({}, Ids(tree)).None?
    ensures CollectTree(tree).Err? ==> CollectTree(tree).error == DuplicateId(FirstRepeat({}, Ids(tree)).value)
    ensures CollectTree(tree).Ok? ==>
              && CollectTree(tree).value.leaves == Flatten(tree, [], [])
              && CollectTree(tree).value.idToLeaves == Spans(tree, 0)
  {
    var st0: Walk<Id, P> := Walk({}, map[], []);
    CollectCorrect(tree, [], [], [], st0);
    if CollectTree(tree).Ok? {
      var st := CollectTree(tree).value;
      SpansKeys(tree, 0);
      assert st.idToLeaves.Keys == Spans(tree, 0).Keys;
      forall k | k in st.idToLeaves ensures st.idToLeaves[k] == Spans(tree, 0)[k] {
        assert k in Ids(tree);
      }
    }
  }

  /** Every position a span names is a leaf of the node. */
  lemma {:induction false} SpansBound<Id, P>(node: Tree<Id, P>, offset: nat)
    ensures forall k, t | k in Spans(node, offset) && t in Spans(node, offset)[k] :: offset <= t < offset + Count(node)
    decreases node
  {
    match node
    case Branch(id, _, _, children) => SpansAllBound(children, offset);
    case Leaf(_, _, _, _) =>
  }

  lemma {:induction false} SpansAllBound<Id, P>(children: seq<Tree<Id, P>>, offset: nat)
    ensures forall k, t | k in SpansAll(children, offset) && t in SpansAll(children, offset)[k] ::
              offset <= t < offset + CountAll(children)
    decreases children
  {
    if |children| > 0 {
      SpansBound(children[0], offset);
      SpansAllBound(children[1..], offset + Count(children[0]));
    }
  }

  // ---------------------------------------------------------------------
  // Edges
  // ---------------------------------------------------------------------

  /** The first reference the map does not know. */
  function FirstUnknown<Id>(refs: seq<Id>, m: map<Id, seq<nat>>): Option<Id> {
    if |refs| == 0 then None
    else if refs[0] !in m then Some(refs[0])
    else FirstUnknown(refs[1..], m)
  }

  /** Some reference of `refs` resolves to a list holding position `t`. */
  ghost predicate Reaches<Id>(refs: seq<Id>, m: map<Id, seq<nat>>, t: nat) {
    exists x | x in refs :: x in m && t in m[x]
  }

  /**
   * Leaf `u` must run before leaf `v` (both at or after position `i`):
   * `v`'s `before` names an id resolving to `u`, or `u`'s `after` names an
   * id resolving to `v`.
   */
  ghost predicate Constraint<Id, P>(leaves: seq<Collected<Id, P>>, m: map<Id, seq<nat>>, i: nat, u: nat, v: nat) {
    || (i <= v < |leaves| && Reaches(leaves[v].before, m, u))
    || (i <= u < |leaves| && Reaches(leaves[u].after, m, v))
  }

  /** The edges of one reference list of leaf `i`: from each target to `i` for `before`, from `i` to each target for `after`. */
  function Pairs(targets: seq<nat>, i: nat, isBefore: bool): seq<Kahn.Edge> {
    if |targets| == 0 then []
    else [if isBefore then (targets[0], i) else (i, targets[0])] + Pairs(targets[1..], i, isBefore)
  }

  function RefEdges<Id>(refs: seq<Id>, m: map<Id, seq<nat>>, i: nat, isBefore: bool): Result<seq<Kahn.Edge>, EpochError<Id>> {
    if |refs| == 0 then Ok([])
    else if refs[0] !in m then Err(if isBefore then UnknownBeforeRef(refs[0]) else UnknownAfterRef(refs[0]))
    else
      var rest :- RefEdges(refs[1..], m, i, isBefore);
      Ok(Pairs(m[refs[0]], i, isBefore) + rest)
  }

  /** The program's edge loop over the leaves from position `i` on: per leaf, its `before` list, then its `after` list. */
  function LeafEdges<Id, P>(leaves: seq<Collected<Id, P>>, m: map<Id, seq<nat>>, i: nat): Result<seq<Kahn.Edge>, EpochError<Id>>
    decreases |leaves| - i
  {
    if i >= |leaves| then Ok([])
    else
      var b :- RefEdges(leaves[i].before, m, i, true);
      var a :- RefEdges(leaves[i].after, m, i, false);
      var rest :- LeafEdges(leaves, m, i + 1);
      Ok(b + a + rest)
  }

  /** Both reference lists of a leaf resolve. */
  predicate Resolved<Id, P>(c: Collected<Id, P>, m: map<Id, seq<nat>>) {
    FirstUnknown(c.before, m).None? && FirstUnknown(c.after, m).None?
  }

  /** The error of the first unresolved reference of a leaf, `before` checked first. */
  function RefError<Id, P>(c: Collected<Id, P>, m: map<Id, seq<nat>>): EpochError<Id>
    requires !Resolved(c, m)
  {
    if FirstUnknown(c.before, m).Some? then UnknownBeforeRef(FirstUnknown(c.before, m).value)
    else UnknownAfterRef(FirstUnknown(c.after, m).value)
  }

  lemma {:induction false} PairsMember(targets: seq<nat>, i: nat, isBefore: bool, u: nat, v: nat)
    ensures (u, v) in Pairs(targets, i, isBefore) <==> if isBefore then v == i && u in targets else u == i && v in targets
  {
    if |targets| > 0 {
      PairsMember(targets[1..], i, isBefore, u, v);
      assert targets == [targets[0]] + targets[1..];
    }
  }

  lemma {:induction false} RefEdgesSpec<Id>(refs: seq<Id>, m: map<Id, seq<nat>>, i: nat, isBefore: bool)
    ensures RefEdges(refs, m, i, isBefore).Ok? <==> FirstUnknown(refs, m).None?
    ensures RefEdges(refs, m, i, isBefore).Err? ==>
              RefEdges(refs, m, i, isBefore).error
              == if isBefore then UnknownBeforeRef(FirstUnknown(refs, m).value) else UnknownAfterRef(FirstUnknown(refs, m).value)
    ensures RefEdges(refs, m, i, isBefore).Ok? ==> forall u: nat, v: nat ::
              (u, v) in RefEdges(refs, m, i, isBefore).value
              <==> if isBefore then v == i && Reaches(refs, m, u) else u == i && Reaches(refs, m, v)
  {
    if |refs| > 0 && refs[0] in m {
      RefEdgesSpec(refs[1..], m, i, isBefore);
      var r := RefEdges(refs, m, i, isBefore);
      if r.Ok? {
        var x := refs[0];
        forall u: nat, v: nat ensures (u, v) in r.value <==> if isBefore then v == i && Reaches(refs, m, u) else u == i && Reaches(refs, m, v) {
          PairsMember(m[x], i, isBefore, u, v);
          assert refs == [x] + refs[1..];
          if isBefore && v == i {
            assert Reaches(refs, m, u) <==> u in m[x] || Reaches(refs[1..], m, u);
          } else if !isBefore && u == i {
            assert Reaches(refs, m, v) <==> v in m[x] || Reaches(refs[1..], m, v);
          }
        }
      }
    }
  }

  /** The edge loop succeeds exactly when every reference of every leaf from position `i` on resolves. */
  lemma {:induction false} LeafEdgesOk<Id, P>(leaves: seq<Collected<Id, P>>, m: map<Id, seq<nat>>, i: nat)
    ensures LeafEdges(leaves, m, i).Ok? <==> forall j | i <= j < |leaves| :: Resolved(leaves[j], m)
    decreases |leaves| - i
  {
    if i < |leaves| {
      RefEdgesSpec(leaves[i].before, m, i, true);
      RefEdgesSpec(leaves[i].after, m, i, false);
      LeafEdgesOk(leaves, m, i + 1);
    }
  }

  /** A failing edge loop reports the first unresolved reference of the first leaf that has one. */
  lemma {:induction false} LeafEdgesError<Id, P>(leaves: seq<Collected<Id, P>>, m: map<Id, seq<nat>>, i: nat)
    requires LeafEdges(leaves, m, i).Err?
    ensures exists j | i <= j < |leaves| :: && !Resolved(leaves[j], m)
                                            && (forall j' | i <= j' < j :: Resolved(leaves[j'], m))
                                            && LeafEdges(leaves, m, i).error == RefError(leaves[j], m)
    decreases |leaves| - i
  {
    var c := leaves[i];
    RefEdgesSpec(c.before, m, i, true);
    RefEdgesSpec(c.after, m, i, false);
    if !Resolved(c, m) {
    } else {
      LeafEdgesError(leaves, m, i + 1);
      var j :| i + 1 <= j < |leaves| && !Resolved(leaves[j], m)
               && (forall j' | i + 1 <= j' < j :: Resolved(leaves[j'], m))
               && LeafEdges(leaves, m, i + 1).error == RefError(leaves[j], m);
      assert forall j' | i <= j' < j :: Resolved(leaves[j'], m);
    }
  }

  /** A successful edge loop yields exactly the pairs the `Constraint` relation names. */
  lemma {:induction false} LeafEdgesPairs<Id, P>(leaves: seq<Collected<Id, P>>, m: map<Id, seq<nat>>, i: nat)
    requires LeafEdges(leaves, m, i).Ok?
    ensures forall u: nat, v: nat :: (u, v) in LeafEdges(leaves, m, i).value <==> Constraint(leaves, m, i, u, v)
    decreases |leaves| - i
  {
    if i < |leaves| {
      var c := leaves[i];
      RefEdgesSpec(c.before, m, i, true);
      RefEdgesSpec(c.after, m, i, false);
      LeafEdgesPairs(leaves, m, i + 1);
      var b := RefEdges(c.before, m, i, true).value;
      var a := RefEdges(c.after, m, i, false).value;
      var rest := LeafEdges(leaves, m, i + 1).value;
      assert LeafEdges(leaves, m, i).value == b + a + rest;
      forall u: nat, v: nat ensures (u, v) in LeafEdges(leaves, m, i).value <==> Constraint(leaves, m, i, u, v) {
        assert (u, v) in b + a + rest <==> (u, v) in b || (u, v) in a || (u, v) in rest;
      }
    }
  }

  // ---------------------------------------------------------------------
  // The whole builder
  // ---------------------------------------------------------------------

  /** The edge loop over the leaves of a tree, ids resolved by their spans. */
  function TreeEdges<Id(==), P>(tree: Tree<Id, P>): Result<seq<Kahn.Edge>, EpochError<Id>> {
    LeafEdges(Flatten(tree, [], []), Spans(tree, 0), 0)
  }

  /** Leaf `u` of the tree must run before leaf `v` (positions in `Flatten` order). */
  ghost predicate Precedes<Id, P>(tree: Tree<Id, P>, u: nat, v: nat) {
    Constraint(Flatten(tree, [], []), Spans(tree, 0), 0, u, v)
  }

  /**
   * The reference outcome, in the program's order of checks: the first
   * repeated id, else the first unresolved reference, else the layering
   * of the leaves, which fails when some leaves cannot be scheduled.
   */
  ghost function Expected<Id, P>(tree: Tree<Id, P>): Result<seq<set<nat>>, EpochError<Id>> {
    Outcome(Count(tree), Ids(tree), TreeEdges(tree))
  }

  /** The reference outcome for `n` leaves with these ids in walk order and this edge-loop result. */
  ghost function Outcome<Id>(n: nat, ids: seq<Id>, edges: Result<seq<Kahn.Edge>, EpochError<Id>>): Result<seq<set<nat>>, EpochError<Id>> {
    match FirstRepeat({}, ids)
    case Some(x) => Err(DuplicateId(x))
    case None =>
      match edges
      case Err(e) => Err(e)
      case Ok(edges) =>
        var sched := Kahn.Schedule(n, edges);
        Kahn.ScheduleBound(n, edges);
        if Kahn.Union(sched) == Kahn.Nodes(n) then Ok(sched)
        else Err(CycleDetected(n - |Kahn.Union(sched)|))
  }

  /** The edges join leaves of the tree, and `u` is a predecessor of `v` exactly when `u` must precede `v`. */
  lemma TreeEdgesGraph<Id, P>(tree: Tree<Id, P>)
    requires TreeEdges(tree).Ok?
    ensures Kahn.ValidEdges(Count(tree), TreeEdges(tree).value)
    ensures forall u: nat, v: nat :: u in Kahn.Preds(TreeEdges(tree).value, v) <==> Precedes(tree, u, v)
  {
    var leaves := Flatten(tree, [], []);
    var m := Spans(tree, 0);
    var edges := TreeEdges(tree).value;
    var n := Count(tree);
    CountFlatten(tree, [], []);
    SpansBound(tree, 0);
    LeafEdgesPairs(leaves, m, 0);
    forall k | 0 <= k < |edges| ensures edges[k].0 < n && edges[k].1 < n {
      var (u, v) := edges[k];
      assert (u, v) in edges;
      assert Constraint(leaves, m, 0, u, v);
    }
    forall u: nat, v: nat ensures u in Kahn.Preds(edges, v) <==> Precedes(tree, u, v) {
      Kahn.PredsMember(edges, u, v);
    }
  }

  /**
   * The program's builder: walk the tree, build the edges, layer the
   * leaves. It returns the leaves in walk order and the epochs as lists
   * of leaf positions.
   */
  method LeafEpochs<Id(==), P>(tree: Tree<Id, P>) returns (r: Result<(seq<Collected<Id, P>>, seq<seq<nat>>), EpochError<Id>>)
    ensures r.Ok? <==> Expected(tree).Ok?
    ensures r.Err? ==> r.error == Expected(tree).error
    ensures r.Ok? ==> && r.value.0 == Flatten(tree, [], [])
                      && Kahn.ToSets(r.value.1) == Expected(tree).value
                      && Kahn.AllDistinct(r.value.1)
  {
    CollectTreeCorrect(tree);
    var walk := CollectTree(tree);
    if walk.Err? {
      return Err(walk.error);
    }
    var st := walk.value;
    var edges := LeafEdges(st.leaves, st.idToLeaves, 0);
    if edges.Err? {
      return Err(edges.error);
    }
    TreeEdgesGraph(tree);
    CountFlatten(tree, [], []);
    var layered := Kahn.Layer(|st.leaves|, edges.value);
    if layered.Err? {
      return Err(CycleDetected(layered.error));
    }
    return Ok((st.leaves, layered.value));
  }

  // ---------------------------------------------------------------------
  // Properties of the epochs, in terms of the tree
  // ---------------------------------------------------------------------

  /** `waves` is the successful outcome for `tree`, as `LeafEpochs` returns it. */
  ghost predicate Layered<Id, P>(tree: Tree<Id, P>, waves: seq<seq<nat>>) {
    Expected(tree).Ok? && Kahn.ToSets(waves) == Expected(tree).value && Kahn.AllDistinct(waves)
  }

  /** Every leaf position 0..n-1 occurs in exactly one epoch, exactly once, and nothing else occurs. */
  ghost predicate Partition(n: nat, waves: seq<seq<nat>>) {
    && (forall k, j | 0 <= k < |waves| && 0 <= j < |waves[k]| :: waves[k][j] < n)
    && (forall v | 0 <= v < n :: Occurs(waves, v))
    && (forall k1, j1, k2, j2 | && 0 <= k1 < |waves| && 0 <= j1 < |waves[k1]|
                                && 0 <= k2 < |waves| && 0 <= j2 < |waves[k2]|
                                && waves[k1][j1] == waves[k2][j2] :: k1 == k2 && j1 == j2)
  }

  ghost predicate Occurs(waves: seq<seq<nat>>, v: nat) {
    exists k, j | 0 <= k < |waves| && 0 <= j < |waves[k]| :: waves[k][j] == v
  }

  /** The epoch holding leaf `v` (or |waves| when none does). */
  ghost function EpochOf(waves: seq<seq<nat>>, v: nat): nat {
    if v in Kahn.Union(Kahn.ToSets(waves)) then Kahn.WaveOf(Kahn.ToSets(waves), v) else |waves|
  }

  /** `c` is a closed chain of leaves each of which must precede the next. */
  ghost predicate PrecedenceCycle<Id, P>(tree: Tree<Id, P>, c: seq<nat>) {
    |c| >= 2 && c[0] == c[|c| - 1] && forall i | 0 <= i < |c| - 1 :: Precedes(tree, c[i], c[i + 1])
  }

  lemma LayeredGraph<Id, P>(tree: Tree<Id, P>, waves: seq<seq<nat>>)
    requires Layered(tree, waves)
    ensures TreeEdges(tree).Ok? && FirstRepeat({}, Ids(tree)).None?
    ensures Kahn.ToSets(waves) == Kahn.Schedule(Count(tree), TreeEdges(tree).value)
    ensures Kahn.Union(Kahn.ToSets(waves)) == Kahn.Nodes(Count(tree))
  {
  }

  /** On success every leaf is in exactly one epoch. */
  lemma LayeredPartition<Id, P>(tree: Tree<Id, P>, waves: seq<seq<nat>>)
    requires Layered(tree, waves)
    ensures Partition(Count(tree), waves)
  {
    LayeredGraph(tree, waves);
    Kahn.ScheduleDisjoint(Count(tree), TreeEdges(tree).value);
    WavesPartition(Count(tree), waves);
  }

  /** Distinct waves whose sets are disjoint and cover the nodes 0..n-1 partition them. */
  lemma WavesPartition(n: nat, waves: seq<seq<nat>>)
    requires Kahn.AllDistinct(waves)
    requires Kahn.Union(Kahn.ToSets(waves)) == Kahn.Nodes(n)
    requires forall k | 0 <= k < |waves| :: Kahn.ToSets(waves)[k] <= Kahn.Nodes(n)
    requires forall j, k | 0 <= j < k < |waves| :: Kahn.ToSets(waves)[j] * Kahn.ToSets(waves)[k] == {}
    ensures Partition(n, waves)
  {
    WavesBounded(n, waves);
    WavesCover(n, waves);
    WavesOnce(waves);
  }

  lemma WavesBounded(n: nat, waves: seq<seq<nat>>)
    requires forall k | 0 <= k < |waves| :: Kahn.ToSets(waves)[k] <= Kahn.Nodes(n)
    ensures forall k, j | 0 <= k < |waves| && 0 <= j < |waves[k]| :: waves[k][j] < n
  {
    var sets := Kahn.ToSets(waves);
    forall k, j | 0 <= k < |waves| && 0 <= j < |waves[k]| ensures waves[k][j] < n {
      assert waves[k][j] in sets[k];
    }
  }

  lemma WavesCover(n: nat, waves: seq<seq<nat>>)
    requires Kahn.Union(Kahn.ToSets(waves)) == Kahn.Nodes(n)
    ensures forall v | 0 <= v < n :: Occurs(waves, v)
  {
    var sets := Kahn.ToSets(waves);
    forall v | 0 <= v < n ensures Occurs(waves, v) {
      assert Kahn.IsNode(n, v);
      Kahn.UnionMember(sets, v);
      var k :| 0 <= k < |sets| && v in sets[k];
      assert v in Kahn.Elems(waves[k]);
      var j :| 0 <= j < |waves[k]| && waves[k][j] == v;
    }
  }

  lemma WavesOnce(waves: seq<seq<nat>>)
    requires Kahn.AllDistinct(waves)
    requires forall j, k | 0 <= j < k < |waves| :: Kahn.ToSets(waves)[j] * Kahn.ToSets(waves)[k] == {}
    ensures forall k1, j1, k2, j2 | && 0 <= k1 < |waves| && 0 <= j1 < |waves[k1]|
                                   && 0 <= k2 < |waves| && 0 <= j2 < |waves[k2]|
                                   && waves[k1][j1] == waves[k2][j2] :: k1 == k2 && j1 == j2
  {
    var sets := Kahn.ToSets(waves);
    forall k1, j1, k2, j2 | && 0 <= k1 < |waves| && 0 <= j1 < |waves[k1]|
                            && 0 <= k2 < |waves| && 0 <= j2 < |waves[k2]|
                            && waves[k1][j1] == waves[k2][j2]
      ensures k1 == k2 && j1 == j2
    {
      var v := waves[k1][j1];
      assert v in sets[k1] && v in sets[k2];
      if k1 < k2 {
        DisjointMember(sets[k1], sets[k2], v);
      } else if k2 < k1 {
        DisjointMember(sets[k2], sets[k1], v);
      } else {
        assert Kahn.Distinct(waves[k1]);
      }
    }
  }

  lemma DisjointMember(a: set<nat>, b: set<nat>, v: nat)
    requires a * b == {} && v in a
    ensures v !in b
  {
    assert v !in a * b;
  }

  /** On success, a leaf that must precede another lies in a strictly earlier epoch. */
  lemma LayeredForward<Id, P>(tree: Tree<Id, P>, waves: seq<seq<nat>>)
    requires Layered(tree, waves)
    ensures forall u: nat, v: nat | Precedes(tree, u, v) ::
              u < Count(tree) && v < Count(tree) && EpochOf(waves, u) < EpochOf(waves, v)
  {
    LayeredGraph(tree, waves);
    TreeEdgesGraph(tree);
    var n := Count(tree);
    var edges := TreeEdges(tree).value;
    forall u: nat, v: nat | Precedes(tree, u, v) ensures u < n && v < n && EpochOf(waves, u) < EpochOf(waves, v) {
      assert u in Kahn.Preds(edges, v);
      Kahn.PredsBound(n, edges, v);
      Kahn.PredsMember(edges, u, v);
      assert v < n;
      assert Kahn.IsNode(n, v);
      Kahn.PredsEarlier(n, edges, v, u);
    }
  }

  /**
   * On success the epoch of a leaf is its depth: 0 when nothing must
   * precede it, and otherwise one more than the latest epoch of the
   * leaves that must precede it.
   */
  lemma LayeredDepth<Id, P>(tree: Tree<Id, P>, waves: seq<seq<nat>>)
    requires Layered(tree, waves)
    ensures forall v: nat | v < Count(tree) :: EpochOf(waves, v) == 0 <==> forall u: nat :: !Precedes(tree, u, v)
    ensures forall v: nat | v < Count(tree) && EpochOf(waves, v) > 0 ::
              exists u: nat :: Precedes(tree, u, v) && EpochOf(waves, u) == EpochOf(waves, v) - 1
  {
    LayeredGraph(tree, waves);
    TreeEdgesGraph(tree);
    var n := Count(tree);
    var edges := TreeEdges(tree).value;
    forall v: nat | v < n
      ensures EpochOf(waves, v) == 0 <==> forall u: nat :: !Precedes(tree, u, v)
      ensures EpochOf(waves, v) > 0 ==> exists u: nat :: Precedes(tree, u, v) && EpochOf(waves, u) == EpochOf(waves, v) - 1
    {
      assert Kahn.IsNode(n, v);
      Kahn.ScheduleDepth(n, edges, v);
      if Kahn.Preds(edges, v) != {} {
        var u :| u in Kahn.Preds(edges, v);
        assert Precedes(tree, u, v);
      }
      if EpochOf(waves, v) > 0 {
        var u :| u in Kahn.Preds(edges, v) && u in Kahn.Union(Kahn.Schedule(n, edges))
                 && Kahn.WaveOf(Kahn.Schedule(n, edges), u) == Kahn.WaveOf(Kahn.Schedule(n, edges), v) - 1;
        assert Precedes(tree, u, v);
      }
    }
  }

  /** On success no chain of precedences closes on itself. */
  lemma LayeredAcyclic<Id, P>(tree: Tree<Id, P>, waves: seq<seq<nat>>, c: seq<nat>)
    requires Layered(tree, waves)
    ensures !PrecedenceCycle(tree, c)
  {
    LayeredGraph(tree, waves);
    TreeEdgesGraph(tree);
    var edges := TreeEdges(tree).value;
    if PrecedenceCycle(tree, c) {
      forall i | 0 <= i < |c| - 1 ensures Kahn.Step(edges, c, i) {
        assert Precedes(tree, c[i], c[i + 1]);
      }
      Kahn.ScheduledAcyclic(Count(tree), edges, c);
    }
  }

  /** A `CycleDetected` outcome has leaves left over, and they hold a chain of precedences that closes on itself. */
  lemma CycleWitness<Id, P>(tree: Tree<Id, P>) returns (c: seq<nat>)
    requires Expected(tree).Err? && Expected(tree).error.CycleDetected?
    ensures Expected(tree).error.remaining > 0
    ensures PrecedenceCycle(tree, c)
  {
    assert FirstRepeat({}, Ids(tree)).None?;
    if TreeEdges(tree).Err? {
      LeafEdgesError(Flatten(tree, [], []), Spans(tree, 0), 0);
      assert false;
    }
    TreeEdgesGraph(tree);
    var n := Count(tree);
    var edges := TreeEdges(tree).value;
    Kahn.ScheduleBound(n, edges);
    Kahn.NodesCard(n);
    if |Kahn.Union(Kahn.Schedule(n, edges))| == n {
      Kahn.SubsetFull(Kahn.Union(Kahn.Schedule(n, edges)), Kahn.Nodes(n));
    }
    c := Kahn.StuckHasCycle(n, edges);
    forall i | 0 <= i < |c| - 1 ensures Precedes(tree, c[i], c[i + 1]) {
      assert Kahn.Step(edges, c, i);
    }
  }

  // ---------------------------------------------------------------------
  // Epochs of payloads
  // ---------------------------------------------------------------------

  /** The payloads of the leaves at the positions of one wave, in wave order. */
  function Gather<Id, P>(leaves: seq<Collected<Id, P>>, wave: seq<nat>): (r: seq<P>)
    requires forall j | 0 <= j < |wave| :: wave[j] < |leaves|
    ensures |r| == |wave| && forall j | 0 <= j < |r| :: r[j] == leaves[wave[j]].payload
  {
    if |wave| == 0 then [] else [leaves[wave[0]].payload] + Gather(leaves, wave[1..])
  }

  /** `epochs` lists, wave by wave, the payloads of the leaves that `waves` names. */
  ghost predicate Gathered<Id, P>(leaves: seq<Collected<Id, P>>, waves: seq<seq<nat>>, epochs: seq<seq<P>>) {
    && |epochs| == |waves|
    && forall k | 0 <= k < |waves| ::
         && (forall j | 0 <= j < |waves[k]| :: waves[k][j] < |leaves|)
         && epochs[k] == Gather(leaves, waves[k])
  }

  /** The program's per-wave loop: read each wave's payloads off the collected leaves. */
  method GatherEpochs<Id, P>(leaves: seq<Collected<Id, P>>, waves: seq<seq<nat>>) returns (out: seq<seq<P>>)
    requires forall k, j | 0 <= k < |waves| && 0 <= j < |waves[k]| :: waves[k][j] < |leaves|
    ensures Gathered(leaves, waves, out)
  {
    out := [];
    var k := 0;
    while k < |waves|
      invariant 0 <= k <= |waves| && |out| == k
      invariant forall i | 0 <= i < k :: out[i] == Gather(leaves, waves[i])
    {
      out := out + [Gather(leaves, waves[k])];
      k := k + 1;
    }
  }

  /**
   * The epochs as the builders return them: each wave replaced by the
   * payloads of its leaves. On success the ghost `waves` are the layering
   * the payload epochs were read from.
   */
  method PayloadEpochs<Id(==), P>(tree: Tree<Id, P>) returns (r: Result<seq<seq<P>>, EpochError<Id>>, ghost waves: seq<seq<nat>>)
    ensures r.Ok? <==> Expected(tree).Ok?
    ensures r.Err? ==> r.error == Expected(tree).error
    ensures r.Ok? ==> && Layered(tree, waves)
                      && Partition(Count(tree), waves)
                      && Gathered(Flatten(tree, [], []), waves, r.value)
  {
    var res := LeafEpochs(tree);
    if res.Err? {
      return Err(res.error), [];
    }
    var leaves := res.value.0;
    var ws := res.value.1;
    waves := ws;
    LayeredPartition(tree, waves);
    CountFlatten(tree, [], []);
    var out := GatherEpochs(leaves, ws);
    return Ok(out), waves;
  }
}
