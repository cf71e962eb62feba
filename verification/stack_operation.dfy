/**
 * The stack crate's operation pipeline: a tree of operation events is
 * flattened into a list, the list is layered into epochs by its
 * `before` / `after` constraints, each epoch's operations are grouped by
 * kind, and the groups are applied epoch by epoch.
 *
 * The list's epoch builder runs the same checks in the same order as the
 * causal builder does on a root branch with no id and no references
 * whose children are the events' leaves, so it is modelled as exactly
 * that, and the lemmas here restate the outcome in terms of the list.
 */
module StackOperation {
  import opened Wrappers
  import Strs
  import Causal
  import Epochs
  import Kahn

  type String = Strs.String

  // ---------------------------------------------------------------------
  // Operations, grouping and applying
  // ---------------------------------------------------------------------

  datatype OperationKind = Package

  datatype PackageOperation = PackageOperation(packages: seq<String>)

  datatype Operation = Package(op: PackageOperation)

  datatype PackageOperationGroup = PackageOperationGroup(packages: seq<String>)

  datatype OperationGroup = Package(group: PackageOperationGroup)

  datatype OperationGroupApplyError = Package(error: ())

  function PackagesOf(ops: seq<PackageOperation>): (r: seq<seq<String>>)
    ensures |r| == |ops| && forall i | 0 <= i < |ops| :: r[i] == ops[i].packages
  {
    if |ops| == 0 then [] else [ops[0].packages] + PackagesOf(ops[1..])
  }

  /**
   * Group package operations: all their packages, in order, repeats kept.
   * A package is in the group exactly when some operation names it.
   */
  function Group(ops: seq<PackageOperation>): (r: PackageOperationGroup)
    ensures forall p :: p in r.packages <==> exists i | 0 <= i < |ops| :: p in ops[i].packages
  {
    var parts := PackagesOf(ops);
    ConcatMembers(parts);
    PackageOperationGroup(Strs.Concat(parts))
  }

  lemma ConcatMembers(parts: seq<seq<String>>)
    ensures forall p :: p in Strs.Concat(parts) <==> exists i | 0 <= i < |parts| :: p in parts[i]
  {
    forall p ensures p in Strs.Concat(parts) <==> exists i | 0 <= i < |parts| :: p in parts[i] {
      Strs.ConcatMember(parts, p);
    }
  }

  /** Grouping is compatible with concatenation: the group of `a + b` is `a`'s packages followed by `b`'s. */
  lemma GroupAppend(a: seq<PackageOperation>, b: seq<PackageOperation>)
    ensures Group(a + b).packages == Group(a).packages + Group(b).packages
  {
    assert PackagesOf(a + b) == PackagesOf(a) + PackagesOf(b);
    Strs.ConcatAppend(PackagesOf(a), PackagesOf(b));
  }

  /** The group of one operation has exactly that operation's packages. */
  lemma GroupSingle(op: PackageOperation)
    ensures Group([op]).packages == op.packages
  {
    assert PackagesOf([op]) == [op.packages];
    assert [op.packages][1..] == [];
    assert Strs.Concat([op.packages]) == op.packages + Strs.Concat([]);
  }

  function PackageOps(ops: seq<Operation>): (r: seq<PackageOperation>)
    ensures |r| == |ops| && forall i | 0 <= i < |ops| :: Operation.Package(r[i]) == ops[i]
  {
    if |ops| == 0 then [] else [ops[0].op] + PackageOps(ops[1..])
  }

  /**
   * Group operations by kind. There is one kind, and its group is always
   * present, even when there are no operations: it holds every package of
   * the operations.
   */
  function GroupByKind(ops: seq<Operation>): (r: map<OperationKind, OperationGroup>)
    ensures r.Keys == {OperationKind.Package}
    ensures forall p :: p in r[OperationKind.Package].group.packages <==> exists i | 0 <= i < |ops| :: p in ops[i].op.packages
  {
    var packageOps := PackageOps(ops);
    map[OperationKind.Package := OperationGroup.Package(Group(packageOps))]
  }

  const NothingToDo: String := "[pkg] nothing to do"
  const InstallPrefix: String := "[pkg] install: "

  /**
   * Applying a package group reports what it would do, a line saying
   * there is nothing to do exactly when the group is empty, and never
   * fails.
   */
  function ApplyPackageGroup(g: PackageOperationGroup): (r: (String, Result<(), ()>))
    ensures r.1.Ok?
    ensures r.0 == NothingToDo <==> |g.packages| == 0
    ensures |g.packages| > 0 ==> Strs.StartsWith(r.0, InstallPrefix) && r.0[|InstallPrefix|..] == Strs.Join(g.packages, ", ")
  {
    if |g.packages| == 0 then (NothingToDo, Ok(()))
    else
      var line := InstallPrefix + Strs.Join(g.packages, ", ");
      assert line[6] != NothingToDo[6];
      (line, Ok(()))
  }

  /** Applying a group applies the group of its kind; an error would be tagged with the kind. */
  function ApplyGroup(g: OperationGroup): (r: (String, Result<(), OperationGroupApplyError>))
    ensures r.1.Ok?
    ensures r.0 == NothingToDo <==> |g.group.packages| == 0
  {
    var (line, res) := ApplyPackageGroup(g.group);
    (line, res.MapError(e => OperationGroupApplyError.Package(e)))
  }

  // ---------------------------------------------------------------------
  // Events, the event tree and the flat list
  // ---------------------------------------------------------------------

  /** An operation with an optional id and the ids it must follow (`before`) and precede (`after`). */
  datatype OperationEvent = OperationEvent(id: Option<String>, operation: Operation, before: seq<String>, after: seq<String>)

  datatype EventTree =
    | Branch(children: seq<EventTree>)
    | Leaf(event: OperationEvent)

  /** The events of the tree, depth first, left to right. */
  function IntoList(tree: EventTree): seq<OperationEvent>
    decreases tree
  {
    match tree
    case Branch(children) => IntoListAll(children)
    case Leaf(event) => [event]
  }

  function IntoListAll(children: seq<EventTree>): seq<OperationEvent>
    decreases children
  {
    if |children| == 0 then [] else IntoList(children[0]) + IntoListAll(children[1..])
  }

  /** `event` is at some leaf of the tree. */
  predicate HasLeaf(tree: EventTree, event: OperationEvent)
    decreases tree
  {
    match tree
    case Branch(children) => exists i | 0 <= i < |children| :: HasLeaf(children[i], event)
    case Leaf(e) => e == event
  }

  /** The list holds exactly the events at the tree's leaves. */
  lemma {:induction false} IntoListLeaves(tree: EventTree, event: OperationEvent)
    ensures event in IntoList(tree) <==> HasLeaf(tree, event)
    decreases tree
  {
    match tree
    case Branch(children) => IntoListAllLeaves(children, event);
    case Leaf(e) =>
  }

  lemma {:induction false} IntoListAllLeaves(children: seq<EventTree>, event: OperationEvent)
    ensures event in IntoListAll(children) <==> exists i | 0 <= i < |children| :: HasLeaf(children[i], event)
    decreases children
  {
    if |children| > 0 {
      IntoListLeaves(children[0], event);
      IntoListAllLeaves(children[1..], event);
      if exists i | 0 <= i < |children| :: HasLeaf(children[i], event) {
        var i :| 0 <= i < |children| && HasLeaf(children[i], event);
        if i > 0 {
          assert children[1..][i - 1] == children[i];
        }
      }
      if exists i | 0 <= i < |children[1..]| :: HasLeaf(children[1..][i], event) {
        var i :| 0 <= i < |children[1..]| && HasLeaf(children[1..][i], event);
        assert children[i + 1] == children[1..][i];
      }
    }
  }

  // ---------------------------------------------------------------------
  // The list as a causal tree
  // ---------------------------------------------------------------------

  function LeafOf(e: OperationEvent): Causal.Tree<String, Operation> {
    Causal.Leaf(e.id, e.operation, e.before, e.after)
  }

  function LeafTrees(list: seq<OperationEvent>): (r: seq<Causal.Tree<String, Operation>>)
    ensures |r| == |list| && forall i | 0 <= i < |list| :: r[i] == LeafOf(list[i])
  {
    if |list| == 0 then [] else [LeafOf(list[0])] + LeafTrees(list[1..])
  }

  /** The list as the causal builder sees it: a root branch without id or references over one leaf per event. */
  function ListTree(list: seq<OperationEvent>): Causal.Tree<String, Operation> {
    Causal.Branch(None, [], [], LeafTrees(list))
  }

  /** Each event as a collected leaf: its operation and its own references. */
  function Leaves(list: seq<OperationEvent>): (r: seq<Causal.Collected<String, Operation>>)
    ensures |r| == |list| && forall i | 0 <= i < |list| :: r[i] == Causal.Collected(list[i].operation, list[i].before, list[i].after)
  {
    if |list| == 0 then [] else [Causal.Collected(list[0].operation, list[0].before, list[0].after)] + Leaves(list[1..])
  }

  /** The ids the events carry, in list order. */
  function SomeIds(list: seq<OperationEvent>): seq<String> {
    if |list| == 0 then []
    else (if list[0].id.Some? then [list[0].id.value] else []) + SomeIds(list[1..])
  }

  lemma {:induction false} SomeIdsMember(list: seq<OperationEvent>, x: String)
    ensures x in SomeIds(list) <==> exists i | 0 <= i < |list| :: list[i].id == Some(x)
  {
    if |list| > 0 {
      SomeIdsMember(list[1..], x);
      if exists i | 0 <= i < |list| :: list[i].id == Some(x) {
        var i :| 0 <= i < |list| && list[i].id == Some(x);
        if i > 0 {
          assert list[1..][i - 1] == list[i];
        }
      }
      if exists i | 0 <= i < |list[1..]| :: list[1..][i].id == Some(x) {
        var i :| 0 <= i < |list[1..]| && list[1..][i].id == Some(x);
        assert list[i + 1] == list[1..][i];
      }
    }
  }

  /** The causal builder's leaves, leaf count and ids for the list are the events', in order. */
  lemma {:induction false} ListShape(list: seq<OperationEvent>)
    ensures Causal.Flatten(ListTree(list), [], []) == Leaves(list)
    ensures Causal.Count(ListTree(list)) == |list|
    ensures Causal.Ids(ListTree(list)) == SomeIds(list)
  {
    LeafTreesShape(list);
    assert ListTree(list).before == [] && ListTree(list).after == [];
    var none: seq<String> := [];
    assert none + none == none;
    assert Causal.Flatten(ListTree(list), [], []) == Causal.FlattenAll(LeafTrees(list), none + none, none + none);
  }

  lemma {:induction false} LeafTreesShape(list: seq<OperationEvent>)
    ensures Causal.FlattenAll(LeafTrees(list), [], []) == Leaves(list)
    ensures Causal.CountAll(LeafTrees(list)) == |list|
    ensures Causal.IdsAll(LeafTrees(list)) == SomeIds(list)
  {
    if |list| > 0 {
      var ts := LeafTrees(list);
      assert ts[1..] == LeafTrees(list[1..]);
      assert Leaves(list)[1..] == Leaves(list[1..]);
      LeafTreesShape(list[1..]);
      assert [] + list[0].before == list[0].before && [] + list[0].after == list[0].after;
      assert Causal.Flatten(ts[0], [], []) == [Leaves(list)[0]];
    }
  }

  lemma {:induction false} UniqueTail(list: seq<OperationEvent>)
    requires |list| > 0 && Causal.Unique(SomeIds(list))
    ensures Causal.Unique(SomeIds(list[1..]))
    ensures list[0].id.Some? ==> list[0].id.value !in SomeIds(list[1..])
  {
    var rest := SomeIds(list[1..]);
    var head := if list[0].id.Some? then [list[0].id.value] else [];
    assert SomeIds(list) == head + rest;
    forall a, b | 0 <= a < b < |rest| ensures rest[a] != rest[b] {
      assert rest[a] == SomeIds(list)[|head| + a];
      assert rest[b] == SomeIds(list)[|head| + b];
    }
    if list[0].id.Some? {
      forall a | 0 <= a < |rest| ensures rest[a] != list[0].id.value {
        assert rest[a] == SomeIds(list)[1 + a];
        assert SomeIds(list)[0] == list[0].id.value;
      }
    }
  }

  lemma SpansCons(list: seq<OperationEvent>, offset: nat)
    requires |list| > 0
    ensures Causal.SpansAll(LeafTrees(list), offset)
         == (if list[0].id.Some? then map[list[0].id.value := [offset]] else map[]) + Causal.SpansAll(LeafTrees(list[1..]), offset + 1)
  {
    assert LeafTrees(list)[1..] == LeafTrees(list[1..]);
  }

  /** The builder resolves exactly the ids the events carry. */
  lemma {:induction false} LeafTreesSpanKeys(list: seq<OperationEvent>, offset: nat)
    ensures Causal.SpansAll(LeafTrees(list), offset).Keys == Causal.IdSet(SomeIds(list))
  {
    if |list| > 0 {
      LeafTreesSpanKeys(list[1..], offset + 1);
      SpansCons(list, offset);
      var head := if list[0].id.Some? then [list[0].id.value] else [];
      assert SomeIds(list) == head + SomeIds(list[1..]);
      assert Causal.IdSet(SomeIds(list)) == Causal.IdSet(head) + Causal.IdSet(SomeIds(list[1..]));
    }
  }

  /** With unique ids, each id resolves to the position of the event carrying it. */
  lemma {:induction false} LeafTreesSpans(list: seq<OperationEvent>, offset: nat)
    requires Causal.Unique(SomeIds(list))
    ensures forall i | 0 <= i < |list| && list[i].id.Some? ::
              list[i].id.value in Causal.SpansAll(LeafTrees(list), offset) && Causal.SpansAll(LeafTrees(list), offset)[list[i].id.value] == [offset + i]
  {
    if |list| > 0 {
      var rest := list[1..];
      UniqueTail(list);
      LeafTreesSpans(rest, offset + 1);
      LeafTreesSpanKeys(rest, offset + 1);
      SpansCons(list, offset);
      var m := Causal.SpansAll(LeafTrees(list), offset);
      forall i | 0 <= i < |list| && list[i].id.Some?
        ensures list[i].id.value in m && m[list[i].id.value] == [offset + i]
      {
        if i > 0 {
          assert rest[i - 1] == list[i];
        }
      }
    }
  }

  lemma ListSpans(list: seq<OperationEvent>)
    requires Causal.Unique(SomeIds(list))
    ensures Causal.Spans(ListTree(list), 0).Keys == Causal.IdSet(SomeIds(list))
    ensures forall i | 0 <= i < |list| && list[i].id.Some? ::
              list[i].id.value in Causal.Spans(ListTree(list), 0) && Causal.Spans(ListTree(list), 0)[list[i].id.value] == [i]
  {
    LeafTreesSpanKeys(list, 0);
    LeafTreesSpans(list, 0);
  }

  // ---------------------------------------------------------------------
  // The list's constraints
  // ---------------------------------------------------------------------

  /**
   * Event `u` must run before event `v`: `v`'s `before` names `u`'s id,
   * or `u`'s `after` names `v`'s id.
   */
  ghost predicate ListPrecedes(list: seq<OperationEvent>, u: nat, v: nat) {
    && u < |list| && v < |list|
    && (|| (list[u].id.Some? && list[u].id.value in list[v].before)
        || (list[v].id.Some? && list[v].id.value in list[u].after))
  }

  /** `c` is a closed chain of events each of which must run before the next. */
  ghost predicate ListCycle(list: seq<OperationEvent>, c: seq<nat>) {
    |c| >= 2 && c[0] == c[|c| - 1] && forall i | 0 <= i < |c| - 1 :: ListPrecedes(list, c[i], c[i + 1])
  }

  lemma {:induction false} ReachesIff(list: seq<OperationEvent>, refs: seq<String>, t: nat)
    requires Causal.Unique(SomeIds(list))
    ensures Causal.Reaches(refs, Causal.Spans(ListTree(list), 0), t)
        <==> t < |list| && list[t].id.Some? && list[t].id.value in refs
  {
    var m := Causal.Spans(ListTree(list), 0);
    ListSpans(list);
    if Causal.Reaches(refs, m, t) {
      var x :| x in refs && x in m && t in m[x];
      SomeIdsMember(list, x);
      var i :| 0 <= i < |list| && list[i].id == Some(x);
      assert m[x] == [i];
    }
    if t < |list| && list[t].id.Some? && list[t].id.value in refs {
      var x := list[t].id.value;
      assert m[x] == [t];
    }
  }

  /** With unique ids, the builder's precedence between leaves is exactly the list's. */
  lemma ListPrecedesIff(list: seq<OperationEvent>)
    requires Causal.Unique(SomeIds(list))
    ensures forall u: nat, v: nat :: Causal.Precedes(ListTree(list), u, v) <==> ListPrecedes(list, u, v)
  {
    ListShape(list);
    forall u: nat, v: nat ensures Causal.Precedes(ListTree(list), u, v) <==> ListPrecedes(list, u, v) {
      if v < |list| {
        ReachesIff(list, list[v].before, u);
      }
      if u < |list| {
        ReachesIff(list, list[u].after, v);
      }
    }
  }

  // ---------------------------------------------------------------------
  // Unknown references
  // ---------------------------------------------------------------------

  /** The first reference that is not a known id. */
  function Unknown(refs: seq<String>, known: set<String>): (r: Option<String>)
    ensures r.Some? ==> r.value in refs && r.value !in known
    ensures r.None? ==> forall x | x in refs :: x in known
  {
    if |refs| == 0 then None
    else if refs[0] !in known then Some(refs[0])
    else Unknown(refs[1..], known)
  }

  /** The error for an event's first unknown reference, its `before` list checked first. */
  function EventBadRef(e: OperationEvent, known: set<String>): Option<Causal.EpochError<String>> {
    if Unknown(e.before, known).Some? then Some(Causal.UnknownBeforeRef(Unknown(e.before, known).value))
    else if Unknown(e.after, known).Some? then Some(Causal.UnknownAfterRef(Unknown(e.after, known).value))
    else None
  }

  /** The error for the first event, from position `i` on, with an unknown reference. */
  function FirstBadRef(list: seq<OperationEvent>, known: set<String>, i: nat): (r: Option<Causal.EpochError<String>>)
    ensures r.None? <==> forall j | i <= j < |list| :: EventBadRef(list[j], known).None?
    ensures r.Some? ==> exists j | i <= j < |list| :: && (forall j' | i <= j' < j :: EventBadRef(list[j'], known).None?)
                                                  && EventBadRef(list[j], known) == r
    decreases |list| - i
  {
    if i >= |list| then None
    else if EventBadRef(list[i], known).Some? then EventBadRef(list[i], known)
    else FirstBadRef(list, known, i + 1)
  }

  lemma {:induction false} FirstUnknownKeys(refs: seq<String>, m: map<String, seq<nat>>)
    ensures Causal.FirstUnknown(refs, m) == Unknown(refs, m.Keys)
  {
    if |refs| > 0 {
      FirstUnknownKeys(refs[1..], m);
    }
  }

  /** The builder's edge loop fails exactly at the list's first unknown reference. */
  lemma {:induction false} LeafEdgesBadRef(list: seq<OperationEvent>, m: map<String, seq<nat>>, i: nat)
    ensures Causal.LeafEdges(Leaves(list), m, i).Err? <==> FirstBadRef(list, m.Keys, i).Some?
    ensures Causal.LeafEdges(Leaves(list), m, i).Err? ==> Causal.LeafEdges(Leaves(list), m, i).error == FirstBadRef(list, m.Keys, i).value
    decreases |list| - i
  {
    if i < |list| {
      var c := Leaves(list)[i];
      Causal.RefEdgesSpec(c.before, m, i, true);
      Causal.RefEdgesSpec(c.after, m, i, false);
      FirstUnknownKeys(c.before, m);
      FirstUnknownKeys(c.after, m);
      LeafEdgesBadRef(list, m, i + 1);
    }
  }

  // ---------------------------------------------------------------------
  // Epochs of the list
  // ---------------------------------------------------------------------

  /** Operations that may run at the same time. */
  datatype OperationEpoch = OperationEpoch(operations: seq<Operation>)

  /** The ids the events carry. */
  function Known(list: seq<OperationEvent>): set<String> {
    Causal.IdSet(SomeIds(list))
  }

  /** No two events carry the same id. */
  predicate NoDuplicateIds(list: seq<OperationEvent>) {
    Causal.FirstRepeat({}, SomeIds(list)).None?
  }

  /** Epoch `k` lists, in order, the operations of the events wave `k` names. */
  ghost predicate EpochsOf(list: seq<OperationEvent>, waves: seq<seq<nat>>, epochs: seq<OperationEpoch>) {
    && |epochs| == |waves|
    && forall k | 0 <= k < |waves| ::
         && |epochs[k].operations| == |waves[k]|
         && forall j | 0 <= j < |waves[k]| :: waves[k][j] < |list| && epochs[k].operations[j] == list[waves[k][j]].operation
  }

  /**
   * The builder's outcome for the list, in the list's terms: a repeated
   * id is reported first, then the first unknown reference; otherwise it
   * succeeds exactly when no chain of constraints closes on itself.
   */
  lemma ListOutcome(list: seq<OperationEvent>)
    ensures !NoDuplicateIds(list) ==> Causal.Expected(ListTree(list)) == Err(Causal.DuplicateId(Causal.FirstRepeat({}, SomeIds(list)).value))
    ensures NoDuplicateIds(list) && FirstBadRef(list, Known(list), 0).Some? ==>
              Causal.Expected(ListTree(list)) == Err(FirstBadRef(list, Known(list), 0).value)
    ensures Causal.Expected(ListTree(list)).Ok?
        <==> NoDuplicateIds(list) && FirstBadRef(list, Known(list), 0).None? && forall c :: !ListCycle(list, c)
  {
    var tree := ListTree(list);
    ListShape(list);
    LeafTreesSpanKeys(list, 0);
    var m := Causal.Spans(tree, 0);
    assert m == Causal.SpansAll(LeafTrees(list), 0);
    LeafEdgesBadRef(list, m, 0);
    if NoDuplicateIds(list) {
      Causal.FirstRepeatNone({}, SomeIds(list));
      ListPrecedesIff(list);
      if Causal.Expected(tree).Ok? {
        forall c ensures !ListCycle(list, c) {
          ExpectedAcyclic(list, c);
        }
      } else if FirstBadRef(list, Known(list), 0).None? && Causal.Expected(tree).error.CycleDetected? {
        var c := Causal.CycleWitness(tree);
        assert ListCycle(list, c);
      }
    }
  }

  /** A successful outcome leaves no chain of constraints that closes on itself. */
  lemma ExpectedAcyclic(list: seq<OperationEvent>, c: seq<nat>)
    requires Causal.Expected(ListTree(list)).Ok?
    ensures !ListCycle(list, c)
  {
    var tree := ListTree(list);
    assert Causal.FirstRepeat({}, Causal.Ids(tree)).None?;
    ListShape(list);
    Causal.FirstRepeatNone({}, SomeIds(list));
    ListPrecedesIff(list);
    Causal.TreeEdgesGraph(tree);
    var edges := Causal.TreeEdges(tree).value;
    if ListCycle(list, c) {
      forall i | 0 <= i < |c| - 1 ensures Kahn.Step(edges, c, i) {
        assert Causal.Precedes(tree, c[i], c[i + 1]);
      }
      Kahn.ScheduledAcyclic(Causal.Count(tree), edges, c);
    }
  }

  /**
   * Layer the list into epochs: the duplicate-id check, then the
   * reference check, then Kahn's layering of the events by their
   * constraints. On success every event is in exactly one epoch, each
   * epoch lists the operations of its events, and an event that must run
   * before another is in a strictly earlier epoch.
   */
  method IntoEpochs(list: seq<OperationEvent>) returns (r: Result<seq<OperationEpoch>, Causal.EpochError<String>>, ghost waves: seq<seq<nat>>)
    ensures !NoDuplicateIds(list) ==> r == Err(Causal.DuplicateId(Causal.FirstRepeat({}, SomeIds(list)).value))
    ensures NoDuplicateIds(list) && FirstBadRef(list, Known(list), 0).Some? ==> r == Err(FirstBadRef(list, Known(list), 0).value)
    ensures r.Ok? <==> NoDuplicateIds(list) && FirstBadRef(list, Known(list), 0).None? && forall c :: !ListCycle(list, c)
    ensures r.Err? && r.error.CycleDetected? ==> r.error.remaining > 0
    ensures r.Ok? ==> && Causal.Layered(ListTree(list), waves)
                      && Causal.Partition(|list|, waves)
                      && EpochsOf(list, waves, r.value)
                      && forall u: nat, v: nat | ListPrecedes(list, u, v) :: Causal.EpochOf(waves, u) < Causal.EpochOf(waves, v)
  {
    var tree := ListTree(list);
    ListOutcome(list);
    ListShape(list);
    var epochs;
    epochs, waves := Causal.PayloadEpochs(tree);
    if epochs.Err? {
      if epochs.error.CycleDetected? {
        var _ := Causal.CycleWitness(tree);
      }
      return Err(epochs.error), waves;
    }
    Causal.FirstRepeatNone({}, SomeIds(list));
    ListPrecedesIff(list);
    Causal.LayeredForward(tree, waves);
    var out := Epochs.Map(epochs.value, ops => OperationEpoch(ops));
    ListEpochs(list, waves, epochs.value, out);
    return Ok(out), waves;
  }

  lemma ListEpochs(list: seq<OperationEvent>, waves: seq<seq<nat>>, epochs: seq<seq<Operation>>, out: seq<OperationEpoch>)
    requires Causal.Gathered(Leaves(list), waves, epochs)
    requires |out| == |epochs| && forall k | 0 <= k < |out| :: out[k] == OperationEpoch(epochs[k])
    ensures EpochsOf(list, waves, out)
  {
    forall k | 0 <= k < |waves|
      ensures |out[k].operations| == |waves[k]|
      ensures forall j | 0 <= j < |waves[k]| :: waves[k][j] < |list| && out[k].operations[j] == list[waves[k][j]].operation
    {
      assert epochs[k] == Causal.Gather(Leaves(list), waves[k]);
    }
  }

  /**
   * On success the epoch of an event is its depth: 0 when nothing must
   * run before it, otherwise one more than the latest epoch of the
   * events that must.
   */
  lemma ListDepth(list: seq<OperationEvent>, waves: seq<seq<nat>>)
    requires Causal.Layered(ListTree(list), waves)
    ensures forall v: nat | v < |list| :: Causal.EpochOf(waves, v) == 0 <==> forall u: nat :: !ListPrecedes(list, u, v)
    ensures forall v: nat | v < |list| && Causal.EpochOf(waves, v) > 0 ::
              exists u: nat :: ListPrecedes(list, u, v) && Causal.EpochOf(waves, u) == Causal.EpochOf(waves, v) - 1
  {
    var tree := ListTree(list);
    assert Causal.FirstRepeat({}, Causal.Ids(tree)).None?;
    ListShape(list);
    Causal.FirstRepeatNone({}, SomeIds(list));
    ListPrecedesIff(list);
    Causal.LayeredDepth(tree, waves);
  }

  // ---------------------------------------------------------------------
  // Grouping and applying the epochs
  // ---------------------------------------------------------------------

  /** An epoch's operations grouped by kind. */
  datatype OperationEpochGrouped = OperationEpochGrouped(operations: map<OperationKind, OperationGroup>)

  /** No operation of the epoch names a package. */
  predicate NoPackages(e: OperationEpoch) {
    forall i | 0 <= i < |e.operations| :: |e.operations[i].op.packages| == 0
  }

  /** An epoch's group holds every package its operations name; it is empty exactly when they name none. */
  function GroupEpoch(e: OperationEpoch): (r: OperationEpochGrouped)
    ensures r.operations.Keys == {OperationKind.Package}
    ensures forall p :: p in r.operations[OperationKind.Package].group.packages
                   <==> exists i | 0 <= i < |e.operations| :: p in e.operations[i].op.packages
    ensures |r.operations[OperationKind.Package].group.packages| == 0 <==> NoPackages(e)
  {
    GroupEmpty(e.operations);
    OperationEpochGrouped(GroupByKind(e.operations))
  }

  lemma GroupEmpty(ops: seq<Operation>)
    ensures |GroupByKind(ops)[OperationKind.Package].group.packages| == 0 <==> NoPackages(OperationEpoch(ops))
  {
    var packages := GroupByKind(ops)[OperationKind.Package].group.packages;
    if |packages| > 0 {
      assert packages[0] in packages;
    }
    if !NoPackages(OperationEpoch(ops)) {
      var i :| 0 <= i < |ops| && |ops[i].op.packages| != 0;
      assert ops[i].op.packages[0] in packages;
    }
  }

  /** Group every epoch, keeping their order. */
  function GroupEpochs(epochs: seq<OperationEpoch>): (r: seq<OperationEpochGrouped>)
    ensures |r| == |epochs| && forall k | 0 <= k < |r| :: r[k] == GroupEpoch(epochs[k])
  {
    Epochs.Map(epochs, GroupEpoch)
  }

  /** Apply one grouped epoch: its package group, if it has one. */
  function ApplyEpoch(e: OperationEpochGrouped): (r: (seq<String>, Result<(), OperationGroupApplyError>))
    ensures r.1.Ok?
    ensures |r.0| == if OperationKind.Package in e.operations then 1 else 0
    ensures OperationKind.Package in e.operations ==>
              (r.0[0] == NothingToDo <==> |e.operations[OperationKind.Package].group.packages| == 0)
  {
    if OperationKind.Package in e.operations then
      var (line, res) := ApplyGroup(e.operations[OperationKind.Package]);
      ([line], res)
    else ([], Ok(()))
  }

  /**
   * Apply the grouped epochs in order, stopping at the first error; the
   * lines are what each group reports. Applying never fails.
   */
  function ApplyAll(epochs: seq<OperationEpochGrouped>): (r: (seq<String>, Result<(), OperationGroupApplyError>))
    ensures r.1.Ok?
    ensures |r.0| <= |epochs|
  {
    if |epochs| == 0 then ([], Ok(()))
    else
      var (lines, res) := ApplyEpoch(epochs[0]);
      if res.Err? then (lines, res)
      else
        var (rest, res') := ApplyAll(epochs[1..]);
        (lines + rest, res')
  }

  /**
   * Applying grouped epochs reports one line per epoch, in order, and
   * the line for an epoch says there is nothing to do exactly when its
   * operations name no package.
   */
  lemma {:induction false} ApplyGroupedEpochs(epochs: seq<OperationEpoch>)
    ensures |ApplyAll(GroupEpochs(epochs)).0| == |epochs|
    ensures forall k | 0 <= k < |epochs| :: ApplyAll(GroupEpochs(epochs)).0[k] == NothingToDo <==> NoPackages(epochs[k])
  {
    if |epochs| > 0 {
      ApplyGroupedEpochs(epochs[1..]);
      var grouped := GroupEpochs(epochs);
      assert grouped[1..] == GroupEpochs(epochs[1..]);
      var first := ApplyEpoch(grouped[0]).0;
      var rest := ApplyAll(GroupEpochs(epochs[1..])).0;
      assert ApplyAll(grouped).0 == first + rest;
      forall k | 1 <= k < |epochs| ensures epochs[1..][k - 1] == epochs[k] {
      }
    }
  }

  // ---------------------------------------------------------------------
  // Flattening first changes nothing
  // ---------------------------------------------------------------------

  /** The event tree as a causal tree: branches carry no id and no references. */
  function ToCausal(tree: EventTree): Causal.Tree<String, Operation>
    decreases tree
  {
    match tree
    case Branch(children) => Causal.Branch(None, [], [], ToCausalAll(children))
    case Leaf(event) => LeafOf(event)
  }

  function ToCausalAll(children: seq<EventTree>): (r: seq<Causal.Tree<String, Operation>>)
    ensures |r| == |children|
    decreases children
  {
    if |children| == 0 then [] else [ToCausal(children[0])] + ToCausalAll(children[1..])
  }

  lemma {:induction false} SomeIdsAppend(a: seq<OperationEvent>, b: seq<OperationEvent>)
    ensures SomeIds(a + b) == SomeIds(a) + SomeIds(b)
  {
    if |a| > 0 {
      assert (a + b)[1..] == a[1..] + b;
      SomeIdsAppend(a[1..], b);
    } else {
      assert a + b == b;
    }
  }

  lemma MapUnionAssoc<K, V>(x: map<K, V>, y: map<K, V>, z: map<K, V>)
    ensures (x + y) + z == x + (y + z)
  {
  }

  lemma {:induction false} SpansAppend(a: seq<OperationEvent>, b: seq<OperationEvent>, offset: nat)
    ensures Causal.SpansAll(LeafTrees(a + b), offset) == Causal.SpansAll(LeafTrees(a), offset) + Causal.SpansAll(LeafTrees(b), offset + |a|)
  {
    if |a| == 0 {
      assert a + b == b;
    } else {
      var h: map<String, seq<nat>> := if a[0].id.Some? then map[a[0].id.value := [offset]] else map[];
      assert (a + b)[1..] == a[1..] + b;
      SpansAppend(a[1..], b, offset + 1);
      SpansCons(a + b, offset);
      SpansCons(a, offset);
      MapUnionAssoc(h, Causal.SpansAll(LeafTrees(a[1..]), offset + 1), Causal.SpansAll(LeafTrees(b), offset + |a|));
    }
  }

  /** The causal tree's leaves are those of the flattened list. */
  lemma {:induction false} ToCausalLeaves(tree: EventTree)
    ensures Causal.Flatten(ToCausal(tree), [], []) == Leaves(IntoList(tree))
    decreases tree
  {
    match tree
    case Branch(children) =>
      ToCausalAllLeaves(children);
      var none: seq<String> := [];
      assert none + none == none;
    case Leaf(e) =>
      assert [] + e.before == e.before && [] + e.after == e.after;
  }

  lemma {:induction false} ToCausalAllLeaves(children: seq<EventTree>)
    ensures Causal.FlattenAll(ToCausalAll(children), [], []) == Leaves(IntoListAll(children))
    decreases children
  {
    if |children| > 0 {
      var head := IntoList(children[0]);
      var rest := IntoListAll(children[1..]);
      ToCausalLeaves(children[0]);
      ToCausalAllLeaves(children[1..]);
      assert ToCausalAll(children)[1..] == ToCausalAll(children[1..]);
      LeavesAppend(head, rest);
    }
  }

  lemma {:induction false} LeavesAppend(a: seq<OperationEvent>, b: seq<OperationEvent>)
    ensures Leaves(a + b) == Leaves(a) + Leaves(b)
  {
    var l := Leaves(a + b);
    var r := Leaves(a) + Leaves(b);
    assert |l| == |r|;
    forall i | 0 <= i < |l| ensures l[i] == r[i] {
      if i < |a| {
        assert (a + b)[i] == a[i];
      } else {
        assert (a + b)[i] == b[i - |a|];
      }
    }
  }

  /** The causal tree's leaf count and ids are those of the flattened list. */
  lemma {:induction false} ToCausalShape(tree: EventTree)
    ensures Causal.Count(ToCausal(tree)) == |IntoList(tree)|
    ensures Causal.Ids(ToCausal(tree)) == SomeIds(IntoList(tree))
    decreases tree
  {
    match tree
    case Branch(children) =>
      ToCausalAllShape(children);
    case Leaf(e) =>
      assert SomeIds([e]) == (if e.id.Some? then [e.id.value] else []) + SomeIds([]);
  }

  lemma {:induction false} ToCausalAllShape(children: seq<EventTree>)
    ensures Causal.CountAll(ToCausalAll(children)) == |IntoListAll(children)|
    ensures Causal.IdsAll(ToCausalAll(children)) == SomeIds(IntoListAll(children))
    decreases children
  {
    if |children| > 0 {
      var head := IntoList(children[0]);
      var rest := IntoListAll(children[1..]);
      ToCausalShape(children[0]);
      ToCausalAllShape(children[1..]);
      assert ToCausalAll(children)[1..] == ToCausalAll(children[1..]);
      SomeIdsAppend(head, rest);
    }
  }

  /** The causal tree resolves ids as the flattened list does. */
  lemma {:induction false} ToCausalSpans(tree: EventTree, offset: nat)
    ensures Causal.Spans(ToCausal(tree), offset) == Causal.SpansAll(LeafTrees(IntoList(tree)), offset)
    decreases tree
  {
    match tree
    case Branch(children) =>
      ToCausalAllSpans(children, offset);
    case Leaf(e) =>
      SpansCons([e], offset);
      assert [e][1..] == [];
  }

  lemma {:induction false} ToCausalAllSpans(children: seq<EventTree>, offset: nat)
    ensures Causal.SpansAll(ToCausalAll(children), offset) == Causal.SpansAll(LeafTrees(IntoListAll(children)), offset)
    decreases children
  {
    if |children| > 0 {
      var head := IntoList(children[0]);
      var rest := IntoListAll(children[1..]);
      ToCausalShape(children[0]);
      ToCausalSpans(children[0], offset);
      ToCausalAllSpans(children[1..], offset + |head|);
      assert ToCausalAll(children)[1..] == ToCausalAll(children[1..]);
      SpansAppend(head, rest, offset);
    }
  }

  /** The causal builder's outcome depends only on the leaves, the ids in walk order and their resolution. */
  lemma ExpectedCongruent(t1: Causal.Tree<String, Operation>, t2: Causal.Tree<String, Operation>)
    requires Causal.Count(t1) == Causal.Count(t2) && Causal.Ids(t1) == Causal.Ids(t2)
    requires Causal.Flatten(t1, [], []) == Causal.Flatten(t2, [], []) && Causal.Spans(t1, 0) == Causal.Spans(t2, 0)
    ensures Causal.Expected(t1) == Causal.Expected(t2)
  {
    assert Causal.TreeEdges(t1) == Causal.TreeEdges(t2);
  }

  /**
   * Flattening the event tree and layering the list has the same outcome
   * as the causal builder on the tree itself: the same errors, and on
   * success the same epochs of the same leaves.
   */
  lemma IntoListOutcome(tree: EventTree)
    ensures Causal.Expected(ListTree(IntoList(tree))) == Causal.Expected(ToCausal(tree))
    ensures Causal.Flatten(ListTree(IntoList(tree)), [], []) == Causal.Flatten(ToCausal(tree), [], [])
  {
    var list := IntoList(tree);
    ToCausalLeaves(tree);
    ToCausalShape(tree);
    ToCausalSpans(tree, 0);
    ListShape(list);
    assert Causal.Spans(ListTree(list), 0) == Causal.SpansAll(LeafTrees(list), 0);
    ExpectedCongruent(ListTree(list), ToCausal(tree));
  }
}
