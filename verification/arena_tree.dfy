/**
 * The arena tree: a tree kept as a flat list of nodes in preorder, with a
 * map from node id to list position and the id of the root. Branch nodes
 * name their children by id; leaf nodes hold an optional payload.
 *
 * Nested elements are flattened into the arena depth-first, checking each
 * id against the map before it is inserted. The recursive flattening
 * (`AppendElement`) is proved equal to inserting the element's preorder
 * list one entry at a time (`Insert`), and the facts about ids, positions
 * and duplicate detection are stated about that simple fold.
 */
module ArenaTree {
  import opened Wrappers
  import Causal

  datatype Element<Id, N, M> =
    | Branch(id: Id, children: seq<Element<Id, N, M>>, meta: M)
    | Leaf(id: Id, node: N, meta: M)

  datatype Node<Id, N, M> =
    | Branch(children: seq<Id>, meta: M)
    | Leaf(node: Option<N>, meta: M)

  datatype Tree<Id, N, M> = Tree(nodes: seq<Node<Id, N, M>>, indexById: map<Id, nat>, rootId: Id)

  datatype TreeError<Id> =
    | DuplicateId(id: Id)
    | MissingId(id: Id)
    | NotABranch(id: Id)

  datatype TreeMapError<Id, E> =
    | Structural(structural: TreeError<Id>)
    | User(user: E)

  /** The part of a tree that flattening grows: the node list and the id map. */
  datatype Arena<Id, N, M> = Arena(nodes: seq<Node<Id, N, M>>, indexById: map<Id, nat>)

  /** The arena after flattening, and the duplicate id that stopped it, if any. */
  datatype Appended<Id, N, M> = Appended(arena: Arena<Id, N, M>, error: Option<TreeError<Id>>)

  // ---------------------------------------------------------------------
  // Preorder lists
  // ---------------------------------------------------------------------

  function RootIds<Id, N, M>(children: seq<Element<Id, N, M>>): (r: seq<Id>)
    ensures |r| == |children| && forall i | 0 <= i < |r| :: r[i] == children[i].id
  {
    if |children| == 0 then [] else [children[0].id] + RootIds(children[1..])
  }

  /** The element's nodes in preorder, each with its id; a branch lists its children's ids. */
  function Flat<Id, N, M>(e: Element<Id, N, M>): seq<(Id, Node<Id, N, M>)>
    decreases e, 1
  {
    match e
    case Leaf(id, node, meta) => [(id, Node.Leaf(Some(node), meta))]
    case Branch(id, children, meta) => [(id, Node.Branch(RootIds(children), meta))] + FlatAll(children)
  }

  function FlatAll<Id, N, M>(children: seq<Element<Id, N, M>>): seq<(Id, Node<Id, N, M>)>
    decreases children, 0
  {
    if |children| == 0 then [] else Flat(children[0]) + FlatAll(children[1..])
  }

  function Ids<Id, N, M>(items: seq<(Id, Node<Id, N, M>)>): (r: seq<Id>)
    ensures |r| == |items| && forall i | 0 <= i < |r| :: r[i] == items[i].0
  {
    if |items| == 0 then [] else [items[0].0] + Ids(items[1..])
  }

  function Nodes<Id, N, M>(items: seq<(Id, Node<Id, N, M>)>): (r: seq<Node<Id, N, M>>)
    ensures |r| == |items| && forall i | 0 <= i < |r| :: r[i] == items[i].1
  {
    if |items| == 0 then [] else [items[0].1] + Nodes(items[1..])
  }

  // ---------------------------------------------------------------------
  // Flattening
  // ---------------------------------------------------------------------

  /**
   * Insert preorder entries one at a time: an id the map already knows
   * stops the insertion with `DuplicateId`, keeping what was inserted
   * before it; otherwise the node is pushed and its id mapped to
   * `base` plus its position in the list.
   */
  function Insert<Id, N, M>(a: Arena<Id, N, M>, base: nat, items: seq<(Id, Node<Id, N, M>)>): Appended<Id, N, M>
    decreases |items|
  {
    if |items| == 0 then Appended(a, None)
    else if items[0].0 in a.indexById then Appended(a, Some(DuplicateId(items[0].0)))
    else Insert(Arena(a.nodes + [items[0].1], a.indexById[items[0].0 := base + |a.nodes|]), base, items[1..])
  }

  /** The program's recursive flattening of one element. */
  function AppendElement<Id, N, M>(a: Arena<Id, N, M>, base: nat, e: Element<Id, N, M>): (r: Appended<Id, N, M>)
    ensures |a.nodes| <= |r.arena.nodes|
    decreases e, 1
  {
    match e
    case Leaf(id, node, meta) =>
      if id in a.indexById then Appended(a, Some(DuplicateId(id)))
      else Appended(Arena(a.nodes + [Node.Leaf(Some(node), meta)], a.indexById[id := base + |a.nodes|]), None)
    case Branch(id, children, meta) =>
      if id in a.indexById then Appended(a, Some(DuplicateId(id)))
      else AppendAll(Arena(a.nodes + [Node.Branch(RootIds(children), meta)], a.indexById[id := base + |a.nodes|]), base, children)
  }

  /** Flatten elements in order, stopping at the first duplicate. */
  function AppendAll<Id, N, M>(a: Arena<Id, N, M>, base: nat, children: seq<Element<Id, N, M>>): (r: Appended<Id, N, M>)
    ensures |a.nodes| <= |r.arena.nodes|
    decreases children, 0
  {
    if |children| == 0 then Appended(a, None)
    else
      var r := AppendElement(a, base, children[0]);
      if r.error.Some? then r else AppendAll(r.arena, base, children[1..])
  }

  /** Inserting two lists is inserting the first and, unless it failed, then the second. */
  lemma {:induction false} InsertAppend<Id, N, M>(a: Arena<Id, N, M>, base: nat, x: seq<(Id, Node<Id, N, M>)>, y: seq<(Id, Node<Id, N, M>)>)
    ensures Insert(a, base, x + y)
         == (var r := Insert(a, base, x); if r.error.Some? then r else Insert(r.arena, base, y))
    decreases |x|
  {
    if |x| == 0 {
      assert x + y == y;
    } else {
      assert (x + y)[0] == x[0];
      assert (x + y)[1..] == x[1..] + y;
      if x[0].0 !in a.indexById {
        InsertAppend(Arena(a.nodes + [x[0].1], a.indexById[x[0].0 := base + |a.nodes|]), base, x[1..], y);
      }
    }
  }

  /** The recursive flattening inserts the element's preorder list. */
  lemma {:induction false} AppendElementInserts<Id, N, M>(a: Arena<Id, N, M>, base: nat, e: Element<Id, N, M>)
    ensures AppendElement(a, base, e) == Insert(a, base, Flat(e))
    decreases e, 1
  {
    match e
    case Leaf(id, node, meta) =>
      var one := Flat(e);
      assert |one[1..]| == 0;
    case Branch(id, children, meta) =>
      var flat := Flat(e);
      assert flat[0].0 == id;
      if id !in a.indexById {
        assert flat[1..] == FlatAll(children);
        AppendAllInserts(Arena(a.nodes + [Node.Branch(RootIds(children), meta)], a.indexById[id := base + |a.nodes|]), base, children);
      }
  }

  lemma {:induction false} AppendAllInserts<Id, N, M>(a: Arena<Id, N, M>, base: nat, children: seq<Element<Id, N, M>>)
    ensures AppendAll(a, base, children) == Insert(a, base, FlatAll(children))
    decreases children, 0
  {
    if |children| > 0 {
      AppendElementInserts(a, base, children[0]);
      InsertAppend(a, base, Flat(children[0]), FlatAll(children[1..]));
      var r := AppendElement(a, base, children[0]);
      if r.error.None? {
        AppendAllInserts(r.arena, base, children[1..]);
      }
    }
  }

  // ---------------------------------------------------------------------
  // What insertion does
  // ---------------------------------------------------------------------

  /** The duplicate that stops an insertion: the first id already mapped or repeated in the list. */
  function Duplicate<Id>(seen: set<Id>, ids: seq<Id>): Option<TreeError<Id>> {
    match Causal.FirstRepeat(seen, ids)
    case None => None
    case Some(id) => Some(DuplicateId(id))
  }

  /** Insertion fails exactly at the first id that is already mapped or earlier in the list. */
  lemma {:induction false} InsertError<Id, N, M>(a: Arena<Id, N, M>, base: nat, items: seq<(Id, Node<Id, N, M>)>)
    ensures Insert(a, base, items).error == Duplicate(a.indexById.Keys, Ids(items))
    decreases |items|
  {
    if |items| > 0 {
      var id := items[0].0;
      assert Ids(items)[0] == id && Ids(items)[1..] == Ids(items[1..]);
      if id !in a.indexById {
        var a' := Arena(a.nodes + [items[0].1], a.indexById[id := base + |a.nodes|]);
        assert a'.indexById.Keys == a.indexById.Keys + {id};
        InsertError(a', base, items[1..]);
      }
    }
  }

  /** How many entries an insertion pushes before it stops. */
  function Pushed<Id, N, M>(a: Arena<Id, N, M>, base: nat, items: seq<(Id, Node<Id, N, M>)>): (n: nat)
    ensures n <= |items|
    decreases |items|
  {
    if |items| == 0 || items[0].0 in a.indexById then 0
    else 1 + Pushed(Arena(a.nodes + [items[0].1], a.indexById[items[0].0 := base + |a.nodes|]), base, items[1..])
  }

  /**
   * Nothing is rolled back: the arena after an insertion, failed or not,
   * is the old one followed by the nodes of the entries pushed.
   */
  lemma {:induction false} InsertPrefix<Id, N, M>(a: Arena<Id, N, M>, base: nat, items: seq<(Id, Node<Id, N, M>)>)
    ensures Insert(a, base, items).arena.nodes == a.nodes + Nodes(items[..Pushed(a, base, items)])
    decreases |items|
  {
    if |items| == 0 || items[0].0 in a.indexById {
      assert a.nodes + Nodes(items[..0]) == a.nodes;
    } else {
      var a' := Arena(a.nodes + [items[0].1], a.indexById[items[0].0 := base + |a.nodes|]);
      InsertPrefix(a', base, items[1..]);
      var k := Pushed(a', base, items[1..]);
      assert items[..k + 1] == [items[0]] + items[1..][..k];
      assert Nodes(items[..k + 1]) == [items[0].1] + Nodes(items[1..][..k]);
    }
  }

  /**
   * An insertion succeeds exactly when it pushes every entry; when it
   * fails it reports the id of the first entry it did not push.
   */
  lemma {:induction false} InsertStopsAt<Id, N, M>(a: Arena<Id, N, M>, base: nat, items: seq<(Id, Node<Id, N, M>)>)
    ensures var r := Insert(a, base, items);
            && (r.error.None? <==> Pushed(a, base, items) == |items|)
            && (r.error.Some? ==> r.error == Some(DuplicateId(items[Pushed(a, base, items)].0)))
    decreases |items|
  {
    if |items| > 0 && items[0].0 !in a.indexById {
      var a' := Arena(a.nodes + [items[0].1], a.indexById[items[0].0 := base + |a.nodes|]);
      InsertStopsAt(a', base, items[1..]);
      var k := Pushed(a', base, items[1..]);
      if k < |items[1..]| {
        assert items[k + 1] == items[1..][k];
      }
    }
  }

  /** A successful insertion appends every node of the list. */
  lemma {:induction false} InsertOkNodes<Id, N, M>(a: Arena<Id, N, M>, base: nat, items: seq<(Id, Node<Id, N, M>)>)
    requires Insert(a, base, items).error.None?
    ensures Insert(a, base, items).arena.nodes == a.nodes + Nodes(items)
    decreases |items|
  {
    if |items| > 0 {
      InsertOkNodes(Arena(a.nodes + [items[0].1], a.indexById[items[0].0 := base + |a.nodes|]), base, items[1..]);
      assert Nodes(items) == [items[0].1] + Nodes(items[1..]);
    }
  }

  /** A successful insertion maps the old ids and the list's ids, and no others. */
  lemma {:induction false} InsertOkKeys<Id, N, M>(a: Arena<Id, N, M>, base: nat, items: seq<(Id, Node<Id, N, M>)>)
    requires Insert(a, base, items).error.None?
    ensures Insert(a, base, items).arena.indexById.Keys == a.indexById.Keys + Causal.IdSet(Ids(items))
    decreases |items|
  {
    if |items| > 0 {
      var id := items[0].0;
      InsertOkKeys(Arena(a.nodes + [items[0].1], a.indexById[id := base + |a.nodes|]), base, items[1..]);
      assert Ids(items) == [id] + Ids(items[1..]);
      Causal.IdSetCons(id, Ids(items[1..]));
    }
  }

  /** Insertion, failed or not, never moves an id the map already had. */
  lemma {:induction false} InsertKeepsOld<Id, N, M>(a: Arena<Id, N, M>, base: nat, items: seq<(Id, Node<Id, N, M>)>)
    ensures var r := Insert(a, base, items).arena;
            forall k | k in a.indexById :: k in r.indexById && r.indexById[k] == a.indexById[k]
    decreases |items|
  {
    if |items| > 0 && items[0].0 !in a.indexById {
      var a' := Arena(a.nodes + [items[0].1], a.indexById[items[0].0 := base + |a.nodes|]);
      InsertKeepsOld(a', base, items[1..]);
      assert forall k | k in a.indexById :: k in a'.indexById && a'.indexById[k] == a.indexById[k];
    }
  }

  /** A successful insertion maps each entry's id to `base` plus the position of its node. */
  lemma {:induction false} InsertOkIndex<Id, N, M>(a: Arena<Id, N, M>, base: nat, items: seq<(Id, Node<Id, N, M>)>)
    requires Insert(a, base, items).error.None?
    ensures var r := Insert(a, base, items).arena;
            forall i | 0 <= i < |items| :: items[i].0 in r.indexById && r.indexById[items[i].0] == base + |a.nodes| + i
    decreases |items|
  {
    if |items| > 0 {
      var a' := Arena(a.nodes + [items[0].1], a.indexById[items[0].0 := base + |a.nodes|]);
      InsertOkIndex(a', base, items[1..]);
      InsertKeepsOld(a', base, items[1..]);
      var r := Insert(a, base, items).arena;
      forall i | 0 <= i < |items| ensures items[i].0 in r.indexById && r.indexById[items[i].0] == base + |a.nodes| + i {
        if i > 0 {
          assert items[i] == items[1..][i - 1];
        }
      }
    }
  }

  /** With no id seen before and none repeated, there is no first repeat. */
  lemma {:induction false} UniqueNoRepeat<Id>(seen: set<Id>, ids: seq<Id>)
    requires Causal.IdSet(ids) !! seen && Causal.Unique(ids)
    ensures Causal.FirstRepeat(seen, ids).None?
    decreases |ids|
  {
    if |ids| > 0 {
      assert ids[0] in Causal.IdSet(ids);
      assert forall j | 0 <= j < |ids[1..]| :: ids[1..][j] == ids[j + 1];
      assert Causal.IdSet(ids[1..]) !! (seen + {ids[0]});
      UniqueNoRepeat(seen + {ids[0]}, ids[1..]);
    }
  }

  // ---------------------------------------------------------------------
  // Building and querying a tree
  // ---------------------------------------------------------------------

  /** Flatten the root element into a fresh arena; the tree's root is the root element's id. */
  function FromElements<Id, N, M>(root: Element<Id, N, M>): Result<Tree<Id, N, M>, TreeError<Id>> {
    var r := AppendElement(Arena([], map[]), 0, root);
    if r.error.Some? then Err(r.error.value) else Ok(Tree(r.arena.nodes, r.arena.indexById, root.id))
  }

  /**
   * A tree is built exactly when the root element's ids, in preorder, are
   * all different; otherwise the error names the first id met a second time.
   */
  lemma FromElementsError<Id, N, M>(root: Element<Id, N, M>)
    ensures FromElements(root).Ok? <==> Causal.Unique(Ids(Flat(root)))
    ensures FromElements(root).Err? ==> Some(FromElements(root).error) == Duplicate({}, Ids(Flat(root)))
  {
    var a: Arena<Id, N, M> := Arena([], map[]);
    AppendElementInserts(a, 0, root);
    InsertError(a, 0, Flat(root));
    assert a.indexById.Keys == {};
    if Causal.FirstRepeat({}, Ids(Flat(root))).None? {
      Causal.FirstRepeatNone({}, Ids(Flat(root)));
    }
    if Causal.Unique(Ids(Flat(root))) {
      UniqueNoRepeat({}, Ids(Flat(root)));
    }
  }

  /** Building a tree is inserting the root element's preorder list into an empty arena. */
  lemma FromElementsInserts<Id, N, M>(root: Element<Id, N, M>)
    ensures var r := Insert(Arena([], map[]), 0, Flat(root));
            FromElements(root) == if r.error.Some? then Err(r.error.value) else Ok(Tree(r.arena.nodes, r.arena.indexById, root.id))
  {
    AppendElementInserts(Arena([], map[]), 0, root);
  }

  /** A built tree holds the root element's nodes in preorder and is rooted at its id. */
  lemma FromElementsNodes<Id, N, M>(root: Element<Id, N, M>)
    requires FromElements(root).Ok?
    ensures FromElements(root).value.rootId == root.id
    ensures FromElements(root).value.nodes == Nodes(Flat(root))
  {
    FromElementsInserts(root);
    InsertOkNodes(Arena([], map[]), 0, Flat(root));
  }

  /** A built tree maps each of the root element's ids to the position of its own node, and no other id. */
  lemma FromElementsIndex<Id, N, M>(root: Element<Id, N, M>)
    requires FromElements(root).Ok?
    ensures var t := FromElements(root).value;
            && t.indexById.Keys == Causal.IdSet(Ids(Flat(root)))
            && forall i | 0 <= i < |Flat(root)| :: Flat(root)[i].0 in t.indexById && t.indexById[Flat(root)[i].0] == i
  {
    var items := Flat(root);
    var a: Arena<Id, N, M> := Arena([], map[]);
    FromElementsInserts(root);
    InsertOkKeys(a, 0, items);
    InsertOkIndex(a, 0, items);
  }

  /** Every mapped id points inside the node list (the program would panic otherwise). */
  ghost predicate Indexed<Id, N, M>(t: Tree<Id, N, M>) {
    forall id | id in t.indexById :: t.indexById[id] < |t.nodes|
  }

  function Contains<Id, N, M>(t: Tree<Id, N, M>, id: Id): (r: bool)
    ensures r <==> id in t.indexById.Keys
  {
    id in t.indexById
  }

  function Get<Id, N, M>(t: Tree<Id, N, M>, id: Id): (r: Option<Node<Id, N, M>>)
    requires Indexed(t)
    ensures r.Some? <==> Contains(t, id)
    ensures r.Some? ==> r.value == t.nodes[t.indexById[id]]
  {
    if id in t.indexById then Some(t.nodes[t.indexById[id]]) else None
  }

  /** In a tree built from an element, looking up any of its ids finds that id's own node. */
  lemma FromElementsGet<Id, N, M>(root: Element<Id, N, M>, i: nat)
    requires FromElements(root).Ok? && i < |Flat(root)|
    ensures Indexed(FromElements(root).value)
    ensures Get(FromElements(root).value, Flat(root)[i].0) == Some(Flat(root)[i].1)
  {
    FromElementsNodes(root);
    FromElementsIndex(root);
    var t := FromElements(root).value;
    forall id | id in t.indexById ensures t.indexById[id] < |t.nodes| {
      var j :| 0 <= j < |Ids(Flat(root))| && Ids(Flat(root))[j] == id;
      assert Flat(root)[j].0 == id;
    }
  }

  // ---------------------------------------------------------------------
  // Adding children
  // ---------------------------------------------------------------------

  /**
   * Flatten new elements into the arena and append their ids to a
   * branch's children. The arena is changed in place, so an error after
   * some elements were flattened leaves them in it; the parent's list is
   * only extended when every element went in.
   */
  function AddChildren<Id, N, M>(t: Tree<Id, N, M>, parent: Id, elements: seq<Element<Id, N, M>>)
    : (Tree<Id, N, M>, Result<(), TreeError<Id>>)
    requires Indexed(t)
  {
    if parent !in t.indexById then (t, Err(MissingId(parent)))
    else
      var p := t.indexById[parent];
      if !t.nodes[p].Branch? then (t, Err(NotABranch(parent)))
      else
        var r := AppendAll(Arena(t.nodes, t.indexById), 0, elements);
        if r.error.Some? then (Tree(r.arena.nodes, r.arena.indexById, t.rootId), Err(r.error.value))
        else
          var extended := Node.Branch(t.nodes[p].children + RootIds(elements), t.nodes[p].meta);
          (Tree(r.arena.nodes[p := extended], r.arena.indexById, t.rootId), Ok(()))
  }

  /**
   * Adding children fails, leaving the tree as it was, when the parent is
   * unknown or is a leaf; it fails with the first repeated id (checked
   * against the whole tree) when the new elements repeat one; otherwise
   * it succeeds.
   */
  lemma AddChildrenOutcome<Id, N, M>(t: Tree<Id, N, M>, parent: Id, elements: seq<Element<Id, N, M>>)
    requires Indexed(t)
    ensures var (t', r) := AddChildren(t, parent, elements);
            && (parent !in t.indexById ==> t' == t && r == Err(MissingId(parent)))
            && (parent in t.indexById && t.nodes[t.indexById[parent]].Leaf? ==> t' == t && r == Err(NotABranch(parent)))
            && (parent in t.indexById && t.nodes[t.indexById[parent]].Branch? ==>
                  r.Err? == Duplicate(t.indexById.Keys, Ids(FlatAll(elements))).Some?
                  && (r.Err? ==> Some(r.error) == Duplicate(t.indexById.Keys, Ids(FlatAll(elements)))))
  {
    var a := Arena(t.nodes, t.indexById);
    AppendAllInserts(a, 0, elements);
    InsertError(a, 0, FlatAll(elements));
  }

  /**
   * A failed addition under a branch is not rolled back: the node list
   * is the old one followed by the nodes flattened before the repeated
   * id, which is the error, and the parent's children are unchanged.
   */
  lemma AddChildrenNoRollback<Id, N, M>(t: Tree<Id, N, M>, parent: Id, elements: seq<Element<Id, N, M>>)
    requires Indexed(t)
    requires parent in t.indexById && t.nodes[t.indexById[parent]].Branch?
    requires AddChildren(t, parent, elements).1.Err?
    ensures var t' := AddChildren(t, parent, elements).0;
            var k := Pushed(Arena(t.nodes, t.indexById), 0, FlatAll(elements));
            && k < |FlatAll(elements)|
            && t'.rootId == t.rootId
            && t'.nodes == t.nodes + Nodes(FlatAll(elements)[..k])
            && AddChildren(t, parent, elements).1 == Err(DuplicateId(FlatAll(elements)[k].0))
  {
    var a := Arena(t.nodes, t.indexById);
    AppendAllInserts(a, 0, elements);
    InsertPrefix(a, 0, FlatAll(elements));
    InsertStopsAt(a, 0, FlatAll(elements));
  }

  /**
   * A successful addition appends the new elements' nodes after the old
   * ones, maps their ids to those positions, keeps every old id where it
   * was, and appends the new root ids, in order, to the parent's children;
   * no other node changes.
   */
  lemma AddChildrenOk<Id, N, M>(t: Tree<Id, N, M>, parent: Id, elements: seq<Element<Id, N, M>>)
    requires Indexed(t)
    requires AddChildren(t, parent, elements).1.Ok?
    ensures parent in t.indexById && t.nodes[t.indexById[parent]].Branch?
    ensures var t' := AddChildren(t, parent, elements).0;
            var p := t.indexById[parent];
            var items := FlatAll(elements);
            && t'.rootId == t.rootId
            && |t'.nodes| == |t.nodes| + |items|
            && t'.nodes[p] == Node.Branch(t.nodes[p].children + RootIds(elements), t.nodes[p].meta)
            && (forall i | 0 <= i < |t.nodes| && i != p :: t'.nodes[i] == t.nodes[i])
            && t'.nodes[|t.nodes|..] == Nodes(items)
            && (forall k | k in t.indexById :: k in t'.indexById && t'.indexById[k] == t.indexById[k])
            && (forall i | 0 <= i < |items| :: items[i].0 in t'.indexById && t'.indexById[items[i].0] == |t.nodes| + i)
            && t'.indexById.Keys == t.indexById.Keys + Causal.IdSet(Ids(items))
  {
    var a := Arena(t.nodes, t.indexById);
    AppendAllInserts(a, 0, elements);
    InsertOkNodes(a, 0, FlatAll(elements));
    InsertOkKeys(a, 0, FlatAll(elements));
    InsertKeepsOld(a, 0, FlatAll(elements));
    InsertOkIndex(a, 0, FlatAll(elements));
  }

  // ---------------------------------------------------------------------
  // Mapping leaf payloads
  // ---------------------------------------------------------------------

  /** Same ids, same root, and node by node the same kind, children and meta. */
  ghost predicate SameShape<Id, N, N2, M>(t: Tree<Id, N, M>, t': Tree<Id, N2, M>) {
    && t'.rootId == t.rootId
    && t'.indexById == t.indexById
    && |t'.nodes| == |t.nodes|
    && forall i | 0 <= i < |t.nodes| ::
         && t'.nodes[i].Branch? == t.nodes[i].Branch?
         && t'.nodes[i].meta == t.nodes[i].meta
         && (t.nodes[i].Branch? ==> t'.nodes[i].children == t.nodes[i].children)
  }

  function MapNode<Id, N, N2, M>(node: Node<Id, N, M>, f: N -> N2): Node<Id, N2, M> {
    match node
    case Branch(children, meta) => Node.Branch(children, meta)
    case Leaf(payload, meta) => Node.Leaf(if payload.Some? then Some(f(payload.value)) else None, meta)
  }

  function MapOptionNode<Id, N, N2, M>(node: Node<Id, N, M>, f: N -> Option<N2>): Node<Id, N2, M> {
    match node
    case Branch(children, meta) => Node.Branch(children, meta)
    case Leaf(payload, meta) => Node.Leaf(if payload.Some? then f(payload.value) else None, meta)
  }

  function MapNodes<Id, N, N2, M>(nodes: seq<Node<Id, N, M>>, f: N -> N2): (r: seq<Node<Id, N2, M>>)
    ensures |r| == |nodes| && forall i | 0 <= i < |nodes| :: r[i] == MapNode(nodes[i], f)
  {
    if |nodes| == 0 then [] else [MapNode(nodes[0], f)] + MapNodes(nodes[1..], f)
  }

  /** Map every present leaf payload; everything else is kept. */
  function Map<Id, N, N2, M>(t: Tree<Id, N, M>, f: N -> N2): (r: Tree<Id, N2, M>)
    ensures SameShape(t, r)
    ensures forall i | 0 <= i < |t.nodes| && t.nodes[i].Leaf? ::
              r.nodes[i].node == if t.nodes[i].node.Some? then Some(f(t.nodes[i].node.value)) else None
  {
    Tree(MapNodes(t.nodes, f), t.indexById, t.rootId)
  }

  /** Map every present leaf payload to an optional one; absent payloads stay absent. */
  function MapOption<Id, N, N2, M>(t: Tree<Id, N, M>, f: N -> Option<N2>): (r: Tree<Id, N2, M>)
    ensures SameShape(t, r)
    ensures forall i | 0 <= i < |t.nodes| && t.nodes[i].Leaf? ::
              r.nodes[i].node == if t.nodes[i].node.Some? then f(t.nodes[i].node.value) else None
  {
    Tree(seq(|t.nodes|, i requires 0 <= i < |t.nodes| => MapOptionNode(t.nodes[i], f)), t.indexById, t.rootId)
  }

  /** Mapping twice is mapping once with the composition. */
  lemma MapCompose<Id, N, N2, N3, M>(t: Tree<Id, N, M>, f: N -> N2, g: N2 -> N3)
    ensures Map(Map(t, f), g) == Map(t, x => g(f(x)))
  {
  }

  /** Mapping is mapping to payloads that are always present. */
  lemma MapIsMapOption<Id, N, N2, M>(t: Tree<Id, N, M>, f: N -> N2)
    ensures Map(t, f) == MapOption(t, x => Some(f(x)))
  {
  }

  /** A leaf whose mapping did not fail: every leaf except a present payload the function rejects. */
  predicate Mapped<Id, N, N2, M, E>(node: Node<Id, N, M>, f: N -> Result<N2, E>) {
    node.Branch? || node.node.None? || f(node.node.value).Ok?
  }

  function MapResultNode<Id, N, N2, M, E>(node: Node<Id, N, M>, f: N -> Result<N2, E>): Result<Node<Id, N2, M>, E> {
    match node
    case Branch(children, meta) => Ok(Node.Branch(children, meta))
    case Leaf(None, meta) => Ok(Node.Leaf(None, meta))
    case Leaf(Some(x), meta) => if f(x).Err? then Err(f(x).error) else Ok(Node.Leaf(Some(f(x).value), meta))
  }

  /** Map the payloads in node order, stopping at the first rejected one. */
  function MapResultNodes<Id, N, N2, M, E>(nodes: seq<Node<Id, N, M>>, f: N -> Result<N2, E>): (r: Result<seq<Node<Id, N2, M>>, E>)
    ensures r.Ok? <==> forall i | 0 <= i < |nodes| :: Mapped(nodes[i], f)
    ensures r.Ok? ==> |r.value| == |nodes|
    ensures r.Err? ==> exists i | 0 <= i < |nodes| ::
                         && (forall j | 0 <= j < i :: Mapped(nodes[j], f))
                         && nodes[i].Leaf? && nodes[i].node.Some? && f(nodes[i].node.value) == Err(r.error)
  {
    if |nodes| == 0 then Ok([])
    else
      var head := MapResultNode(nodes[0], f);
      if head.Err? then Err(head.error)
      else match MapResultNodes(nodes[1..], f)
        case Err(e) =>
          ghost var i :| 0 <= i < |nodes[1..]| && (forall j | 0 <= j < i :: Mapped(nodes[1..][j], f))
                   && nodes[1..][i].Leaf? && nodes[1..][i].node.Some? && f(nodes[1..][i].node.value) == Err(e);
          assert forall j | 1 <= j < i + 1 :: nodes[j] == nodes[1..][j - 1];
          assert nodes[i + 1] == nodes[1..][i];
          Err(e)
        case Ok(rest) =>
          assert forall j | 1 <= j < |nodes| :: nodes[j] == nodes[1..][j - 1];
          Ok([head.value] + rest)
  }

  /**
   * Map every present payload with a function that may fail: the first
   * failure in node order is the error; otherwise the tree is mapped.
   */
  function MapResult<Id, N, N2, M, E>(t: Tree<Id, N, M>, f: N -> Result<N2, E>): (r: Result<Tree<Id, N2, M>, E>)
    ensures r.Ok? <==> forall i | 0 <= i < |t.nodes| :: Mapped(t.nodes[i], f)
    ensures r.Err? ==> exists i | 0 <= i < |t.nodes| ::
                         && (forall j | 0 <= j < i :: Mapped(t.nodes[j], f))
                         && t.nodes[i].Leaf? && t.nodes[i].node.Some? && f(t.nodes[i].node.value) == Err(r.error)
  {
    match MapResultNodes(t.nodes, f)
    case Err(e) => Err(e)
    case Ok(nodes) => Ok(Tree(nodes, t.indexById, t.rootId))
  }

  lemma {:induction false} MapResultNodesTotal<Id, N, N2, M, E>(nodes: seq<Node<Id, N, M>>, f: N -> Result<N2, E>, g: N -> N2)
    requires forall x :: f(x) == Ok(g(x))
    ensures MapResultNodes(nodes, f) == Ok(MapNodes(nodes, g))
  {
    if |nodes| > 0 {
      MapResultNodesTotal(nodes[1..], f, g);
      assert MapResultNode(nodes[0], f) == Ok(MapNode(nodes[0], g));
    }
  }

  /** When no payload is rejected, mapping with failure is plain mapping. */
  lemma MapResultTotal<Id, N, N2, M, E>(t: Tree<Id, N, M>, f: N -> Result<N2, E>, g: N -> N2)
    requires forall x :: f(x) == Ok(g(x))
    ensures MapResult(t, f) == Ok(Map(t, g))
  {
    MapResultNodesTotal(t.nodes, f, g);
  }

  // ---------------------------------------------------------------------
  // Expanding leaves into subtrees
  // ---------------------------------------------------------------------

  /** The elements each present payload expands to, concatenated in node order. */
  function Expansion<Id, N, N2, M>(nodes: seq<Node<Id, N, M>>, f: N -> seq<Element<Id, N2, M>>): seq<Element<Id, N2, M>> {
    if |nodes| == 0 then []
    else if nodes[0].Leaf? && nodes[0].node.Some? then f(nodes[0].node.value) + Expansion(nodes[1..], f)
    else Expansion(nodes[1..], f)
  }

  /** A node after expansion: a present payload becomes a branch over its elements' ids. */
  function Reshape<Id, N, N2, M>(node: Node<Id, N, M>, f: N -> seq<Element<Id, N2, M>>): Node<Id, N2, M> {
    match node
    case Branch(children, meta) => Node.Branch(children, meta)
    case Leaf(None, meta) => Node.Leaf(None, meta)
    case Leaf(Some(x), meta) => Node.Branch(RootIds(f(x)), meta)
  }

  function Reshaped<Id, N, N2, M>(nodes: seq<Node<Id, N, M>>, f: N -> seq<Element<Id, N2, M>>): (r: seq<Node<Id, N2, M>>)
    ensures |r| == |nodes| && forall i | 0 <= i < |nodes| :: r[i] == Reshape(nodes[i], f)
  {
    if |nodes| == 0 then [] else [Reshape(nodes[0], f)] + Reshaped(nodes[1..], f)
  }

  /**
   * The program's expansion loop, shared by both expanding maps: walk the
   * original nodes in order; a present payload is expanded by `g` (whose
   * error aborts), its elements are flattened into the tail arena at
   * `base` (a repeated id aborts, reported through `dup`), and the node
   * becomes a branch over the elements' ids. Returns the rewritten
   * original nodes and the tail arena.
   */
  function Expand<Id, N, N2, M, E>(nodes: seq<Node<Id, N, M>>, base: nat, a: Arena<Id, N2, M>,
                                   g: N -> Result<seq<Element<Id, N2, M>>, E>, dup: TreeError<Id> -> E)
    : Result<(seq<Node<Id, N2, M>>, Arena<Id, N2, M>), E>
    decreases |nodes|
  {
    if |nodes| == 0 then Ok(([], a))
    else match nodes[0]
      case Branch(children, meta) =>
        var rest := Expand(nodes[1..], base, a, g, dup);
        if rest.Err? then rest else Ok(([Node.Branch(children, meta)] + rest.value.0, rest.value.1))
      case Leaf(None, meta) =>
        var rest := Expand(nodes[1..], base, a, g, dup);
        if rest.Err? then rest else Ok(([Node.Leaf(None, meta)] + rest.value.0, rest.value.1))
      case Leaf(Some(x), meta) =>
        match g(x)
        case Err(e) => Err(e)
        case Ok(elements) =>
          var r := AppendAll(a, base, elements);
          if r.error.Some? then Err(dup(r.error.value))
          else
            var rest := Expand(nodes[1..], base, r.arena, g, dup);
            if rest.Err? then rest else Ok(([Node.Branch(RootIds(elements), meta)] + rest.value.0, rest.value.1))
  }

  lemma {:induction false} FlatAllAppend<Id, N, M>(x: seq<Element<Id, N, M>>, y: seq<Element<Id, N, M>>)
    ensures FlatAll(x + y) == FlatAll(x) + FlatAll(y)
  {
    if |x| == 0 {
      assert x + y == y;
    } else {
      assert (x + y)[0] == x[0] && (x + y)[1..] == x[1..] + y;
      FlatAllAppend(x[1..], y);
    }
  }

  /**
   * With an expansion that never fails, the loop is one insertion of the
   * flattened expansion: it fails with the first repeated id, and
   * otherwise rewrites each node by `Reshape`.
   */
  lemma {:induction false} ExpandTotal<Id, N, N2, M, E>(nodes: seq<Node<Id, N, M>>, base: nat, a: Arena<Id, N2, M>,
                                                        g: N -> Result<seq<Element<Id, N2, M>>, E>, dup: TreeError<Id> -> E,
                                                        f: N -> seq<Element<Id, N2, M>>)
    requires forall x :: g(x) == Ok(f(x))
    ensures Expand(nodes, base, a, g, dup)
         == (var r := Insert(a, base, FlatAll(Expansion(nodes, f)));
             if r.error.Some? then Err(dup(r.error.value)) else Ok((Reshaped(nodes, f), r.arena)))
    decreases |nodes|
  {
    if |nodes| > 0 {
      var rest := Expansion(nodes[1..], f);
      if nodes[0].Leaf? && nodes[0].node.Some? {
        var x := nodes[0].node.value;
        assert g(x) == Ok(f(x));
        AppendAllInserts(a, base, f(x));
        FlatAllAppend(f(x), rest);
        InsertAppend(a, base, FlatAll(f(x)), FlatAll(rest));
        var r := AppendAll(a, base, f(x));
        if r.error.None? {
          ExpandTotal(nodes[1..], base, r.arena, g, dup, f);
        }
      } else {
        ExpandTotal(nodes[1..], base, a, g, dup, f);
      }
    }
  }

  /** An error the expansion function did not produce can only be a reported repeated id. */
  lemma {:induction false} ExpandError<Id, N, N2, M, E>(nodes: seq<Node<Id, N, M>>, base: nat, a: Arena<Id, N2, M>,
                                                        g: N -> Result<seq<Element<Id, N2, M>>, E>, dup: TreeError<Id> -> E)
    requires Expand(nodes, base, a, g, dup).Err?
    ensures || (exists i | 0 <= i < |nodes| ::
                  nodes[i].Leaf? && nodes[i].node.Some? && g(nodes[i].node.value) == Err(Expand(nodes, base, a, g, dup).error))
            || (exists id :: Expand(nodes, base, a, g, dup).error == dup(DuplicateId(id)))
    decreases |nodes|
  {
    var e := Expand(nodes, base, a, g, dup).error;
    if nodes[0].Leaf? && nodes[0].node.Some? && g(nodes[0].node.value).Err? {
      assert g(nodes[0].node.value) == Err(e);
    } else {
      var a' := a;
      if nodes[0].Leaf? && nodes[0].node.Some? {
        var r := AppendAll(a, base, g(nodes[0].node.value).value);
        AppendAllInserts(a, base, g(nodes[0].node.value).value);
        InsertError(a, base, FlatAll(g(nodes[0].node.value).value));
        if r.error.Some? {
          assert r.error.value == DuplicateId(r.error.value.id);
          return;
        }
        a' := r.arena;
      }
      ExpandError(nodes[1..], base, a', g, dup);
      if exists i | 0 <= i < |nodes[1..]| :: nodes[1..][i].Leaf? && nodes[1..][i].node.Some? && g(nodes[1..][i].node.value) == Err(e) {
        var i :| 0 <= i < |nodes[1..]| && nodes[1..][i].Leaf? && nodes[1..][i].node.Some? && g(nodes[1..][i].node.value) == Err(e);
        assert nodes[i + 1] == nodes[1..][i];
      }
    }
  }

  /**
   * Replace every present payload by a branch over the elements the
   * function returns, flattened after all original nodes; ids stay where
   * they were. A repeated id, also against the original ids, is an error.
   */
  function MapTree<Id, N, N2, M>(t: Tree<Id, N, M>, f: N -> seq<Element<Id, N2, M>>): Result<Tree<Id, N2, M>, TreeError<Id>> {
    match Expand(t.nodes, |t.nodes|, Arena([], t.indexById), x => Ok(f(x)), e => e)
    case Err(e) => Err(e)
    case Ok((prefix, tail)) => Ok(Tree(prefix + tail.nodes, tail.indexById, t.rootId))
  }

  /** The same expansion with a function that may fail; its errors and repeated ids are told apart. */
  function MapTreeResult<Id, N, N2, M, E>(t: Tree<Id, N, M>, f: N -> Result<seq<Element<Id, N2, M>>, E>)
    : Result<Tree<Id, N2, M>, TreeMapError<Id, E>>
  {
    match Expand(t.nodes, |t.nodes|, Arena([], t.indexById), x => f(x).MapError(e => User(e)), e => Structural(e))
    case Err(e) => Err(e)
    case Ok((prefix, tail)) => Ok(Tree(prefix + tail.nodes, tail.indexById, t.rootId))
  }

  /**
   * Expanding fails exactly when the expansion, flattened in node order,
   * repeats an id or reuses an original one, and then with the first such id.
   */
  lemma MapTreeError<Id, N, N2, M>(t: Tree<Id, N, M>, f: N -> seq<Element<Id, N2, M>>)
    ensures MapTree(t, f).Err? <==> Duplicate(t.indexById.Keys, Ids(FlatAll(Expansion(t.nodes, f)))).Some?
    ensures MapTree(t, f).Err? ==> Some(MapTree(t, f).error) == Duplicate(t.indexById.Keys, Ids(FlatAll(Expansion(t.nodes, f))))
  {
    var a: Arena<Id, N2, M> := Arena([], t.indexById);
    ExpandTotal(t.nodes, |t.nodes|, a, x => Ok(f(x)), e => e, f);
    InsertError(a, |t.nodes|, FlatAll(Expansion(t.nodes, f)));
  }

  lemma MapTreeInserts<Id, N, N2, M>(t: Tree<Id, N, M>, f: N -> seq<Element<Id, N2, M>>)
    ensures var r := Insert(Arena([], t.indexById), |t.nodes|, FlatAll(Expansion(t.nodes, f)));
            MapTree(t, f) == if r.error.Some? then Err(r.error.value)
                             else Ok(Tree(Reshaped(t.nodes, f) + r.arena.nodes, r.arena.indexById, t.rootId))
  {
    ExpandTotal(t.nodes, |t.nodes|, Arena([], t.indexById), x => Ok(f(x)), e => e, f);
  }

  /**
   * A successful expansion keeps the root and every original node's
   * position, turns each present payload into a branch with the same meta
   * over the returned elements' ids, and appends the flattened elements
   * after the original nodes.
   */
  lemma MapTreeNodes<Id, N, N2, M>(t: Tree<Id, N, M>, f: N -> seq<Element<Id, N2, M>>)
    requires MapTree(t, f).Ok?
    ensures MapTree(t, f).value.rootId == t.rootId
    ensures MapTree(t, f).value.nodes == Reshaped(t.nodes, f) + Nodes(FlatAll(Expansion(t.nodes, f)))
  {
    MapTreeInserts(t, f);
    InsertOkNodes(Arena([], t.indexById), |t.nodes|, FlatAll(Expansion(t.nodes, f)));
  }

  /** A successful expansion keeps every original id's position and maps each new id to its node's. */
  lemma MapTreeIndex<Id, N, N2, M>(t: Tree<Id, N, M>, f: N -> seq<Element<Id, N2, M>>)
    requires MapTree(t, f).Ok?
    ensures var t' := MapTree(t, f).value;
            var items := FlatAll(Expansion(t.nodes, f));
            && (forall k | k in t.indexById :: k in t'.indexById && t'.indexById[k] == t.indexById[k])
            && (forall i | 0 <= i < |items| :: items[i].0 in t'.indexById && t'.indexById[items[i].0] == |t.nodes| + i)
            && t'.indexById.Keys == t.indexById.Keys + Causal.IdSet(Ids(items))
  {
    var a: Arena<Id, N2, M> := Arena([], t.indexById);
    var items := FlatAll(Expansion(t.nodes, f));
    MapTreeInserts(t, f);
    InsertOkKeys(a, |t.nodes|, items);
    InsertKeepsOld(a, |t.nodes|, items);
    InsertOkIndex(a, |t.nodes|, items);
  }

  /** With a function that never fails, the fallible expansion is the plain one, its repeated ids reported as structural. */
  lemma MapTreeResultTotal<Id, N, N2, M, E>(t: Tree<Id, N, M>, g: N -> Result<seq<Element<Id, N2, M>>, E>, f: N -> seq<Element<Id, N2, M>>)
    requires forall x :: g(x) == Ok(f(x))
    ensures MapTreeResult(t, g) == MapTree(t, f).MapError(e => Structural(e))
  {
    var a: Arena<Id, N2, M> := Arena([], t.indexById);
    var g': N -> Result<seq<Element<Id, N2, M>>, TreeMapError<Id, E>> := x => g(x).MapError(e => User(e));
    ExpandTotal(t.nodes, |t.nodes|, a, x => Ok(f(x)), e => e, f);
    ExpandTotal(t.nodes, |t.nodes|, a, g', e => Structural(e), f);
  }

  /** A user error from the fallible expansion is the function's own error on some present payload. */
  lemma MapTreeResultUser<Id, N, N2, M, E>(t: Tree<Id, N, M>, g: N -> Result<seq<Element<Id, N2, M>>, E>)
    requires MapTreeResult(t, g).Err? && MapTreeResult(t, g).error.User?
    ensures exists i | 0 <= i < |t.nodes| ::
              t.nodes[i].Leaf? && t.nodes[i].node.Some? && g(t.nodes[i].node.value) == Err(MapTreeResult(t, g).error.user)
  {
    var a: Arena<Id, N2, M> := Arena([], t.indexById);
    var g': N -> Result<seq<Element<Id, N2, M>>, TreeMapError<Id, E>> := x => g(x).MapError(e => User(e));
    var dup: TreeError<Id> -> TreeMapError<Id, E> := e => Structural(e);
    ExpandError(t.nodes, |t.nodes|, a, g', dup);
    var e := MapTreeResult(t, g).error;
    var i :| 0 <= i < |t.nodes| && t.nodes[i].Leaf? && t.nodes[i].node.Some? && g'(t.nodes[i].node.value) == Err(e);
    assert g(t.nodes[i].node.value) == Err(e.user);
  }

  // ---------------------------------------------------------------------
  // Back to nested elements
  // ---------------------------------------------------------------------

  /**
   * Every child a branch names, if mapped, sits after the branch. Trees
   * built from elements, extended or expanded have this shape, and it is
   * what makes rebuilding nested elements terminate.
   */
  ghost predicate Forward<Id, N, M>(t: Tree<Id, N, M>) {
    && Indexed(t)
    && forall p, j | 0 <= p < |t.nodes| && t.nodes[p].Branch? && 0 <= j < |t.nodes[p].children| && t.nodes[p].children[j] in t.indexById ::
         t.indexById[t.nodes[p].children[j]] > p
  }

  /**
   * The element under an id: nothing for an unmapped id or an absent
   * payload, a leaf for a present one, and a branch over the children
   * that are kept, in order, unless none is.
   */
  function Build<Id, N, M>(t: Tree<Id, N, M>, id: Id): Option<Element<Id, N, M>>
    requires Forward(t)
    decreases if id in t.indexById then |t.nodes| - t.indexById[id] else 0, 1, 0
  {
    if id !in t.indexById then None
    else
      var p := t.indexById[id];
      match t.nodes[p]
      case Leaf(None, _) => None
      case Leaf(Some(node), meta) => Some(Element.Leaf(id, node, meta))
      case Branch(children, meta) =>
        var kept := BuildChildren(t, p, 0);
        if |kept| == 0 then None else Some(Element.Branch(id, kept, meta))
  }

  /** The kept elements of the children of the branch at `p`, from the `k`-th on. */
  function BuildChildren<Id, N, M>(t: Tree<Id, N, M>, p: nat, k: nat): seq<Element<Id, N, M>>
    requires Forward(t) && p < |t.nodes| && t.nodes[p].Branch? && k <= |t.nodes[p].children|
    decreases |t.nodes| - p, 0, |t.nodes[p].children| - k
  {
    if k == |t.nodes[p].children| then []
    else
      var child := Build(t, t.nodes[p].children[k]);
      (if child.Some? then [child.value] else []) + BuildChildren(t, p, k + 1)
  }

  function ToElements<Id, N, M>(t: Tree<Id, N, M>): Option<Element<Id, N, M>>
    requires Forward(t)
  {
    Build(t, t.rootId)
  }

  /** Rebuild the arena from the pruned elements; nothing when the root is pruned away. */
  function Compact<Id, N, M>(t: Tree<Id, N, M>): Option<Tree<Id, N, M>>
    requires Forward(t)
  {
    match ToElements(t)
    case None => None
    case Some(e) => if FromElements(e).Ok? then Some(FromElements(e).value) else None
  }

  /** No branch without children, at any depth. */
  predicate NoEmpty<Id, N, M>(e: Element<Id, N, M>)
    decreases e
  {
    match e
    case Leaf(_, _, _) => true
    case Branch(_, children, _) => |children| > 0 && forall i | 0 <= i < |children| :: NoEmpty(children[i])
  }

  /**
   * The reference pruning on nested elements: map each payload to an
   * optional one, drop the leaves left without one and the branches left
   * without children, keeping the order of the rest.
   */
  function Prune<Id, N, N2, M>(e: Element<Id, N, M>, f: N -> Option<N2>): Option<Element<Id, N2, M>>
    decreases e, 1
  {
    match e
    case Leaf(id, node, meta) => if f(node).Some? then Some(Element.Leaf(id, f(node).value, meta)) else None
    case Branch(id, children, meta) =>
      var kept := PruneAll(children, f);
      if |kept| == 0 then None else Some(Element.Branch(id, kept, meta))
  }

  function PruneAll<Id, N, N2, M>(children: seq<Element<Id, N, M>>, f: N -> Option<N2>): seq<Element<Id, N2, M>>
    decreases children, 0
  {
    if |children| == 0 then []
    else
      var c := Prune(children[0], f);
      (if c.Some? then [c.value] else []) + PruneAll(children[1..], f)
  }

  /** What a rebuilt element looks like: it has the id asked for and no empty branch. */
  lemma {:induction false} BuildShape<Id, N, M>(t: Tree<Id, N, M>, id: Id)
    requires Forward(t) && Build(t, id).Some?
    ensures Build(t, id).value.id == id && NoEmpty(Build(t, id).value)
    decreases if id in t.indexById then |t.nodes| - t.indexById[id] else 0, 1, 0
  {
    var p := t.indexById[id];
    if t.nodes[p].Branch? {
      BuildChildrenShape(t, p, 0);
    }
  }

  lemma {:induction false} BuildChildrenShape<Id, N, M>(t: Tree<Id, N, M>, p: nat, k: nat)
    requires Forward(t) && p < |t.nodes| && t.nodes[p].Branch? && k <= |t.nodes[p].children|
    ensures forall i | 0 <= i < |BuildChildren(t, p, k)| :: NoEmpty(BuildChildren(t, p, k)[i])
    decreases |t.nodes| - p, 0, |t.nodes[p].children| - k
  {
    if k < |t.nodes[p].children| {
      var c := t.nodes[p].children[k];
      if Build(t, c).Some? {
        BuildShape(t, c);
      }
      BuildChildrenShape(t, p, k + 1);
    }
  }

  /**
   * The nodes of an element's preorder list sit at offset `o`, each as
   * the payload map `f` leaves it, and each id maps to its own node.
   */
  ghost predicate ItemsAt<Id, N, N2, M>(t: Tree<Id, N2, M>, o: nat, items: seq<(Id, Node<Id, N, M>)>, f: N -> Option<N2>) {
    && o + |items| <= |t.nodes|
    && forall i | 0 <= i < |items| ::
         items[i].0 in t.indexById && t.indexById[items[i].0] == o + i && t.nodes[o + i] == MapOptionNode(items[i].1, f)
  }

  lemma ItemsAtSplit<Id, N, N2, M>(t: Tree<Id, N2, M>, o: nat, x: seq<(Id, Node<Id, N, M>)>, y: seq<(Id, Node<Id, N, M>)>, f: N -> Option<N2>)
    requires ItemsAt(t, o, x + y, f)
    ensures ItemsAt(t, o, x, f) && ItemsAt(t, o + |x|, y, f)
  {
    assert forall i | 0 <= i < |x| :: x[i] == (x + y)[i];
    assert forall i | 0 <= i < |y| :: y[i] == (x + y)[|x| + i];
  }

  /** Rebuilding an element laid out in the arena is pruning it. */
  lemma {:induction false} BuildAt<Id, N, N2, M>(t: Tree<Id, N2, M>, o: nat, e: Element<Id, N, M>, f: N -> Option<N2>)
    requires Forward(t) && ItemsAt(t, o, Flat(e), f)
    ensures Build(t, e.id) == Prune(e, f)
    decreases e, 1
  {
    assert Flat(e)[0].0 == e.id;
    match e
    case Leaf(id, node, meta) =>
    case Branch(id, children, meta) =>
      ItemsAtSplit(t, o, [Flat(e)[0]], FlatAll(children), f);
      assert t.nodes[o] == Node.Branch(RootIds(children), meta);
      BuildChildrenAt(t, o, o + 1, children, 0, f);
  }

  lemma {:induction false} BuildChildrenAt<Id, N, N2, M>(t: Tree<Id, N2, M>, p: nat, o: nat, children: seq<Element<Id, N, M>>, k: nat, f: N -> Option<N2>)
    requires Forward(t) && p < |t.nodes| && t.nodes[p].Branch? && t.nodes[p].children == RootIds(children)
    requires k <= |children| && ItemsAt(t, o, FlatAll(children[k..]), f)
    ensures BuildChildren(t, p, k) == PruneAll(children[k..], f)
    decreases children, |children| - k
  {
    if k < |children| {
      var rest := children[k..];
      assert rest[0] == children[k] && rest[1..] == children[k + 1..];
      ItemsAtSplit(t, o, Flat(children[k]), FlatAll(children[k + 1..]), f);
      BuildAt(t, o, children[k], f);
      BuildChildrenAt(t, p, o + |Flat(children[k])|, children, k + 1, f);
    }
  }

  // ---------------------------------------------------------------------
  // Round trips
  // ---------------------------------------------------------------------

  /** In a preorder list, each child a branch names is the id of some later entry. */
  ghost predicate Follows<Id, N, M>(items: seq<(Id, Node<Id, N, M>)>) {
    forall p, j | 0 <= p < |items| && items[p].1.Branch? && 0 <= j < |items[p].1.children| ::
      Later(items, p, items[p].1.children[j])
  }

  /** Some entry after position `p` has the id. */
  ghost predicate Later<Id, N, M>(items: seq<(Id, Node<Id, N, M>)>, p: nat, id: Id) {
    exists q | p < q < |items| :: items[q].0 == id
  }

  lemma FollowsAppend<Id, N, M>(x: seq<(Id, Node<Id, N, M>)>, y: seq<(Id, Node<Id, N, M>)>)
    requires Follows(x) && Follows(y)
    ensures Follows(x + y)
  {
    var xy := x + y;
    forall p, j | 0 <= p < |xy| && xy[p].1.Branch? && 0 <= j < |xy[p].1.children|
      ensures Later(xy, p, xy[p].1.children[j])
    {
      if p < |x| {
        assert xy[p] == x[p];
        assert x[p].1.Branch? && j < |x[p].1.children|;
        assert Later(x, p, x[p].1.children[j]);
        var q :| p < q < |x| && x[q].0 == x[p].1.children[j];
        assert xy[q] == x[q];
      } else {
        assert xy[p] == y[p - |x|];
        assert y[p - |x|].1.Branch? && j < |y[p - |x|].1.children|;
        assert Later(y, p - |x|, y[p - |x|].1.children[j]);
        var q :| p - |x| < q < |y| && y[q].0 == y[p - |x|].1.children[j];
        assert xy[|x| + q] == y[q];
      }
    }
  }

  /** The `j`-th child's own entry comes right after the entries of the children before it. */
  lemma FlatAllRootAt<Id, N, M>(children: seq<Element<Id, N, M>>, j: nat)
    requires j < |children|
    ensures |FlatAll(children[..j])| < |FlatAll(children)|
    ensures FlatAll(children)[|FlatAll(children[..j])|].0 == children[j].id
  {
    assert children == children[..j] + children[j..];
    FlatAllAppend(children[..j], children[j..]);
    var rest := children[j..];
    assert rest[0] == children[j];
    assert FlatAll(rest) == Flat(children[j]) + FlatAll(rest[1..]);
    assert Flat(children[j])[0].0 == children[j].id;
  }

  lemma {:induction false} FlatFollows<Id, N, M>(e: Element<Id, N, M>)
    ensures Follows(Flat(e))
    decreases e, 1
  {
    match e
    case Leaf(_, _, _) =>
    case Branch(id, children, meta) =>
      FlatAllFollows(children);
      var items := Flat(e);
      var tail := FlatAll(children);
      assert items == [items[0]] + tail;
      forall p, j | 0 <= p < |items| && items[p].1.Branch? && 0 <= j < |items[p].1.children|
        ensures Later(items, p, items[p].1.children[j])
      {
        if p == 0 {
          FlatAllRootAt(children, j);
          var q := |FlatAll(children[..j])|;
          assert items[1 + q] == tail[q];
        } else {
          assert items[p] == tail[p - 1];
          var q :| p - 1 < q < |tail| && tail[q].0 == tail[p - 1].1.children[j];
          assert items[q + 1] == tail[q];
        }
      }
  }

  lemma {:induction false} FlatAllFollows<Id, N, M>(children: seq<Element<Id, N, M>>)
    ensures Follows(FlatAll(children))
    decreases children, 0
  {
    if |children| > 0 {
      FlatFollows(children[0]);
      FlatAllFollows(children[1..]);
      FollowsAppend(Flat(children[0]), FlatAll(children[1..]));
    }
  }

  /** A tree built from elements has every child after its parent. */
  lemma FromElementsForward<Id, N, M>(root: Element<Id, N, M>)
    requires FromElements(root).Ok?
    ensures Forward(FromElements(root).value)
  {
    var t := FromElements(root).value;
    var items := Flat(root);
    FromElementsNodes(root);
    FromElementsIndex(root);
    FlatFollows(root);
    forall id | id in t.indexById ensures t.indexById[id] < |t.nodes| {
      var j :| 0 <= j < |Ids(items)| && Ids(items)[j] == id;
      assert items[j].0 == id;
    }
    forall p, j | 0 <= p < |t.nodes| && t.nodes[p].Branch? && 0 <= j < |t.nodes[p].children| && t.nodes[p].children[j] in t.indexById
      ensures t.indexById[t.nodes[p].children[j]] > p
    {
      assert t.nodes[p] == items[p].1;
      var q :| p < q < |items| && items[q].0 == items[p].1.children[j];
    }
  }

  /** Mapping payloads keeps every child after its parent. */
  lemma MapOptionForward<Id, N, N2, M>(t: Tree<Id, N, M>, f: N -> Option<N2>)
    requires Forward(t)
    ensures Forward(MapOption(t, f))
  {
  }

  /**
   * Mapping the payloads of a tree built from an element and rebuilding
   * nested elements is pruning the element with the same map.
   */
  lemma ToElementsPrunes<Id, N, N2, M>(root: Element<Id, N, M>, f: N -> Option<N2>)
    requires FromElements(root).Ok?
    ensures Forward(MapOption(FromElements(root).value, f))
    ensures ToElements(MapOption(FromElements(root).value, f)) == Prune(root, f)
  {
    var t := FromElements(root).value;
    var t' := MapOption(t, f);
    var items := Flat(root);
    FromElementsNodes(root);
    FromElementsIndex(root);
    FromElementsForward(root);
    MapOptionForward(t, f);
    forall i | 0 <= i < |items| ensures t'.nodes[i] == MapOptionNode(items[i].1, f) {
      assert t.nodes[i] == items[i].1;
    }
    assert ItemsAt(t', 0, items, f);
    BuildAt(t', 0, root, f);
  }

  /** Keeping every payload prunes nothing from an element without empty branches. */
  lemma {:induction false} PruneKeepAll<Id, N, M>(e: Element<Id, N, M>, f: N -> Option<N>)
    requires forall x :: f(x) == Some(x)
    requires NoEmpty(e)
    ensures Prune(e, f) == Some(e)
    decreases e, 1
  {
    match e
    case Leaf(id, node, meta) =>
      assert f(node) == Some(node);
    case Branch(id, children, meta) =>
      PruneAllKeepAll(children, f);
  }

  lemma {:induction false} PruneAllKeepAll<Id, N, M>(children: seq<Element<Id, N, M>>, f: N -> Option<N>)
    requires forall x :: f(x) == Some(x)
    requires forall i | 0 <= i < |children| :: NoEmpty(children[i])
    ensures PruneAll(children, f) == children
    decreases children, 0
  {
    if |children| > 0 {
      PruneKeepAll(children[0], f);
      PruneAllKeepAll(children[1..], f);
      assert children == [children[0]] + children[1..];
    }
  }

  lemma MapOptionKeepAll<Id, N, M>(t: Tree<Id, N, M>, f: N -> Option<N>)
    requires forall x :: f(x) == Some(x)
    ensures MapOption(t, f) == t
  {
    var t' := MapOption(t, f);
    forall i | 0 <= i < |t.nodes| ensures t'.nodes[i] == t.nodes[i] {
      if t.nodes[i].Leaf? && t.nodes[i].node.Some? {
        assert f(t.nodes[i].node.value) == Some(t.nodes[i].node.value);
      }
    }
  }

  /** Flattening an element without empty branches and rebuilding it gives it back. */
  lemma ToElementsRoundTrip<Id, N, M>(root: Element<Id, N, M>)
    requires FromElements(root).Ok? && NoEmpty(root)
    ensures Forward(FromElements(root).value)
    ensures ToElements(FromElements(root).value) == Some(root)
  {
    var keep: N -> Option<N> := x => Some(x);
    FromElementsForward(root);
    ToElementsPrunes(root, keep);
    MapOptionKeepAll(FromElements(root).value, keep);
    PruneKeepAll(root, keep);
  }

  /** Compacting a compacted tree changes nothing. */
  lemma CompactIdempotent<Id, N, M>(t: Tree<Id, N, M>)
    requires Forward(t) && Compact(t).Some?
    ensures Forward(Compact(t).value)
    ensures Compact(Compact(t).value) == Compact(t)
  {
    var e := ToElements(t).value;
    BuildShape(t, t.rootId);
    ToElementsRoundTrip(e);
  }

  // ---------------------------------------------------------------------
  // Children stay after their parents
  // ---------------------------------------------------------------------

  /** A successful insertion only adds ids the map did not have. */
  lemma InsertOkFresh<Id, N, M>(a: Arena<Id, N, M>, base: nat, items: seq<(Id, Node<Id, N, M>)>)
    requires Insert(a, base, items).error.None?
    ensures Causal.IdSet(Ids(items)) !! a.indexById.Keys
  {
    InsertError(a, base, items);
    Causal.FirstRepeatNone(a.indexById.Keys, Ids(items));
  }

  /** Entries flattened after position `base`, whose ids map to their own nodes, keep children after parents. */
  lemma TailForward<Id, N, M>(t: Tree<Id, N, M>, base: nat, items: seq<(Id, Node<Id, N, M>)>)
    requires base + |items| == |t.nodes| && Follows(items)
    requires forall i | 0 <= i < |items| ::
               t.nodes[base + i] == items[i].1 && items[i].0 in t.indexById && t.indexById[items[i].0] == base + i
    ensures forall p, j | base <= p < |t.nodes| && t.nodes[p].Branch? && 0 <= j < |t.nodes[p].children| && t.nodes[p].children[j] in t.indexById ::
              t.indexById[t.nodes[p].children[j]] > p
  {
    forall p, j | base <= p < |t.nodes| && t.nodes[p].Branch? && 0 <= j < |t.nodes[p].children| && t.nodes[p].children[j] in t.indexById
      ensures t.indexById[t.nodes[p].children[j]] > p
    {
      assert t.nodes[p] == items[p - base].1;
      var q :| p - base < q < |items| && items[q].0 == items[p - base].1.children[j];
    }
  }

  /** Each root element's id is among the ids of the flattened elements. */
  lemma RootIdsFlat<Id, N, M>(children: seq<Element<Id, N, M>>, j: nat)
    requires j < |children|
    ensures children[j].id in Causal.IdSet(Ids(FlatAll(children)))
  {
    FlatAllRootAt(children, j);
    assert Ids(FlatAll(children))[|FlatAll(children[..j])|] == children[j].id;
  }

  /** Ids added by flattening at `base` map into the flattened range. */
  lemma NewIdsAfter<Id>(before: map<Id, nat>, after: map<Id, nat>, base: nat, ids: seq<Id>)
    requires after.Keys == before.Keys + Causal.IdSet(ids)
    requires forall i | 0 <= i < |ids| :: ids[i] in after && after[ids[i]] == base + i
    ensures forall c | c in after && c !in before :: base <= after[c] < base + |ids|
  {
    forall c | c in after && c !in before ensures base <= after[c] < base + |ids| {
      assert c in Causal.IdSet(ids);
      var q :| 0 <= q < |ids| && ids[q] == c;
    }
  }

  /** The nodes before the added ones keep their children after them. */
  lemma AddChildrenHeadForward<Id, N, M>(t: Tree<Id, N, M>, parent: Id, elements: seq<Element<Id, N, M>>)
    requires Forward(t)
    requires AddChildren(t, parent, elements).1.Ok?
    ensures var t' := AddChildren(t, parent, elements).0;
            forall p, j | 0 <= p < |t.nodes| && t'.nodes[p].Branch? && 0 <= j < |t'.nodes[p].children| && t'.nodes[p].children[j] in t'.indexById ::
              t'.indexById[t'.nodes[p].children[j]] > p
  {
    var t' := AddChildren(t, parent, elements).0;
    var items := FlatAll(elements);
    AddChildrenOk(t, parent, elements);
    var a := Arena(t.nodes, t.indexById);
    AppendAllInserts(a, 0, elements);
    InsertOkFresh(a, 0, items);
    NewIdsAfter(t.indexById, t'.indexById, |t.nodes|, Ids(items));
    var pi := t.indexById[parent];
    forall p, j | 0 <= p < |t.nodes| && t'.nodes[p].Branch? && 0 <= j < |t'.nodes[p].children| && t'.nodes[p].children[j] in t'.indexById
      ensures t'.indexById[t'.nodes[p].children[j]] > p
    {
      var c := t'.nodes[p].children[j];
      if c in t.indexById {
        if p == pi && j >= |t.nodes[pi].children| {
          var k := j - |t.nodes[pi].children|;
          assert c == elements[k].id;
          RootIdsFlat(elements, k);
          assert false;
        }
        assert c == t.nodes[p].children[j];
      }
    }
  }

  /** A successful addition keeps every child after its parent. */
  lemma AddChildrenForward<Id, N, M>(t: Tree<Id, N, M>, parent: Id, elements: seq<Element<Id, N, M>>)
    requires Forward(t)
    requires AddChildren(t, parent, elements).1.Ok?
    ensures Forward(AddChildren(t, parent, elements).0)
  {
    var t' := AddChildren(t, parent, elements).0;
    var items := FlatAll(elements);
    var base := |t.nodes|;
    AddChildrenOk(t, parent, elements);
    FlatAllFollows(elements);
    forall i | 0 <= i < |items| ensures t'.nodes[base + i] == items[i].1 {
      assert t'.nodes[base..][i] == t'.nodes[base + i];
    }
    TailForward(t', base, items);
    NewIdsAfter(t.indexById, t'.indexById, base, Ids(items));
    AddChildrenHeadForward(t, parent, elements);
  }

  /** The elements a present payload at position `p` expands to are part of the whole expansion. */
  lemma {:induction false} ExpansionHas<Id, N, N2, M>(nodes: seq<Node<Id, N, M>>, f: N -> seq<Element<Id, N2, M>>, p: nat, j: nat)
    requires p < |nodes| && nodes[p].Leaf? && nodes[p].node.Some? && j < |f(nodes[p].node.value)|
    ensures f(nodes[p].node.value)[j].id in Causal.IdSet(Ids(FlatAll(Expansion(nodes, f))))
    decreases p
  {
    var head := if nodes[0].Leaf? && nodes[0].node.Some? then f(nodes[0].node.value) else [];
    assert Expansion(nodes, f) == head + Expansion(nodes[1..], f);
    FlatAllAppend(head, Expansion(nodes[1..], f));
    var all := FlatAll(Expansion(nodes, f));
    if p == 0 {
      RootIdsFlat(head, j);
      var q :| 0 <= q < |Ids(FlatAll(head))| && Ids(FlatAll(head))[q] == head[j].id;
      assert all[q] == FlatAll(head)[q];
    } else {
      assert nodes[p] == nodes[1..][p - 1];
      ExpansionHas(nodes[1..], f, p - 1, j);
      var rest := FlatAll(Expansion(nodes[1..], f));
      var q :| 0 <= q < |Ids(rest)| && Ids(rest)[q] == f(nodes[p].node.value)[j].id;
      assert all[|FlatAll(head)| + q] == rest[q];
    }
  }

  /** The original nodes keep their children after them. */
  lemma MapTreeHeadForward<Id, N, N2, M>(t: Tree<Id, N, M>, f: N -> seq<Element<Id, N2, M>>)
    requires Forward(t)
    requires MapTree(t, f).Ok?
    ensures var t' := MapTree(t, f).value;
            forall p, j | 0 <= p < |t.nodes| && p < |t'.nodes| && t'.nodes[p].Branch? && 0 <= j < |t'.nodes[p].children| && t'.nodes[p].children[j] in t'.indexById ::
              t'.indexById[t'.nodes[p].children[j]] > p
  {
    var t' := MapTree(t, f).value;
    var items := FlatAll(Expansion(t.nodes, f));
    MapTreeNodes(t, f);
    MapTreeIndex(t, f);
    MapTreeInserts(t, f);
    InsertOkFresh(Arena([], t.indexById), |t.nodes|, items);
    NewIdsAfter(t.indexById, t'.indexById, |t.nodes|, Ids(items));
    forall p, j | 0 <= p < |t.nodes| && t'.nodes[p].Branch? && 0 <= j < |t'.nodes[p].children| && t'.nodes[p].children[j] in t'.indexById
      ensures t'.indexById[t'.nodes[p].children[j]] > p
    {
      var c := t'.nodes[p].children[j];
      assert t'.nodes[p] == Reshape(t.nodes[p], f);
      if t.nodes[p].Leaf? {
        ExpansionHas(t.nodes, f, p, j);
      } else {
        assert c == t.nodes[p].children[j];
      }
    }
  }

  /** A successful expansion keeps every child after its parent. */
  lemma MapTreeForward<Id, N, N2, M>(t: Tree<Id, N, M>, f: N -> seq<Element<Id, N2, M>>)
    requires Forward(t)
    requires MapTree(t, f).Ok?
    ensures Forward(MapTree(t, f).value)
  {
    var t' := MapTree(t, f).value;
    var items := FlatAll(Expansion(t.nodes, f));
    var base := |t.nodes|;
    MapTreeNodes(t, f);
    MapTreeIndex(t, f);
    FlatAllFollows(Expansion(t.nodes, f));
    TailForward(t', base, items);
    NewIdsAfter(t.indexById, t'.indexById, base, Ids(items));
    MapTreeHeadForward(t, f);
  }
}
