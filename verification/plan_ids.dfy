/**
 * Where a plan comes from: a local path, or a path inside a Git
 * repository. A plan refers to another plan by a path relative to its
 * own file, so joining resolves the next path against the directory
 * holding the current one. The flow crate and the plan crate define the
 * same identifier; the flow crate adds `AsPath`.
 */
module PlanIds {
  import opened Wrappers
  import Strs
  import Paths

  type String = Strs.String

  datatype PlanId =
    | PathId(path: Paths.Path)
    | Git(url: String, path: Paths.Path)

  /** The store's key for a local file. */
  datatype StoreItemId = LocalFile(path: Paths.Path)

  /** `next` resolved against the directory of `current` (the empty path when `current` has no parent). */
  function Relative(current: Paths.Path, next: Paths.Path): (r: Paths.Path)
    ensures next.absolute ==> r == next
  {
    Paths.Join(Paths.Parent(current).GetOr(Paths.Empty), next)
  }

  /** Join keeps the kind of identifier and the repository, and resolves the path against the current one. */
  function Join(id: PlanId, next: Paths.Path): (r: PlanId)
    ensures r.PathId? <==> id.PathId?
    ensures r.Git? ==> r.url == id.url
    ensures r.path == Relative(id.path, next)
  {
    match id
    case PathId(current) => PathId(Relative(current, next))
    case Git(url, current) => Git(url, Relative(current, next))
  }

  /** The local path, for a local identifier only. */
  function AsPath(id: PlanId): (r: Option<Paths.Path>)
    ensures r.Some? <==> id.PathId?
    ensures r.Some? ==> r.value == id.path
  {
    match id
    case PathId(path) => Some(path)
    case Git(_, _) => None
  }

  /** The store key of a local identifier; a Git identifier has none (the program stops there, unimplemented). */
  function ToStoreItemId(id: PlanId): (r: Option<StoreItemId>)
    ensures r.Some? <==> id.PathId?
    ensures r.Some? ==> r.value.path == id.path
  {
    match id
    case PathId(path) => Some(LocalFile(path))
    case Git(_, _) => None
  }

  /**
   * The source name diagnostics use: the path's text for a local plan; for
   * a Git plan the URL with a `path` query pair appended, where
   * `appendPair(url, key, value)` is the URL library's query appending.
   */
  function SourceId(id: PlanId, appendPair: (String, String, String) -> String): String {
    match id
    case PathId(path) => Paths.Display(path)
    case Git(url, path) => appendPair(url, "path", Paths.Display(path))
  }

  /** A local plan's source name reads back as its path; a Git plan's carries the path as the `path` query value. */
  lemma SourceIdNamesPath(id: PlanId, appendPair: (String, String, String) -> String)
    requires Paths.Valid(id.path)
    ensures id.PathId? ==> Paths.Parse(SourceId(id, appendPair)) == id.path
    ensures id.Git? ==> SourceId(id, appendPair) == appendPair(id.url, "path", Paths.Display(id.path))
  {
    Paths.ParseDisplay(id.path);
  }

  /**
   * A plan that names a sibling file by a single name refers to that file
   * in its own directory: the result has the same parent as the current
   * plan and ends in the name.
   */
  lemma JoinSibling(id: PlanId, name: String)
    requires Paths.NormalName(name)
    requires |id.path.parts| > 0
    ensures Paths.Parent(Join(id, Paths.Single(name)).path) == Paths.Parent(id.path)
    ensures var parts := Join(id, Paths.Single(name)).path.parts;
            |parts| == |id.path.parts| && parts[|parts| - 1] == Paths.Normal(name)
  {
    var dir := Paths.Parent(id.path).value;
    Paths.ParentOfJoin(dir, name);
  }

  /** An absolute next path is taken as it is, whatever the current plan. */
  lemma JoinAbsolute(id: PlanId, next: Paths.Path)
    requires next.absolute
    ensures Join(id, next).path == next
  {
  }

  /** Joining onto a plan at the top of a relative tree (no parent) resolves against the empty path. */
  lemma JoinNoParent(id: PlanId, next: Paths.Path)
    requires |id.path.parts| == 0 && !next.absolute
    ensures Join(id, next).path == Paths.Path(false, next.parts)
  {
  }
}
