/**
 * Filesystem paths as the standard library of the program's language
 * sees them on Unix: a path is its list of components, and two paths are
 * equal when their components are. Parsing skips empty pieces between
 * slashes and every "." except a leading one of a relative path; ".." is
 * kept, not resolved. `Parent` drops the last component (none for the
 * root or the empty path), and `Join` appends a relative path's
 * components or replaces the base by an absolute path.
 */
module Paths {
  import opened Wrappers
  import Strs

  type String = Strs.String

  datatype Component = CurDir | ParentDir | Normal(name: String)

  datatype Path = Path(absolute: bool, parts: seq<Component>)

  /** A name a path component can carry: non-empty, no slash, not "." or "..". */
  predicate NormalName(name: String) {
    name != [] && '/' !in name && name != "." && name != ".."
  }

  /** The component list a parse can produce: "." only first, and only in a relative path. */
  ghost predicate Valid(p: Path) {
    forall i | 0 <= i < |p.parts| ::
      && (p.parts[i].Normal? ==> NormalName(p.parts[i].name))
      && (p.parts[i].CurDir? ==> i == 0 && !p.absolute)
  }

  const Empty := Path(false, [])

  /** The components one piece between slashes contributes; `first` is whether it is the path's first piece. */
  function Piece(piece: String, absolute: bool, first: bool): (r: seq<Component>)
    ensures |r| <= 1
  {
    if piece == [] then []
    else if piece == "." then (if first && !absolute then [CurDir] else [])
    else if piece == ".." then [ParentDir]
    else [Normal(piece)]
  }

  function Pieces(pieces: seq<String>, absolute: bool, first: bool): (r: seq<Component>)
    ensures |r| <= |pieces|
  {
    if |pieces| == 0 then []
    else Piece(pieces[0], absolute, first) + Pieces(pieces[1..], absolute, false)
  }

  /** Parse a path string: absolute when it starts with a slash. */
  function Parse(s: String): (r: Path)
    ensures r.absolute <==> |s| > 0 && s[0] == '/'
  {
    var absolute := |s| > 0 && s[0] == '/';
    Path(absolute, Pieces(Strs.Split(s, '/'), absolute, true))
  }

  function ComponentText(c: Component): String {
    match c
    case CurDir => "."
    case ParentDir => ".."
    case Normal(name) => name
  }

  function Texts(parts: seq<Component>): (r: seq<String>)
    ensures |r| == |parts| && forall i | 0 <= i < |parts| :: r[i] == ComponentText(parts[i])
  {
    if |parts| == 0 then [] else [ComponentText(parts[0])] + Texts(parts[1..])
  }

  /** The path written out with single slashes, as its components read. */
  function Display(p: Path): String {
    (if p.absolute then "/" else "") + Strs.Join(Texts(p.parts), "/")
  }

  /** The path without its last component; none for the root or the empty path. */
  function Parent(p: Path): (r: Option<Path>)
    ensures r.None? <==> |p.parts| == 0
    ensures r.Some? ==> r.value.absolute == p.absolute && r.value.parts + [p.parts[|p.parts| - 1]] == p.parts
  {
    if |p.parts| == 0 then None else Some(Path(p.absolute, p.parts[..|p.parts| - 1]))
  }

  /** `next` if it is absolute; otherwise `base` followed by `next`'s components (a leading "." only survives an empty base). */
  function Join(base: Path, next: Path): (r: Path)
    ensures next.absolute ==> r == next
    ensures !next.absolute ==> r.absolute == base.absolute && base.parts <= r.parts
  {
    if next.absolute then next
    else if (base.absolute || |base.parts| > 0) && |next.parts| > 0 && next.parts[0].CurDir? then
      Path(base.absolute, base.parts + next.parts[1..])
    else Path(base.absolute, base.parts + next.parts)
  }

  /** A single relative component. */
  function Single(name: String): Path {
    Path(false, [Normal(name)])
  }

  // ---------------------------------------------------------------------
  // Properties
  // ---------------------------------------------------------------------

  lemma {:induction false} PiecesValid(pieces: seq<String>, absolute: bool, first: bool)
    requires forall i | 0 <= i < |pieces| :: '/' !in pieces[i]
    ensures var r := Pieces(pieces, absolute, first);
            forall i | 0 <= i < |r| ::
              && (r[i].Normal? ==> NormalName(r[i].name))
              && (r[i].CurDir? ==> i == 0 && first && !absolute)
  {
    if |pieces| > 0 {
      PiecesValid(pieces[1..], absolute, false);
      var r := Pieces(pieces, absolute, first);
      assert r == Piece(pieces[0], absolute, first) + Pieces(pieces[1..], absolute, false);
    }
  }

  /** What a parse produces is a valid component list. */
  lemma ParseValid(s: String)
    ensures Valid(Parse(s))
  {
    var absolute := |s| > 0 && s[0] == '/';
    PiecesValid(Strs.Split(s, '/'), absolute, true);
    assert Parse(s).parts == Pieces(Strs.Split(s, '/'), absolute, true);
  }

  /** Joining keeps validity when the joined path is valid too. */
  lemma JoinValid(base: Path, next: Path)
    requires Valid(base) && Valid(next)
    ensures Valid(Join(base, next))
  {
    var r := Join(base, next);
    if !next.absolute {
      forall i | 0 <= i < |r.parts|
        ensures r.parts[i].Normal? ==> NormalName(r.parts[i].name)
        ensures r.parts[i].CurDir? ==> i == 0 && !r.absolute
      {
        if i >= |base.parts| {
          var k := i - |base.parts|;
          if (base.absolute || |base.parts| > 0) && |next.parts| > 0 && next.parts[0].CurDir? {
            assert r.parts[i] == next.parts[k + 1];
          } else {
            assert r.parts[i] == next.parts[k];
          }
        } else {
          assert r.parts[i] == base.parts[i];
        }
      }
    }
  }

  /** Joining a single name and taking the parent gives back the base. */
  lemma ParentOfJoin(base: Path, name: String)
    requires NormalName(name)
    ensures Parent(Join(base, Single(name))) == Some(base)
  {
    assert Join(base, Single(name)).parts[..|base.parts|] == base.parts;
  }

  /** Writing a valid path out and parsing it back gives the same path. */
  lemma ParseDisplay(p: Path)
    requires Valid(p)
    ensures Parse(Display(p)) == p
  {
    var texts := Texts(p.parts);
    var joined := Strs.Join(texts, "/");
    forall i | 0 <= i < |texts| ensures '/' !in texts[i] && texts[i] != [] {
      assert texts[i] == ComponentText(p.parts[i]);
    }
    if p.absolute {
      assert Display(p) == ['/'] + joined;
      assert Strs.Split(Display(p), '/') == [[]] + Strs.Split(joined, '/');
      if |texts| == 0 {
        assert joined == [];
      } else {
        Strs.JoinSplit(texts, '/');
        PiecesTexts(p.parts, true, false);
        assert Pieces([[]] + texts, true, true) == Pieces(texts, true, false);
      }
    } else {
      assert Display(p) == joined;
      if |texts| == 0 {
        assert joined == [];
      } else {
        Strs.JoinSplit(texts, '/');
        PiecesTexts(p.parts, false, true);
        assert joined[0] == texts[0][0];
      }
    }
  }

  /** Parsing a valid path's component texts gives back the components. */
  lemma {:induction false} PiecesTexts(parts: seq<Component>, absolute: bool, first: bool)
    requires forall i | 0 <= i < |parts| ::
               && (parts[i].Normal? ==> NormalName(parts[i].name))
               && (parts[i].CurDir? ==> i == 0 && first && !absolute)
    ensures Pieces(Texts(parts), absolute, first) == parts
  {
    if |parts| > 0 {
      PiecesTexts(parts[1..], absolute, false);
      assert Texts(parts)[1..] == Texts(parts[1..]);
      assert Piece(ComponentText(parts[0]), absolute, first) == [parts[0]];
    }
  }
}
