/**
 * Remote path handling for uploads over SFTP, in its two versions (the
 * `ssh` crate and the older `vm` crate).
 *
 *  - `remote_join` glues a remote base directory and a local relative
 *    path: the base loses its trailing slashes and each component is
 *    appended after a slash. The newer version appends only normal
 *    names (dropping ".", ".." and a root) and turns an empty result into
 *    "/"; the older one appends every component's text verbatim.
 *  - `mkdir -p`: the directories to create are the cumulative prefixes of
 *    the path's non-empty segments, keeping a leading slash. Each is then
 *    probed and created (newer) or created with "already exists" errors
 *    ignored (older).
 *  - Before a file upload, the parent directory is the text before the
 *    last slash, created only when non-empty.
 *
 * The SFTP session is outside the model: its answers are the parameters
 * `exists_`, `isDir` and `create`, one answer per path.
 */
module RemoteSync {
  import opened Wrappers
  import Strs
  import Paths

  type String = Strs.String

  // ---------------------------------------------------------------------
  // Segments
  // ---------------------------------------------------------------------

  function NonEmpty(ss: seq<String>): (r: seq<String>)
    ensures forall i | 0 <= i < |r| :: r[i] != []
  {
    if |ss| == 0 then [] else (if ss[0] == [] then [] else [ss[0]]) + NonEmpty(ss[1..])
  }

  /** The non-empty pieces between slashes: the directory names a remote path goes through. */
  function Segments(s: String): seq<String> {
    NonEmpty(Strs.Split(s, '/'))
  }

  /** A name that can sit between two slashes. */
  predicate IsSegment(seg: String) {
    seg != [] && '/' !in seg
  }

  predicate AllSegments(segs: seq<String>) {
    forall i | 0 <= i < |segs| :: IsSegment(segs[i])
  }

  lemma {:induction false} NonEmptyAppend(a: seq<String>, b: seq<String>)
    ensures NonEmpty(a + b) == NonEmpty(a) + NonEmpty(b)
    decreases |a|
  {
    if |a| > 0 {
      assert (a + b)[0] == a[0];
      assert (a + b)[1..] == a[1..] + b;
      NonEmptyAppend(a[1..], b);
    } else {
      assert a + b == b;
    }
  }

  /** Every kept piece is one of the pieces. */
  lemma {:induction false} NonEmptyIn(ss: seq<String>, x: String)
    requires x in NonEmpty(ss)
    ensures x in ss
    decreases |ss|
  {
    if ss[0] == [] || x != ss[0] {
      NonEmptyIn(ss[1..], x);
    }
  }

  lemma {:induction false} NonEmptyKeeps(ss: seq<String>)
    requires forall i | 0 <= i < |ss| :: ss[i] != []
    ensures NonEmpty(ss) == ss
    decreases |ss|
  {
    if |ss| > 0 {
      NonEmptyKeeps(ss[1..]);
    }
  }

  /** Cutting at a separator in the middle cuts the two sides independently. */
  lemma {:induction false} SplitAround(a: String, b: String, sep: char)
    ensures Strs.Split(a + [sep] + b, sep) == Strs.Split(a, sep) + Strs.Split(b, sep)
    decreases |a|
  {
    if |a| > 0 {
      assert (a + [sep] + b)[1..] == a[1..] + [sep] + b;
      SplitAround(a[1..], b, sep);
    } else {
      assert a + [sep] + b == [sep] + b;
    }
  }

  lemma {:induction false} SplitNoSep(s: String, sep: char)
    requires sep !in s
    ensures Strs.Split(s, sep) == [s]
    decreases |s|
  {
    if |s| > 0 {
      SplitNoSep(s[1..], sep);
      assert [s[0]] + s[1..] == s;
    }
  }

  /** Appending "/" and a name adds that name as the last segment. */
  lemma SegmentsAppend(s: String, seg: String)
    requires IsSegment(seg)
    ensures Segments(s + "/" + seg) == Segments(s) + [seg]
  {
    SplitAround(s, seg, '/');
    SplitNoSep(seg, '/');
    NonEmptyAppend(Strs.Split(s, '/'), [seg]);
  }

  /** A trailing slash adds no segment. */
  lemma SegmentsSlash(s: String)
    ensures Segments(s + "/") == Segments(s)
  {
    SplitAround(s, [], '/');
    assert s + ['/'] + [] == s + "/";
    NonEmptyAppend(Strs.Split(s, '/'), [[]]);
  }

  /** The segments of a leading slash or nothing, followed by names joined by slashes, are those names. */
  lemma SegmentsOfJoin(lead: String, names: seq<String>)
    requires lead == "" || lead == "/"
    requires AllSegments(names)
    ensures Segments(lead + Strs.Join(names, "/")) == names
  {
    var joined := Strs.Join(names, "/");
    var pieces := Strs.Split(joined, '/');
    if |names| > 0 {
      Strs.JoinSplit(names, '/');
      NonEmptyKeeps(names);
      assert NonEmpty(pieces) == names;
    } else {
      assert pieces == [[]];
    }
    assert NonEmpty([[]]) == [];
    if lead == "/" {
      assert lead + joined == [] + ['/'] + joined;
      SplitAround([], joined, '/');
      assert Strs.Split(lead + joined, '/') == [[]] + pieces;
      NonEmptyAppend([[]], pieces);
    } else {
      assert lead + joined == joined;
    }
  }

  // ---------------------------------------------------------------------
  // remote_join
  // ---------------------------------------------------------------------

  /** `s` without its trailing slashes. */
  function TrimEndSlashes(s: String): (r: String)
    ensures Strs.StartsWith(s, r)
    ensures r == [] || r[|r| - 1] != '/'
    ensures forall i | |r| <= i < |s| :: s[i] == '/'
  {
    if |s| > 0 && s[|s| - 1] == '/' then TrimEndSlashes(s[..|s| - 1]) else s
  }

  lemma {:induction false} SegmentsTrimEnd(s: String)
    ensures Segments(TrimEndSlashes(s)) == Segments(s)
    decreases |s|
  {
    if |s| > 0 && s[|s| - 1] == '/' {
      SegmentsTrimEnd(s[..|s| - 1]);
      SegmentsSlash(s[..|s| - 1]);
      assert s[..|s| - 1] + "/" == s;
    }
  }

  /** The names of a component list's normal components, in order. */
  function NormalNames(parts: seq<Paths.Component>): (r: seq<String>)
    ensures |r| <= |parts|
  {
    if |parts| == 0 then []
    else (if parts[0].Normal? then [parts[0].name] else []) + NormalNames(parts[1..])
  }

  /** "/" before each name. */
  function SlashEach(names: seq<String>): String {
    if |names| == 0 then [] else "/" + names[0] + SlashEach(names[1..])
  }

  /** The newer join: normal names only, and "/" for an empty result. */
  function RemoteJoin(base: String, rel: Paths.Path): (r: String)
    ensures rel == Paths.Empty ==> r == base
    ensures rel != Paths.Empty ==> r != []
  {
    if rel == Paths.Empty then base
    else
      var out := TrimEndSlashes(base) + SlashEach(NormalNames(rel.parts));
      if out == [] then "/" else out
  }

  /** The older join: every component's text, "." and ".." included, and "/" itself for a root. */
  function RemoteJoinVerbatim(base: String, rel: Paths.Path): (r: String)
    ensures rel == Paths.Empty ==> r == base
  {
    if rel == Paths.Empty then base
    else TrimEndSlashes(base) + (if rel.absolute then "//" else "") + SlashEach(Paths.Texts(rel.parts))
  }

  lemma {:induction false} SegmentsSlashEach(s: String, names: seq<String>)
    requires AllSegments(names)
    ensures Segments(s + SlashEach(names)) == Segments(s) + names
    decreases |names|
  {
    if |names| > 0 {
      var s' := s + "/" + names[0];
      SlashEachCons(s, names);
      SegmentsAppend(s, names[0]);
      SegmentsSlashEach(s', names[1..]);
      ConsTail(names);
    } else {
      assert s + SlashEach(names) == s;
    }
  }

  lemma SlashEachCons(s: String, names: seq<String>)
    requires |names| > 0
    ensures s + SlashEach(names) == (s + "/" + names[0]) + SlashEach(names[1..])
  {
  }

  lemma ConsTail<T>(s: seq<T>)
    requires |s| > 0
    ensures s == [s[0]] + s[1..]
  {
  }

  lemma {:induction false} NormalNamesSegments(parts: seq<Paths.Component>)
    requires forall i | 0 <= i < |parts| :: parts[i].Normal? ==> Paths.NormalName(parts[i].name)
    ensures AllSegments(NormalNames(parts))
    decreases |parts|
  {
    if |parts| > 0 {
      NormalNamesSegments(parts[1..]);
    }
  }

  /**
   * The newer join walks the base's directories and then the relative
   * path's normal names: nothing of "." or ".." survives, and the
   * result is absolute exactly when the base is or is nothing but slashes.
   */
  lemma RemoteJoinSegments(base: String, rel: Paths.Path)
    requires Paths.Valid(rel)
    requires rel != Paths.Empty
    ensures Segments(RemoteJoin(base, rel)) == Segments(base) + NormalNames(rel.parts)
    ensures RemoteJoin(base, rel)[0] == '/' <==> TrimEndSlashes(base) == [] || base[0] == '/'
  {
    NormalNamesSegments(rel.parts);
    SegmentsTrimEnd(base);
    var names := NormalNames(rel.parts);
    SegmentsSlashEach(TrimEndSlashes(base), names);
    if TrimEndSlashes(base) + SlashEach(names) == [] {
      assert Segments("/") == [] by {
        assert Strs.Split("/", '/') == [[], []];
      }
    }
    if TrimEndSlashes(base) != [] {
      assert base[0] == TrimEndSlashes(base)[0];
    } else if |names| > 0 {
      assert SlashEach(names)[0] == '/';
    }
  }

  /** The older join keeps every component of a relative path as a segment, "." and ".." included. */
  lemma RemoteJoinVerbatimSegments(base: String, rel: Paths.Path)
    requires Paths.Valid(rel) && !rel.absolute
    requires rel != Paths.Empty
    ensures Segments(RemoteJoinVerbatim(base, rel)) == Segments(base) + Paths.Texts(rel.parts)
  {
    var texts := Paths.Texts(rel.parts);
    assert AllSegments(texts) by {
      forall i | 0 <= i < |texts| ensures IsSegment(texts[i]) {
        assert texts[i] == Paths.ComponentText(rel.parts[i]);
      }
    }
    SegmentsTrimEnd(base);
    SegmentsSlashEach(TrimEndSlashes(base), texts);
    assert RemoteJoinVerbatim(base, rel) == TrimEndSlashes(base) + SlashEach(texts);
  }

  /**
   * For a relative "x/../y" the two versions part ways: the newer one
   * gives "<base>/x/y", the older one "<base>/x/../y".
   */
  lemma RemoteJoinsDiffer(base: String, x: String, y: String)
    ensures var rel := Paths.Path(false, [Paths.Normal(x), Paths.ParentDir, Paths.Normal(y)]);
            && RemoteJoin(base, rel) == TrimEndSlashes(base) + "/" + x + "/" + y
            && RemoteJoinVerbatim(base, rel) == TrimEndSlashes(base) + "/" + x + "/" + ".." + "/" + y
  {
    var rel := Paths.Path(false, [Paths.Normal(x), Paths.ParentDir, Paths.Normal(y)]);
    UpDownNames(x, y);
    SlashEachTwo(x, y);
    assert Paths.Texts(rel.parts) == [x, "..", y];
    SlashEachThree(x, "..", y);
  }

  lemma UpDownNames(x: String, y: String)
    ensures NormalNames([Paths.Normal(x), Paths.ParentDir, Paths.Normal(y)]) == [x, y]
  {
    var p0, p1, p2 := [Paths.Normal(x), Paths.ParentDir, Paths.Normal(y)], [Paths.ParentDir, Paths.Normal(y)], [Paths.Normal(y)];
    assert p0[1..] == p1 && p1[1..] == p2 && p2[1..] == [];
    assert NormalNames(p2) == [y] + NormalNames([]);
    assert NormalNames(p1) == [] + NormalNames(p2);
    assert NormalNames(p0) == [x] + NormalNames(p1);
  }

  lemma SlashEachTwo(x: String, y: String)
    ensures SlashEach([x, y]) == "/" + x + "/" + y
  {
    assert [x, y][1..] == [y];
    assert SlashEach([y]) == "/" + y + [];
  }

  lemma SlashEachThree(x: String, z: String, y: String)
    ensures SlashEach([x, z, y]) == "/" + x + "/" + z + "/" + y
  {
    assert [x, z, y][1..] == [z, y];
    SlashEachTwo(z, y);
  }

  // ---------------------------------------------------------------------
  // mkdir -p
  // ---------------------------------------------------------------------

  /** "/" for an absolute path, nothing otherwise: what the accumulated prefix starts from. */
  function Lead(dir: String): (r: String)
    ensures r == "" || r == "/"
  {
    if |dir| > 0 && dir[0] == '/' then "/" else ""
  }

  /** One more segment onto the accumulated prefix. */
  function Extend(accum: String, seg: String): String {
    if accum == "" || accum == "/" then accum + seg else accum + "/" + seg
  }

  function PrefixesFrom(accum: String, segs: seq<String>): (r: seq<String>)
    ensures |r| == |segs|
    decreases segs
  {
    if |segs| == 0 then []
    else
      var next := Extend(accum, segs[0]);
      [next] + PrefixesFrom(next, segs[1..])
  }

  /** The directories `mkdir -p` goes through for `dir`, outermost first. */
  function MkdirPrefixes(dir: String): (r: seq<String>)
    ensures |r| == |Segments(dir)|
  {
    PrefixesFrom(Lead(dir), Segments(dir))
  }

  lemma {:induction false} PrefixesFromJoin(lead: String, done: seq<String>, segs: seq<String>)
    requires lead == "" || lead == "/"
    requires AllSegments(done) && AllSegments(segs)
    ensures forall i | 0 <= i < |segs| ::
              PrefixesFrom(lead + Strs.Join(done, "/"), segs)[i] == lead + Strs.Join(done + segs[..i + 1], "/")
    decreases |segs|
  {
    if |segs| > 0 {
      var accum := lead + Strs.Join(done, "/");
      var done' := done + [segs[0]];
      assert Extend(accum, segs[0]) == lead + Strs.Join(done', "/") by {
        if |done| == 0 {
          assert done' == [segs[0]];
        } else {
          Strs.JoinAppend(done, "/", segs[0]);
          JoinHead(done);
          var joined := Strs.Join(done, "/");
          assert accum[|lead|] == joined[0];
          assert accum != "" && accum != "/";
        }
      }
      assert AllSegments(done');
      PrefixesFromJoin(lead, done', segs[1..]);
      forall i | 1 <= i < |segs|
        ensures done' + segs[1..][..i] == done + segs[..i + 1]
      {
        assert segs[..i + 1] == [segs[0]] + segs[1..][..i];
      }
      assert done + segs[..1] == done';
    }
  }

  /** Joined names start with the first name, which is neither empty nor a slash. */
  lemma JoinHead(names: seq<String>)
    requires |names| > 0 && AllSegments(names)
    ensures |Strs.Join(names, "/")| > 0 && Strs.Join(names, "/")[0] == names[0][0]
  {
  }

  /** The i-th directory is the lead followed by the first i+1 segments joined by slashes. */
  lemma MkdirPrefixesJoin(dir: String)
    ensures forall i | 0 <= i < |Segments(dir)| ::
              MkdirPrefixes(dir)[i] == Lead(dir) + Strs.Join(Segments(dir)[..i + 1], "/")
  {
    var segs := Segments(dir);
    var lead := Lead(dir);
    SegmentsAreSegments(dir);
    assert lead + Strs.Join([], "/") == lead;
    PrefixesFromJoin(lead, [], segs);
    forall i | 0 <= i < |segs| ensures MkdirPrefixes(dir)[i] == lead + Strs.Join(segs[..i + 1], "/") {
      assert [] + segs[..i + 1] == segs[..i + 1];
    }
  }

  /**
   * The segments of the i-th directory are exactly the first i+1 segments
   * of `dir`: every directory is its predecessor extended by one name, and
   * the last is `dir` itself up to repeated or trailing slashes.
   */
  lemma MkdirPrefixesSpec(dir: String)
    ensures forall i | 0 <= i < |Segments(dir)| ::
              Segments(MkdirPrefixes(dir)[i]) == Segments(dir)[..i + 1]
  {
    var segs := Segments(dir);
    SegmentsAreSegments(dir);
    MkdirPrefixesJoin(dir);
    forall i | 0 <= i < |segs| ensures Segments(MkdirPrefixes(dir)[i]) == segs[..i + 1] {
      PrefixSegments(Lead(dir), segs, i);
    }
  }

  lemma SegmentsAreSegments(dir: String)
    ensures AllSegments(Segments(dir))
  {
    var segs := Segments(dir);
    forall i | 0 <= i < |segs| ensures IsSegment(segs[i]) {
      NonEmptyIn(Strs.Split(dir, '/'), segs[i]);
    }
  }

  lemma PrefixSegments(lead: String, segs: seq<String>, i: nat)
    requires lead == "" || lead == "/"
    requires AllSegments(segs) && i < |segs|
    ensures Segments(lead + Strs.Join(segs[..i + 1], "/")) == segs[..i + 1]
  {
    assert AllSegments(segs[..i + 1]);
    SegmentsOfJoin(lead, segs[..i + 1]);
  }

  /** Whitespace as the program's string trimming knows it: the Unicode White_Space characters. */
  predicate IsWhitespace(c: char) {
    var n := c as int;
    || 0x09 <= n <= 0x0D || n == 0x20 || n == 0x85 || n == 0xA0 || n == 0x1680
    || 0x2000 <= n <= 0x200A || n == 0x2028 || n == 0x2029 || n == 0x202F || n == 0x205F
    || n == 0x3000
  }

  function TrimStart(s: String): (r: String)
    ensures r == [] || !IsWhitespace(r[0])
    ensures |r| <= |s| && r == s[|s| - |r|..]
    ensures forall i | 0 <= i < |s| - |r| :: IsWhitespace(s[i])
  {
    if |s| > 0 && IsWhitespace(s[0]) then TrimStart(s[1..]) else s
  }

  function TrimEnd(s: String): (r: String)
    ensures r == [] || !IsWhitespace(r[|r| - 1])
    ensures |r| <= |s| && r == s[..|r|]
    ensures forall i | |r| <= i < |s| :: IsWhitespace(s[i])
  {
    if |s| > 0 && IsWhitespace(s[|s| - 1]) then TrimEnd(s[..|s| - 1]) else s
  }

  function Trim(s: String): String {
    TrimEnd(TrimStart(s))
  }

  /** The newer `mkdir -p`: surrounding whitespace is trimmed, and "" or "." creates nothing. */
  function MkdirTargets(dir: String): (r: seq<String>)
    ensures Trim(dir) == "" || Trim(dir) == "." ==> r == []
    ensures Trim(dir) != "" && Trim(dir) != "." ==> r == MkdirPrefixes(Trim(dir))
  {
    var t := Trim(dir);
    if t == "" || t == "." then [] else MkdirPrefixes(t)
  }

  /**
   * The older `mkdir -p` goes through the prefixes of the path as given,
   * untrimmed: one per name, the i-th being the lead slash (if any) and the
   * first i+1 names joined by slashes.
   */
  function MkdirTargetsVerbatim(dir: String): (r: seq<String>)
    ensures |r| == |Segments(dir)|
    ensures forall i | 0 <= i < |r| :: r[i] == Lead(dir) + Strs.Join(Segments(dir)[..i + 1], "/")
    ensures forall i | 0 <= i < |r| :: Segments(r[i]) == Segments(dir)[..i + 1]
  {
    MkdirPrefixesJoin(dir);
    MkdirPrefixesSpec(dir);
    MkdirPrefixes(dir)
  }

  // ---------------------------------------------------------------------
  // Running the steps
  // ---------------------------------------------------------------------

  /** What one directory's step did: it created the directory, or found it already there. */
  datatype StepOutcome = Created | AlreadyThere

  /** The directories created, and whether the whole walk succeeded. */
  datatype MkdirRun<E> = MkdirRun(created: seq<String>, result: Result<(), E>)

  /** Run `step` on each directory in order, stopping at the first error. */
  function RunSteps<E>(dirs: seq<String>, step: String -> Result<StepOutcome, E>): (r: MkdirRun<E>)
    ensures |r.created| <= |dirs|
  {
    if |dirs| == 0 then MkdirRun([], Ok(()))
    else
      match step(dirs[0])
      case Err(e) => MkdirRun([], Err(e))
      case Ok(o) =>
        var rest := RunSteps(dirs[1..], step);
        MkdirRun((if o == Created then [dirs[0]] else []) + rest.created, rest.result)
  }

  /** The directories whose step created them, in order. */
  function CreatedBy<E>(dirs: seq<String>, step: String -> Result<StepOutcome, E>): seq<String>
    requires forall i | 0 <= i < |dirs| :: step(dirs[i]).Ok?
  {
    if |dirs| == 0 then []
    else (if step(dirs[0]).value == Created then [dirs[0]] else []) + CreatedBy(dirs[1..], step)
  }

  /**
   * The walk succeeds exactly when every step does, and then the created
   * directories are those whose step created them; otherwise the error is
   * the first failing step's, and nothing after it is tried.
   */
  lemma {:induction false} RunStepsSpec<E>(dirs: seq<String>, step: String -> Result<StepOutcome, E>)
    ensures RunSteps(dirs, step).result.Ok? <==> forall i | 0 <= i < |dirs| :: step(dirs[i]).Ok?
    ensures RunSteps(dirs, step).result.Ok? ==> RunSteps(dirs, step).created == CreatedBy(dirs, step)
    ensures RunSteps(dirs, step).result.Err? ==>
              exists i | 0 <= i < |dirs| ::
                && (forall j | 0 <= j < i :: step(dirs[j]).Ok?)
                && step(dirs[i]) == Err(RunSteps(dirs, step).result.error)
    decreases |dirs|
  {
    if |dirs| > 0 {
      var tail := dirs[1..];
      RunStepsSpec(tail, step);
      assert forall j | 0 <= j < |tail| :: tail[j] == dirs[j + 1];
      if step(dirs[0]).Ok? && RunSteps(dirs, step).result.Err? {
        var i :| 0 <= i < |tail| && (forall j | 0 <= j < i :: step(tail[j]).Ok?)
                 && step(tail[i]) == Err(RunSteps(tail, step).result.error);
        assert dirs[i + 1] == tail[i];
        assert forall j | 1 <= j < i + 1 :: dirs[j] == tail[j - 1];
      }
    }
  }

  /**
   * The newer step: a path that exists is left alone, after its metadata
   * is read (a non-directory only draws a warning); a missing one is
   * created. Every session error stops the walk.
   */
  function ProbeStep<E>(dir: String, exists_: String -> Result<bool, E>, isDir: String -> Result<bool, E>,
                        create: String -> Result<(), E>): (r: Result<StepOutcome, E>)
    ensures r == Ok(Created) <==> exists_(dir) == Ok(false) && create(dir).Ok?
    ensures r == Ok(AlreadyThere) <==> exists_(dir) == Ok(true) && isDir(dir).Ok?
  {
    var found :- exists_(dir);
    if found then
      var _ :- isDir(dir);
      Ok(AlreadyThere)
    else
      var _ :- create(dir);
      Ok(Created)
  }

  /** The newer `mkdir -p` against a session. */
  function Mkdirs<E>(dir: String, exists_: String -> Result<bool, E>, isDir: String -> Result<bool, E>,
                     create: String -> Result<(), E>): (r: MkdirRun<E>)
    ensures Trim(dir) == "" || Trim(dir) == "." ==> r == MkdirRun([], Ok(()))
  {
    RunSteps(MkdirTargets(dir), d => ProbeStep(d, exists_, isDir, create))
  }

  /**
   * On success every directory on the way to `dir` is there: it existed
   * or was created, and exactly the missing ones were created, outermost
   * first.
   */
  lemma MkdirsOk<E>(dir: String, exists_: String -> Result<bool, E>, isDir: String -> Result<bool, E>,
                    create: String -> Result<(), E>)
    requires Mkdirs(dir, exists_, isDir, create).result.Ok?
    ensures forall i | 0 <= i < |MkdirTargets(dir)| ::
              exists_(MkdirTargets(dir)[i]) == Ok(true) || create(MkdirTargets(dir)[i]).Ok?
    ensures forall d :: d in Mkdirs(dir, exists_, isDir, create).created <==> d in MkdirTargets(dir) && exists_(d) == Ok(false)
  {
    var step: String -> Result<StepOutcome, E> := d => ProbeStep(d, exists_, isDir, create);
    var targets := MkdirTargets(dir);
    var run := RunSteps(targets, step);
    assert run == Mkdirs(dir, exists_, isDir, create);
    assert forall i | 0 <= i < |targets| :: step(targets[i]).Ok? by {
      RunStepsSpec(targets, step);
    }
    assert forall d :: d in run.created <==> d in targets && step(d) == Ok(Created) by {
      RunStepsSpec(targets, step);
      CreatedByMembers(targets, step);
    }
    forall d | d in targets ensures step(d) == Ok(Created) <==> exists_(d) == Ok(false) {
      var i :| 0 <= i < |targets| && targets[i] == d;
      assert step(d).Ok?;
    }
  }

  lemma {:induction false} CreatedByMembers<E>(dirs: seq<String>, step: String -> Result<StepOutcome, E>)
    requires forall i | 0 <= i < |dirs| :: step(dirs[i]).Ok?
    ensures forall d :: d in CreatedBy(dirs, step) <==> d in dirs && step(d) == Ok(Created)
    decreases |dirs|
  {
    if |dirs| > 0 {
      CreatedByMembers(dirs[1..], step);
      assert forall d :: d in dirs <==> d == dirs[0] || d in dirs[1..];
    }
  }

  // ---------------------------------------------------------------------
  // Classifying creation errors (older version)
  // ---------------------------------------------------------------------

  predicate IsUpper(c: char) {
    'A' <= c <= 'Z'
  }

  function LowerChar(c: char): char {
    if IsUpper(c) then (c as int + 32) as char else c
  }

  /** ASCII lower-casing: only A-Z change. */
  function AsciiLower(s: String): (r: String)
    ensures |r| == |s| && forall i | 0 <= i < |s| :: r[i] == LowerChar(s[i])
  {
    if |s| == 0 then [] else [LowerChar(s[0])] + AsciiLower(s[1..])
  }

  /** Whether a creation error means the directory is already there, as written: any "exist" counts. */
  predicate IsAlreadyExistsAsWritten(message: String) {
    var m := AsciiLower(message);
    Strs.Contains(m, "already exists") || Strs.Contains(m, "exist")
  }

  /** The classifier with negated messages excluded: "exist" counts unless it follows "not ". */
  predicate IsAlreadyExists(message: String) {
    var m := AsciiLower(message);
    Strs.Contains(m, "exist") && !Strs.Contains(m, "not exist")
  }

  /** The older step: create the directory, and treat an error the classifier accepts as "already there". */
  function CreateStep(dir: String, create: String -> Result<(), String>, alreadyExists: String -> bool)
    : (r: Result<StepOutcome, String>)
    ensures r == Ok(Created) <==> create(dir).Ok?
    ensures r.Err? <==> create(dir).Err? && !alreadyExists(create(dir).error)
    ensures r.Err? ==> r.error == create(dir).error
  {
    match create(dir)
    case Ok(_) => Ok(Created)
    case Err(message) => if alreadyExists(message) then Ok(AlreadyThere) else Err(message)
  }

  /** The older `mkdir -p` as written. */
  function MkdirsVerbatimAsWritten(dir: String, create: String -> Result<(), String>): MkdirRun<String> {
    RunSteps(MkdirTargetsVerbatim(dir), d => CreateStep(d, create, IsAlreadyExistsAsWritten))
  }

  /** The older `mkdir -p` with the corrected classifier. */
  function MkdirsVerbatim(dir: String, create: String -> Result<(), String>): (r: MkdirRun<String>)
    ensures r.result.Err? ==> !IsAlreadyExists(r.result.error)
    ensures r.result.Ok? <==>
              forall i | 0 <= i < |MkdirPrefixes(dir)| ::
                create(MkdirPrefixes(dir)[i]).Ok? || IsAlreadyExists(create(MkdirPrefixes(dir)[i]).error)
  {
    var step := d => CreateStep(d, create, IsAlreadyExists);
    var targets := MkdirTargetsVerbatim(dir);
    RunStepsSpec(targets, step);
    RunSteps(targets, step)
  }

  lemma LowerOfLower(s: String)
    requires forall c | c in s :: !IsUpper(c)
    ensures AsciiLower(s) == s
  {
    assert forall i | 0 <= i < |s| :: s[i] in s;
  }

  lemma ContainsMiddle(a: String, p: String, b: String)
    ensures Strs.Contains(a + p + b, p)
  {
    assert (a + p + b)[|a|..][..|p|] == p;
    assert Strs.StartsWith((a + p + b)[|a|..], p);
  }

  /** A walk where every directory is already there creates nothing and succeeds. */
  lemma {:induction false} RunStepsAllThere<E>(dirs: seq<String>, step: String -> Result<StepOutcome, E>)
    requires forall i | 0 <= i < |dirs| :: step(dirs[i]) == Ok(AlreadyThere)
    ensures RunSteps(dirs, step) == MkdirRun([], Ok(()))
    decreases |dirs|
  {
    if |dirs| > 0 {
      RunStepsAllThere(dirs[1..], step);
    }
  }

  /** A message saying the path does not exist is taken, as written, for "already exists"; the correction rejects it. */
  lemma NotExistClassified(message: String)
    requires Strs.Contains(AsciiLower(message), "not exist")
    ensures IsAlreadyExistsAsWritten(message)
    ensures !IsAlreadyExists(message)
  {
    var m := AsciiLower(message);
    var i :| 0 <= i <= |m| - 9 && Strs.StartsWith(m[i..], "not exist");
    assert m[i + 4..][..5] == m[i..][..9][4..];
    assert "not exist"[4..] == "exist";
    assert Strs.StartsWith(m[i + 4..], "exist");
  }

  /** The message "does not exist" says the path does not exist. */
  lemma DoesNotExistSaysNotExist()
    ensures Strs.Contains(AsciiLower("does " + "not exist"), "not exist")
  {
    LowerOfLower("does " + "not exist");
    ContainsMiddle("does ", "not exist", []);
    assert "does " + "not exist" + [] == "does " + "not exist";
  }

  /**
   * As written, a `mkdir -p` whose every creation fails because the path
   * does not exist reports success without having created a single
   * directory.
   */
  lemma AlreadyExistsMisclassifies(dir: String, create: String -> Result<(), String>, message: String)
    requires forall d :: create(d) == Err(message)
    requires Strs.Contains(AsciiLower(message), "not exist")
    ensures MkdirsVerbatimAsWritten(dir, create) == MkdirRun([], Ok(()))
  {
    NotExistClassified(message);
    RunStepsAllThere(MkdirTargetsVerbatim(dir), d => CreateStep(d, create, IsAlreadyExistsAsWritten));
  }

  /** With the corrected classifier the same walk fails, with that message, at the first directory. */
  lemma MkdirsReportsMissing(dir: String, create: String -> Result<(), String>, message: String)
    requires forall d :: create(d) == Err(message)
    requires Strs.Contains(AsciiLower(message), "not exist")
    requires Segments(dir) != []
    ensures MkdirsVerbatim(dir, create) == MkdirRun([], Err(message))
  {
    NotExistClassified(message);
  }

  /**
   * The corrected classifier accepts nothing the original rejected, and
   * still accepts a message that says "already exists" without "not exist".
   */
  lemma AlreadyExistsCorrected(message: String)
    ensures IsAlreadyExists(message) ==> IsAlreadyExistsAsWritten(message)
    ensures Strs.Contains(AsciiLower(message), "already exists") && !Strs.Contains(AsciiLower(message), "not exist")
            ==> IsAlreadyExists(message)
  {
    var m := AsciiLower(message);
    if Strs.Contains(m, "already exists") {
      var i :| 0 <= i <= |m| - 14 && Strs.StartsWith(m[i..], "already exists");
      assert m[i + 8..][..5] == m[i..][..14][8..13];
      assert "already exists"[8..13] == "exist";
      assert Strs.StartsWith(m[i + 8..], "exist");
    }
  }

  /** The usual wordings of the error are accepted by the corrected classifier. */
  lemma AlreadyExistsExamples()
    ensures IsAlreadyExists("already " + "exist" + "s")
    ensures IsAlreadyExists("file " + "exist" + "s")
  {
    AcceptedWording("already ");
    AcceptedWording("file ");
  }

  lemma AcceptedWording(prefix: String)
    requires forall c | c in prefix :: !IsUpper(c) && c != 'n'
    ensures IsAlreadyExists(prefix + "exist" + "s")
  {
    var m := prefix + "exist" + "s";
    assert forall c | c in "exist" + "s" :: c in "exists";
    assert forall c | c in "exists" :: c == 'e' || c == 'x' || c == 'i' || c == 's' || c == 't';
    assert forall c | c in m :: c in prefix || c in "exist" + "s";
    LowerOfLower(m);
    ContainsMiddle(prefix, "exist", "s");
    NotContainsNotExist(m);
  }

  /** A string with no 'n' cannot contain "not exist". */
  lemma NotContainsNotExist(s: String)
    requires 'n' !in s
    ensures !Strs.Contains(s, "not exist")
  {
    forall i | 0 <= i <= |s| - 9 ensures !Strs.StartsWith(s[i..], "not exist") {
      assert s[i..][0] == s[i] && s[i] in s;
    }
  }

  // ---------------------------------------------------------------------
  // The parent of an uploaded file
  // ---------------------------------------------------------------------

  /** The position of the last slash, if any. */
  function LastSlash(s: String): (r: Option<nat>)
    ensures r.None? <==> '/' !in s
    ensures r.Some? ==> r.value < |s| && s[r.value] == '/' && '/' !in s[r.value + 1..]
  {
    if |s| == 0 then None
    else if s[|s| - 1] == '/' then Some(|s| - 1)
    else
      var r := LastSlash(s[..|s| - 1]);
      assert forall c :: c in s <==> c in s[..|s| - 1] || c == s[|s| - 1];
      if r.Some? then
        assert s[r.value + 1..] == s[..|s| - 1][r.value + 1..] + [s[|s| - 1]];
        r
      else r
  }

  /** The directory made before uploading to `remote`: the text before the last slash, when there is some. */
  function UploadParent(remote: String): (r: Option<String>)
  {
    match LastSlash(remote)
    case None => None
    case Some(k) => if k == 0 then None else Some(remote[..k])
  }

  /**
   * A parent is made exactly when the path has a slash after its first
   * character; the path is then that parent, a slash and a file name
   * with no slash in it.
   */
  lemma UploadParentSpec(remote: String)
    ensures UploadParent(remote).None? <==> |remote| == 0 || '/' !in remote[1..]
    ensures UploadParent(remote).Some? ==>
              var p := UploadParent(remote).value;
              && p != []
              && exists name | '/' !in name :: remote == p + "/" + name
  {
    if |remote| > 0 {
      assert forall c :: c in remote <==> c == remote[0] || c in remote[1..];
      match LastSlash(remote)
      case None =>
      case Some(k) =>
        if k == 0 {
          assert remote[1..] == remote[k + 1..];
        } else {
          assert remote[1..][k - 1] == '/';
          var name := remote[k + 1..];
          assert remote == remote[..k] + "/" + name;
        }
    }
  }
}
