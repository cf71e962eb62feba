/**
 * The machine list ludis reads: a TOML table mapping a machine's name to
 * its description and the path of its plan. Loading reads the file,
 * then resolves every relative plan path against the directory the
 * configuration lives in, stopping at the first plan path that cannot be
 * resolved. Two files share this logic: `ludis.toml` (config.rs, which
 * also accepts a directory holding one) and `machines.toml`
 * (machines.rs, found through an environment variable or the working
 * directory).
 *
 * Reading and TOML parsing are a parameter `read`; the file system's
 * "is a directory" and "exists" answers, the environment and the working
 * directory are parameters too. A table is its entries in the map's
 * iteration order (by key).
 */
module LudisConfig {
  import opened Wrappers
  import Strs
  import Paths
  import PlanIds
  import Os

  type String = Strs.String
  type Path = Paths.Path

  datatype Arch = X86_64 | Aarch64

  /** The parts of a machine description this model looks at. */
  datatype Machine = Machine(hostname: String, arch: Arch, os: Os.Os)

  datatype ConfigError =
    | NotFound(path: Path)
    | Read(path: Path)
    | Parse(path: Path)
    | ResolvingPlanPath(basePath: Path, planPath: Path)

  /** Why `read` could not produce a table: the file could not be read, or was not valid TOML of the right shape. */
  datatype ReadError = ReadFailed | ParseFailed

  /** One entry as written in the file. */
  datatype MachineToml = MachineToml(machine: Machine, plan: Path)

  /** One entry once its plan path is resolved. */
  datatype MachineConfig = MachineConfig(machine: Machine, plan: PlanIds.PlanId)

  datatype Config = Config(path: Path, machines: seq<(String, MachineConfig)>)

  type Reader = Path -> Result<seq<(String, MachineToml)>, ReadError>

  // ---------------------------------------------------------------------
  // Resolving plan paths
  // ---------------------------------------------------------------------

  /**
   * An absolute plan path is kept; a relative one is joined onto the
   * parent of `base`, and fails when `base` has no parent.
   */
  function ResolvePlanId(base: Path, plan: Path): (r: Result<PlanIds.PlanId, ConfigError>)
    ensures r.Err? <==> !plan.absolute && |base.parts| == 0
    ensures r.Err? ==> r.error == ResolvingPlanPath(base, plan)
    ensures r.Ok? ==> r.value.PathId?
  {
    if plan.absolute then Ok(PlanIds.PathId(plan))
    else
      match Paths.Parent(base)
      case Some(parent) => Ok(PlanIds.PathId(Paths.Join(parent, plan)))
      case None => Err(ResolvingPlanPath(base, plan))
  }

  /**
   * A resolved plan path is the one a plan at `base` would reach by
   * naming `plan`: the same resolution plans use for the plans they call.
   */
  lemma ResolveAgreesWithPlanJoin(base: Path, plan: Path)
    requires ResolvePlanId(base, plan).Ok?
    ensures ResolvePlanId(base, plan).value == PlanIds.Join(PlanIds.PathId(base), plan)
  {
  }

  /** Resolve every entry's plan against `base`, in order; the first failure is the result. */
  function ResolveAll(base: Path, entries: seq<(String, MachineToml)>): (r: Result<seq<(String, MachineConfig)>, ConfigError>)
    ensures r.Ok? ==> |r.value| == |entries|
  {
    if |entries| == 0 then Ok([])
    else
      var (name, toml) := entries[0];
      var plan :- ResolvePlanId(base, toml.plan);
      var rest :- ResolveAll(base, entries[1..]);
      Ok([(name, MachineConfig(toml.machine, plan))] + rest)
  }

  /**
   * Resolution succeeds unless some plan path is relative and `base` has
   * no parent; it keeps every name and machine, in order, and resolves
   * each plan on its own.
   */
  lemma {:induction false} ResolveAllOk(base: Path, entries: seq<(String, MachineToml)>)
    ensures ResolveAll(base, entries).Ok? <==>
              forall i | 0 <= i < |entries| :: ResolvePlanId(base, entries[i].1.plan).Ok?
    ensures ResolveAll(base, entries).Ok? ==>
              forall i | 0 <= i < |entries| ::
                ResolveAll(base, entries).value[i]
                == (entries[i].0, MachineConfig(entries[i].1.machine, ResolvePlanId(base, entries[i].1.plan).value))
  {
    if |entries| > 0 {
      ResolveAllOk(base, entries[1..]);
      if ResolveAll(base, entries).Ok? {
        var r := ResolveAll(base, entries).value;
        forall i | 0 <= i < |entries|
          ensures r[i] == (entries[i].0, MachineConfig(entries[i].1.machine, ResolvePlanId(base, entries[i].1.plan).value))
        {
          if i > 0 {
            assert entries[i] == entries[1..][i - 1];
          }
        }
      } else if ResolvePlanId(base, entries[0].1.plan).Ok? {
        assert exists i | 0 <= i < |entries[1..]| :: ResolvePlanId(base, entries[1..][i].1.plan).Err?;
      }
    }
  }

  /** A failure reports the first relative plan path, with `base`. */
  lemma {:induction false} ResolveAllErr(base: Path, entries: seq<(String, MachineToml)>)
    requires ResolveAll(base, entries).Err?
    ensures |base.parts| == 0
    ensures FirstRelative(entries) < |entries|
    ensures ResolveAll(base, entries).error == ResolvingPlanPath(base, entries[FirstRelative(entries)].1.plan)
  {
    if entries[0].1.plan.absolute || |base.parts| > 0 {
      ResolveAllErr(base, entries[1..]);
    }
  }

  /** The index of the first relative plan path (the length when there is none). */
  function FirstRelative(entries: seq<(String, MachineToml)>): (r: nat)
    ensures r <= |entries|
    ensures forall j | 0 <= j < r :: entries[j].1.plan.absolute
    ensures r < |entries| ==> !entries[r].1.plan.absolute
  {
    if |entries| == 0 then 0
    else if !entries[0].1.plan.absolute then 0
    else 1 + FirstRelative(entries[1..])
  }

  // ---------------------------------------------------------------------
  // ludis.toml
  // ---------------------------------------------------------------------

  const ConfigFileName: String := "ludis.toml"
  const MachinesFileName: String := "machines.toml"

  /** The file read for `path`: `ludis.toml` inside it when it is a directory, else `path` itself. */
  function ConfigFile(path: Path, isDir: bool): (r: Path)
    ensures isDir ==> Paths.Parent(r) == Some(path)
    ensures !isDir ==> r == path
  {
    if isDir then
      Paths.ParentOfJoin(path, ConfigFileName);
      Paths.Join(path, Paths.Single(ConfigFileName))
    else path
  }

  /** Read and parse one file; errors carry the file's path. */
  function ReadTable(file: Path, read: Reader): (r: Result<seq<(String, MachineToml)>, ConfigError>)
    ensures r.Ok? <==> read(file).Ok?
    ensures r.Ok? ==> r.value == read(file).value
    ensures r.Err? ==> r.error == (if read(file).error.ReadFailed? then Read(file) else Parse(file))
  {
    match read(file)
    case Ok(table) => Ok(table)
    case Err(ReadFailed) => Err(Read(file))
    case Err(ParseFailed) => Err(Parse(file))
  }

  /**
   * Loading `ludis.toml` as the program does: the file is found through
   * `ConfigFile`, but plan paths are resolved against the path given,
   * not the file read.
   */
  function LoadAsWritten(path: Path, isDir: bool, read: Reader): (r: Result<Config, ConfigError>)
    ensures r.Ok? ==> r.value.path == path
  {
    var table :- ReadTable(ConfigFile(path, isDir), read);
    var machines :- ResolveAll(path, table);
    Ok(Config(path, machines))
  }

  /**
   * A directory `/srv/cfg` holding `ludis.toml` with a machine whose plan
   * is `site.rimu`: the program reads `/srv/cfg/ludis.toml` but resolves
   * the plan to `/srv/site.rimu`, outside the directory, instead of
   * `/srv/cfg/site.rimu` beside the file.
   */
  lemma LoadAsWrittenMisplacesPlan(m: Machine)
    ensures var dir := Paths.Path(true, [Paths.Normal("srv"), Paths.Normal("cfg")]);
            var plan := Paths.Single("site.rimu");
            var read: Reader := file => Ok([("web", MachineToml(m, plan))]);
            var r := LoadAsWritten(dir, true, read);
            && r.Ok?
            && r.value.machines[0].1.plan == PlanIds.PathId(Paths.Path(true, [Paths.Normal("srv"), Paths.Normal("site.rimu")]))
            && r.value.machines[0].1.plan != PlanIds.Join(PlanIds.PathId(ConfigFile(dir, true)), plan)
  {
    var dir := Paths.Path(true, [Paths.Normal("srv"), Paths.Normal("cfg")]);
    var plan := Paths.Single("site.rimu");
    var file := ConfigFile(dir, true);
    assert file.parts == [Paths.Normal("srv"), Paths.Normal("cfg"), Paths.Normal("ludis.toml")];
    var beside := PlanIds.Join(PlanIds.PathId(file), plan);
    assert beside.path.parts[1] == Paths.Normal("cfg");
  }

  /** Loading `ludis.toml` with plan paths resolved against the file that was read. */
  function Load(path: Path, isDir: bool, read: Reader): (r: Result<Config, ConfigError>)
    ensures r.Ok? ==> r.value.path == path
  {
    var file := ConfigFile(path, isDir);
    var table :- ReadTable(file, read);
    var machines :- ResolveAll(file, table);
    Ok(Config(path, machines))
  }

  /**
   * Every loaded plan is where the file names it: an absolute path as
   * written, a relative one beside the file read, which for a directory
   * means inside that directory. Loading fails only when reading does,
   * or when a relative plan sits in a file path without a parent.
   */
  lemma LoadResolvesBesideFile(path: Path, isDir: bool, read: Reader)
    requires Load(path, isDir, read).Ok?
    ensures var table := read(ConfigFile(path, isDir)).value;
            var machines := Load(path, isDir, read).value.machines;
            && |machines| == |table|
            && forall i | 0 <= i < |table| ::
                 && machines[i].0 == table[i].0
                 && machines[i].1.machine == table[i].1.machine
                 && machines[i].1.plan == PlanIds.Join(PlanIds.PathId(ConfigFile(path, isDir)), table[i].1.plan)
                 && (isDir && !table[i].1.plan.absolute ==>
                       machines[i].1.plan == PlanIds.PathId(Paths.Join(path, table[i].1.plan)))
  {
    var file := ConfigFile(path, isDir);
    var table := read(file).value;
    ResolveAllOk(file, table);
    forall i | 0 <= i < |table|
      ensures ResolvePlanId(file, table[i].1.plan).value == PlanIds.Join(PlanIds.PathId(file), table[i].1.plan)
    {
      ResolveAgreesWithPlanJoin(file, table[i].1.plan);
    }
  }

  /** Look a machine up by name. */
  function GetMachine(machines: seq<(String, MachineConfig)>, name: String): (r: Option<MachineConfig>)
    ensures r.Some? <==> exists i | 0 <= i < |machines| :: machines[i].0 == name
    ensures r.Some? ==> (name, r.value) in machines
  {
    if |machines| == 0 then None
    else if machines[0].0 == name then Some(machines[0].1)
    else GetMachine(machines[1..], name)
  }

  /**
   * The first machine, in table order, whose hostname is this host's;
   * none when the hostname cannot be found out.
   */
  function LocalMachine(machines: seq<(String, MachineConfig)>, hostname: Option<String>): (r: Option<MachineConfig>)
    ensures hostname.None? ==> r.None?
    ensures r.Some? ==> r.value.machine.hostname == hostname.value
  {
    if hostname.None? || |machines| == 0 then None
    else if machines[0].1.machine.hostname == hostname.value then Some(machines[0].1)
    else LocalMachine(machines[1..], hostname)
  }

  /**
   * With a known hostname, the result is the first entry with that
   * hostname, and there is none exactly when no entry has it.
   */
  lemma {:induction false} LocalMachineFirst(machines: seq<(String, MachineConfig)>, hostname: String)
    ensures LocalMachine(machines, Some(hostname)).None? <==>
              forall i | 0 <= i < |machines| :: machines[i].1.machine.hostname != hostname
    ensures LocalMachine(machines, Some(hostname)).Some? ==>
              exists i | 0 <= i < |machines| ::
                && machines[i].1 == LocalMachine(machines, Some(hostname)).value
                && forall j | 0 <= j < i :: machines[j].1.machine.hostname != hostname
  {
    if |machines| > 0 && machines[0].1.machine.hostname != hostname {
      LocalMachineFirst(machines[1..], hostname);
      var r := LocalMachine(machines, Some(hostname));
      if r.Some? {
        var k :| 0 <= k < |machines[1..]| && machines[1..][k].1 == r.value
                 && forall j | 0 <= j < k :: machines[1..][j].1.machine.hostname != hostname;
        assert machines[k + 1].1 == r.value;
        assert forall j | 0 <= j < k + 1 :: machines[j].1.machine.hostname != hostname by {
          forall j | 0 <= j < k + 1 ensures machines[j].1.machine.hostname != hostname {
            if j > 0 {
              assert machines[j] == machines[1..][j - 1];
            }
          }
        }
      } else {
        forall i | 0 <= i < |machines| ensures machines[i].1.machine.hostname != hostname {
          if i > 0 {
            assert machines[i] == machines[1..][i - 1];
          }
        }
      }
    }
  }

  // ---------------------------------------------------------------------
  // machines.toml
  // ---------------------------------------------------------------------

  /**
   * Where `machines.toml` is: the path the environment variable names if
   * that exists, else `machines.toml` in the working directory (`.` when
   * it cannot be found out) if that exists; otherwise not found, with the
   * working-directory candidate.
   */
  function DiscoverPath(env: Option<String>, exists_: Path -> bool, cwd: Option<Path>): (r: Result<Path, ConfigError>)
    ensures r.Ok? ==> exists_(r.value)
    ensures env.Some? && exists_(Paths.Parse(env.value)) ==> r == Ok(Paths.Parse(env.value))
    ensures r.Err? ==> r.error.NotFound? && !exists_(r.error.path)
  {
    if env.Some? && exists_(Paths.Parse(env.value)) then Ok(Paths.Parse(env.value))
    else
      var candidate := Paths.Join(cwd.GetOr(Paths.Parse(".")), Paths.Single(MachinesFileName));
      if exists_(candidate) then Ok(candidate) else Err(NotFound(candidate))
  }

  /** The fallback candidate is `machines.toml` directly inside the working directory. */
  lemma DiscoverPathFallback(env: Option<String>, exists_: Path -> bool, cwd: Path)
    requires !(env.Some? && exists_(Paths.Parse(env.value)))
    ensures var r := DiscoverPath(env, exists_, Some(cwd));
            var candidate := if r.Ok? then r.value else r.error.path;
            Paths.Parent(candidate) == Some(cwd)
  {
    Paths.ParentOfJoin(cwd, MachinesFileName);
  }

  /** Find, read and resolve `machines.toml`; plans resolve against the file found. */
  function MachinesLoad(env: Option<String>, exists_: Path -> bool, cwd: Option<Path>, read: Reader): (r: Result<Config, ConfigError>)
    ensures r.Ok? ==> exists_(r.value.path)
  {
    var path :- DiscoverPath(env, exists_, cwd);
    var table :- ReadTable(path, read);
    var machines :- ResolveAll(path, table);
    Ok(Config(path, machines))
  }

  /** Every plan of a loaded `machines.toml` is resolved beside that file. */
  lemma MachinesLoadResolvesBesideFile(env: Option<String>, exists_: Path -> bool, cwd: Option<Path>, read: Reader)
    requires MachinesLoad(env, exists_, cwd, read).Ok?
    ensures var config := MachinesLoad(env, exists_, cwd, read).value;
            var table := read(config.path).value;
            && |config.machines| == |table|
            && forall i | 0 <= i < |table| ::
                 config.machines[i] == (table[i].0, MachineConfig(table[i].1.machine,
                                          PlanIds.Join(PlanIds.PathId(config.path), table[i].1.plan)))
  {
    var path := DiscoverPath(env, exists_, cwd).value;
    var table := read(path).value;
    ResolveAllOk(path, table);
    forall i | 0 <= i < |table|
      ensures ResolvePlanId(path, table[i].1.plan).value == PlanIds.Join(PlanIds.PathId(path), table[i].1.plan)
    {
      ResolveAgreesWithPlanJoin(path, table[i].1.plan);
    }
  }
}
