/**
 * A command to run: program, arguments, environment changes, working
 * directory and whether standard output is passed through.
 *
 * Starting the process and waiting for it are outside this model: `Run`
 * and `Handle` take the process outcome as a parameter (the spawn error,
 * or the exit status with the captured output) and model only how the
 * outcome is classified. Captured standard error is taken as already
 * decoded text.
 */
module Command {
  import opened Wrappers
  import Strs

  type String = Strs.String

  /** An environment change: set to a value, or (with no value) removed. */
  type EnvChange = (String, Option<String>)

  datatype Command = Command(program: String, args: seq<String>, envs: seq<EnvChange>, dir: Option<String>, stdout: bool)

  /** The process outcome: whether it exited successfully, and what it wrote. */
  datatype Output = Output(success: bool, stdout: String, stderr: String)

  datatype CommandError =
    | Spawn(command: String, error: String)
    | Failure(command: String, stderr: String)

  function New(program: String): (r: Command)
    ensures r.program == program && r.args == [] && r.envs == [] && r.dir.None? && !r.stdout
  {
    Command(program, [], [], None, false)
  }

  function Arg(c: Command, arg: String): (r: Command)
    ensures r.args == c.args + [arg] && r.program == c.program && r.envs == c.envs && r.dir == c.dir && r.stdout == c.stdout
  {
    c.(args := c.args + [arg])
  }

  function Args(c: Command, args: seq<String>): (r: Command)
    ensures r.args == c.args + args && r.program == c.program && r.envs == c.envs && r.dir == c.dir && r.stdout == c.stdout
  {
    c.(args := c.args + args)
  }

  /** The changes without any for `key`. */
  function Without(envs: seq<EnvChange>, key: String): (r: seq<EnvChange>)
    ensures forall e :: e in r <==> e in envs && e.0 != key
  {
    if |envs| == 0 then []
    else if envs[0].0 == key then Without(envs[1..], key)
    else [envs[0]] + Without(envs[1..], key)
  }

  /** The changes with any earlier change of the same variable replaced by `change`. */
  function SetEnv(envs: seq<EnvChange>, change: EnvChange): (r: seq<EnvChange>)
    ensures forall e :: e in r <==> e == change || (e in envs && e.0 != change.0)
  {
    Without(envs, change.0) + [change]
  }

  function Env(c: Command, key: String, value: String): (r: Command)
    ensures (key, Some(value)) in r.envs && r.program == c.program && r.args == c.args
  {
    c.(envs := SetEnv(c.envs, (key, Some(value))))
  }

  function CurrentDir(c: Command, dir: String): (r: Command)
    ensures r.dir == Some(dir) && r.program == c.program && r.args == c.args
  {
    c.(dir := Some(dir))
  }

  function Stdout(c: Command, stdout: bool): (r: Command)
    ensures r.stdout == stdout && r.program == c.program && r.args == c.args
  {
    c.(stdout := stdout)
  }

  /** The command line as shown: the program alone, or the program, a space and the arguments joined by spaces. */
  function Display(c: Command): (r: String)
    ensures Strs.StartsWith(r, c.program)
    ensures |r| == |c.program| <==> |Strs.Join(c.args, " ")| == 0
  {
    var args := Strs.Join(c.args, " ");
    if |args| == 0 then c.program else c.program + " " + args
  }

  /** Adding an argument to a command that already shows arguments adds a space and the argument. */
  lemma DisplayArg(c: Command, arg: String)
    requires |Strs.Join(c.args, " ")| > 0
    ensures Display(Arg(c, arg)) == Display(c) + " " + arg
  {
    Strs.JoinAppend(c.args, " ", arg);
  }

  /** The command lines shown for a program with no, one and two arguments. */
  lemma DisplayExamples()
    ensures Display(New("lusid")) == "lusid"
    ensures Display(Arg(New("lusid"), "-a")) == "lusid -a"
    ensures Display(Arg(Arg(New("lusid"), "-a"), "-b")) == "lusid -a -b"
  {
    assert Arg(New("lusid"), "-a").args == ["-a"];
    DisplayArg(Arg(New("lusid"), "-a"), "-b");
  }

  /** The environment changes that set a value, in order. */
  function SetValues(envs: seq<EnvChange>): (r: seq<EnvChange>)
    ensures forall e | e in r :: e in envs && e.1.Some?
    ensures forall e | e in envs && e.1.Some? :: e in r
  {
    if |envs| == 0 then []
    else if envs[0].1.Some? then [envs[0]] + SetValues(envs[1..])
    else SetValues(envs[1..])
  }

  /**
   * The same command run through `sudo -n`: the original program becomes
   * the second argument, the stdout flag and working directory are kept,
   * and of the environment only the variables given a value are passed.
   */
  function Sudo(c: Command): (r: Command)
    ensures r.program == "sudo" && r.args == ["-n", c.program] + c.args
    ensures r.stdout == c.stdout && r.dir == c.dir
    ensures forall e :: e in r.envs <==> e in c.envs && e.1.Some?
  {
    Command("sudo", ["-n", c.program] + c.args, SetValues(c.envs), c.dir, c.stdout)
  }

  /** The privileged command line is the original one behind `sudo -n`. */
  lemma {:induction false} SudoDisplay(c: Command)
    requires |c.args| == 0 || |Strs.Join(c.args, " ")| > 0
    ensures Display(Sudo(c)) == "sudo -n " + Display(c)
  {
    var parts := ["-n", c.program] + c.args;
    JoinPrefix(["-n", c.program], c.args);
    assert Strs.Join(["-n", c.program], " ") == "-n " + c.program by {
      assert ["-n", c.program][1..] == [c.program];
    }
  }

  /** Joining a non-empty head with a tail inserts one separator between them (when the tail is not empty). */
  lemma {:induction false} JoinPrefix(a: seq<String>, b: seq<String>)
    requires |a| > 0
    ensures Strs.Join(a + b, " ") == if |b| == 0 then Strs.Join(a, " ") else Strs.Join(a, " ") + " " + Strs.Join(b, " ")
    decreases |b|
  {
    if |b| == 0 {
      assert a + b == a;
    } else {
      var last := b[|b| - 1];
      var init := b[..|b| - 1];
      assert b == init + [last];
      assert a + b == (a + init) + [last];
      Strs.JoinAppend(a + init, " ", last);
      JoinPrefix(a, init);
      if |init| > 0 {
        Strs.JoinAppend(init, " ", last);
      } else {
        assert b == [last];
      }
    }
  }

  /** Running: a spawn failure, a failed exit naming the command line and its error output, or the output. */
  function Run(c: Command, outcome: Result<Output, String>): (r: Result<Output, CommandError>)
    ensures r.Ok? <==> outcome.Ok? && outcome.value.success
    ensures r.Ok? ==> r.value == outcome.value
    ensures outcome.Err? ==> r == Err(Spawn(Display(c), outcome.error))
    ensures outcome.Ok? && !outcome.value.success ==> r == Err(Failure(Display(c), outcome.value.stderr))
  {
    match outcome
    case Err(error) => Err(Spawn(Display(c), error))
    case Ok(out) =>
      if out.success then Ok(out) else Err(Failure(Display(c), out.stderr))
  }

  /**
   * Running with handlers: on success the stdout handler decides; on a
   * failed exit the stderr handler may turn the failure into a value or a
   * handler error, and only when it declines is the exit a `Failure`.
   */
  function Handle<V, HE>(c: Command, outcome: Result<Output, String>,
                         onStdout: String -> Result<V, HE>,
                         onStderr: String -> Result<Option<V>, HE>): (r: Result<Result<V, HE>, CommandError>)
    ensures outcome.Err? ==> r == Err(Spawn(Display(c), outcome.error))
    ensures outcome.Ok? && outcome.value.success ==> r == Ok(onStdout(outcome.value.stdout))
    ensures outcome.Ok? && !outcome.value.success ==>
              match onStderr(outcome.value.stderr)
              case Err(e) => r == Ok(Err(e))
              case Ok(Some(v)) => r == Ok(Ok(v))
              case Ok(None) => r == Err(Failure(Display(c), outcome.value.stderr))
  {
    match outcome
    case Err(error) => Err(Spawn(Display(c), error))
    case Ok(out) =>
      if out.success then Ok(onStdout(out.stdout))
      else match onStderr(out.stderr)
        case Err(e) => Ok(Err(e))
        case Ok(Some(v)) => Ok(Ok(v))
        case Ok(None) => Err(Failure(Display(c), out.stderr))
  }

  /**
   * `Handle` fails exactly when `Run` would and the stderr handler, if
   * consulted, declines; its error is then `Run`'s error.
   */
  lemma HandleRun<V, HE>(c: Command, outcome: Result<Output, String>,
                         onStdout: String -> Result<V, HE>,
                         onStderr: String -> Result<Option<V>, HE>)
    ensures Handle(c, outcome, onStdout, onStderr).Err? <==>
              Run(c, outcome).Err? && (outcome.Ok? ==> onStderr(outcome.value.stderr) == Ok(None))
    ensures Handle(c, outcome, onStdout, onStderr).Err? ==>
              Handle(c, outcome, onStdout, onStderr).error == Run(c, outcome).error
  {
  }
}
