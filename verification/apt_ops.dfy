/**
 * Per-epoch merging of apt operations, in the operation crate's two
 * versions.
 *
 * `AptOps` is the earlier version: only installs, merged into at most one
 * install of the sorted, duplicate-free union of the packages. Applying
 * only logs, so it cannot fail.
 *
 * `AptOperations` is the later version: an `Update` as well, kept at most
 * once and always first, and applying runs `apt-get` through `sudo`. The
 * command's exit is a parameter of `Apply`.
 */
module AptOps {
  import opened Wrappers
  import Strs

  type String = Strs.String

  datatype AptOperation = Install(packages: seq<String>)

  /** Every package of every operation, in order. */
  function AllPackages(ops: seq<AptOperation>): seq<String> {
    if |ops| == 0 then [] else ops[0].packages + AllPackages(ops[1..])
  }

  /**
   * Merge an epoch's installs: nothing when no package is named, else one
   * install of each named package once, sorted.
   */
  function Merge(ops: seq<AptOperation>): (r: seq<AptOperation>)
    ensures |r| == 0 <==> |AllPackages(ops)| == 0
    ensures |r| <= 1
    ensures |r| == 1 ==> Strs.StrictlySorted(r[0].packages) && Strs.Elems(r[0].packages) == Strs.Elems(AllPackages(ops))
  {
    var install := Strs.SortDedup(AllPackages(ops));
    if |install| == 0 then [] else [Install(install)]
  }

  lemma {:induction false} AllPackagesAppend(a: seq<AptOperation>, b: seq<AptOperation>)
    ensures AllPackages(a + b) == AllPackages(a) + AllPackages(b)
  {
    if |a| == 0 {
      assert a + b == b;
    } else {
      assert (a + b)[1..] == a[1..] + b;
      AllPackagesAppend(a[1..], b);
    }
  }

  /** A package is named by the operations exactly when some operation names it. */
  lemma {:induction false} AllPackagesMember(ops: seq<AptOperation>, p: String)
    ensures p in AllPackages(ops) <==> exists i | 0 <= i < |ops| :: p in ops[i].packages
  {
    if |ops| > 0 {
      AllPackagesMember(ops[1..], p);
      if p in AllPackages(ops[1..]) {
        var i :| 0 <= i < |ops[1..]| && p in ops[1..][i].packages;
        assert p in ops[i + 1].packages;
      }
      if exists i | 0 <= i < |ops| :: p in ops[i].packages {
        var i :| 0 <= i < |ops| && p in ops[i].packages;
        if i > 0 {
          assert p in ops[1..][i - 1].packages;
        }
      }
    }
  }

  /** Reordering the operations, splitting their packages differently or repeating packages does not change the merge. */
  lemma MergeCanonical(a: seq<AptOperation>, b: seq<AptOperation>)
    requires Strs.Elems(AllPackages(a)) == Strs.Elems(AllPackages(b))
    ensures Merge(a) == Merge(b)
  {
    Strs.SortDedupCanonical(AllPackages(a), AllPackages(b));
  }

  /** In particular, any permutation of the operations merges the same. */
  lemma MergePermutation(a: seq<AptOperation>, b: seq<AptOperation>)
    requires multiset(a) == multiset(b)
    ensures Merge(a) == Merge(b)
  {
    forall p ensures p in AllPackages(a) <==> p in AllPackages(b) {
      AllPackagesMember(a, p);
      AllPackagesMember(b, p);
      if exists i | 0 <= i < |a| :: p in a[i].packages {
        var i :| 0 <= i < |a| && p in a[i].packages;
        assert a[i] in multiset(b);
        var j :| 0 <= j < |b| && b[j] == a[i];
      }
      if exists j | 0 <= j < |b| :: p in b[j].packages {
        var j :| 0 <= j < |b| && p in b[j].packages;
        assert b[j] in multiset(a);
        var i :| 0 <= i < |a| && a[i] == b[j];
      }
    }
    MergeCanonical(a, b);
  }

  /** Merging a merged epoch again changes nothing. */
  lemma MergeIdempotent(ops: seq<AptOperation>)
    ensures Merge(Merge(ops)) == Merge(ops)
  {
    var m := Merge(ops);
    if |m| == 1 {
      assert m[1..] == [];
      assert AllPackages(m) == m[0].packages;
      Strs.SortDedupIdempotent(AllPackages(ops));
    }
  }

  const NothingToInstall: String := "[apt] nothing to install"
  const InstallPrefix: String := "[apt] install: "

  /** The line an install logs: its packages joined by ", ", or that there is nothing to install. */
  function LogLine(op: AptOperation): (r: String)
    ensures r == NothingToInstall <==> |op.packages| == 0
    ensures |op.packages| > 0 ==> r == InstallPrefix + Strs.Join(op.packages, ", ")
  {
    if |op.packages| == 0 then NothingToInstall
    else
      var line := InstallPrefix + Strs.Join(op.packages, ", ");
      assert line[6] == 'i' != NothingToInstall[6];
      line
  }

  /**
   * Applying only logs: one line per install, in order, listing its
   * packages or saying there is nothing to install. It never fails.
   */
  function Apply(ops: seq<AptOperation>): (r: (seq<String>, Result<(), ()>))
    ensures r.1.Ok?
    ensures |r.0| == |ops|
    ensures forall i | 0 <= i < |ops| :: r.0[i] == NothingToInstall <==> |ops[i].packages| == 0
    ensures forall i | 0 <= i < |ops| && |ops[i].packages| > 0 :: r.0[i] == InstallPrefix + Strs.Join(ops[i].packages, ", ")
  {
    if |ops| == 0 then ([], Ok(()))
    else
      var rest := Apply(ops[1..]);
      assert forall i | 1 <= i < |ops| :: ops[1..][i - 1] == ops[i];
      ([LogLine(ops[0])] + rest.0, Ok(()))
  }

  /** The log of two stretches of installs is the first's followed by the second's. */
  lemma ApplyAppend(a: seq<AptOperation>, b: seq<AptOperation>)
    ensures Apply(a + b).0 == Apply(a).0 + Apply(b).0
  {
    var l := Apply(a + b).0;
    forall i | 0 <= i < |l| ensures l[i] == (Apply(a).0 + Apply(b).0)[i] {
      if i < |a| {
        assert (a + b)[i] == a[i];
      } else {
        assert (a + b)[i] == b[i - |a|];
      }
    }
  }
}

module AptOperations {
  import opened Wrappers
  import Strs
  import Command

  type String = Strs.String

  datatype AptOperation =
    | Update
    | Install(packages: seq<String>)

  /** The packages of the installs, in order. */
  function InstallPackages(ops: seq<AptOperation>): seq<String> {
    if |ops| == 0 then []
    else (if ops[0].Install? then ops[0].packages else []) + InstallPackages(ops[1..])
  }

  predicate HasUpdate(ops: seq<AptOperation>) {
    exists i | 0 <= i < |ops| :: ops[i].Update?
  }

  /**
   * Merge an epoch's operations: one `Update` first if any was asked
   * for, then one install of the sorted, duplicate-free union of the
   * packages if any package was named.
   */
  function Merge(ops: seq<AptOperation>): (r: seq<AptOperation>)
    ensures |r| <= 2
    ensures HasUpdate(ops) <==> |r| > 0 && r[0].Update?
    ensures |InstallPackages(ops)| > 0 <==> |r| > 0 && r[|r| - 1].Install?
    ensures |r| == 2 ==> r[0].Update? && r[1].Install?
    ensures |r| > 0 && r[|r| - 1].Install? ==>
              Strs.StrictlySorted(r[|r| - 1].packages) && Strs.Elems(r[|r| - 1].packages) == Strs.Elems(InstallPackages(ops))
  {
    var install := Strs.SortDedup(InstallPackages(ops));
    assert |InstallPackages(ops)| > 0 ==> InstallPackages(ops)[0] in Strs.Elems(install);
    assert |install| > 0 ==> install[0] in Strs.Elems(InstallPackages(ops));
    if HasUpdate(ops) then
      if |install| == 0 then [Update] else [Update, Install(install)]
    else if |install| == 0 then []
    else [Install(install)]
  }

  /** A package is installed by the operations exactly when some install names it. */
  lemma {:induction false} InstallPackagesMember(ops: seq<AptOperation>, p: String)
    ensures p in InstallPackages(ops) <==> exists i | 0 <= i < |ops| :: ops[i].Install? && p in ops[i].packages
  {
    if |ops| > 0 {
      InstallPackagesMember(ops[1..], p);
      if p in InstallPackages(ops[1..]) {
        var i :| 0 <= i < |ops[1..]| && ops[1..][i].Install? && p in ops[1..][i].packages;
        assert ops[i + 1] == ops[1..][i];
      }
      if exists i | 0 <= i < |ops| :: ops[i].Install? && p in ops[i].packages {
        var i :| 0 <= i < |ops| && ops[i].Install? && p in ops[i].packages;
        if i > 0 {
          assert ops[1..][i - 1] == ops[i];
        }
      }
    }
  }

  /** The merge does not depend on the order of the operations. */
  lemma MergePermutation(a: seq<AptOperation>, b: seq<AptOperation>)
    requires multiset(a) == multiset(b)
    ensures Merge(a) == Merge(b)
  {
    forall p ensures p in InstallPackages(a) <==> p in InstallPackages(b) {
      InstallPackagesMember(a, p);
      InstallPackagesMember(b, p);
      if exists i | 0 <= i < |a| :: a[i].Install? && p in a[i].packages {
        var i :| 0 <= i < |a| && a[i].Install? && p in a[i].packages;
        assert a[i] in multiset(b);
        var j :| 0 <= j < |b| && b[j] == a[i];
      }
      if exists j | 0 <= j < |b| :: b[j].Install? && p in b[j].packages {
        var j :| 0 <= j < |b| && b[j].Install? && p in b[j].packages;
        assert b[j] in multiset(a);
        var i :| 0 <= i < |a| && a[i] == b[j];
      }
    }
    Strs.SortDedupCanonical(InstallPackages(a), InstallPackages(b));
    if HasUpdate(a) {
      var i :| 0 <= i < |a| && a[i].Update?;
      assert a[i] in multiset(b);
    }
    if HasUpdate(b) {
      var j :| 0 <= j < |b| && b[j].Update?;
      assert b[j] in multiset(a);
    }
  }

  /** Merging a merged epoch again changes nothing. */
  lemma MergeIdempotent(ops: seq<AptOperation>)
    ensures Merge(Merge(ops)) == Merge(ops)
  {
    var m := Merge(ops);
    var install := Strs.SortDedup(InstallPackages(ops));
    if |install| == 0 {
      assert InstallPackages(m) == [] by {
        if |m| == 1 {
          assert m[1..] == [];
        }
      }
    } else {
      if HasUpdate(ops) {
        assert m == [Update, Install(install)];
        assert m[1..] == [Install(install)] && m[1..][1..] == [];
        assert InstallPackages(m[1..]) == install + [];
        assert InstallPackages(m) == install;
      } else {
        assert m[1..] == [];
        assert InstallPackages(m) == install;
      }
      Strs.SortDedupIdempotent(InstallPackages(ops));
    }
  }

  /** The operation as shown in logs: `Apt::Update`, or the packages listed comma-separated. */
  function Display(op: AptOperation): (r: String)
    ensures op.Update? ==> r == "Apt::Update"
    ensures op.Install? ==> Strs.StartsWith(r, "Apt::Install(packages = [") && r[|r| - 2..] == "])"
  {
    match op
    case Update => "Apt::Update"
    case Install(packages) => "Apt::Install(packages = [" + Strs.Join(packages, ", ") + "])"
  }

  lemma DisplayExamples()
    ensures Display(Install(["a", "b"])) == "Apt::Install(packages = [a, b])"
    ensures Display(Install([])) == "Apt::Install(packages = [])"
  {
    assert ["a", "b"][1..] == ["b"];
  }

  /** `apt-get` with the non-interactive frontend and output shown, run through `sudo`. */
  function AptGet(args: seq<String>): Command.Command {
    var c := Command.Stdout(Command.Args(Command.Env(Command.New("apt-get"), "DEBIAN_FRONTEND", "noninteractive"), args), true);
    Command.Sudo(c)
  }

  /**
   * The command applying an operation runs, if any: an install with no
   * packages runs nothing.
   */
  function ApplyCommand(op: AptOperation): (r: Option<Command.Command>)
    ensures r.None? <==> op.Install? && |op.packages| == 0
    ensures r.Some? ==> && r.value.program == "sudo"
                        && r.value.args == ["-n", "apt-get"] + (if op.Update? then ["update"] else ["install", "-y"] + op.packages)
                        && ("DEBIAN_FRONTEND", Some("noninteractive")) in r.value.envs
                        && r.value.stdout
  {
    match op
    case Update => Some(AptGet(["update"]))
    case Install(packages) =>
      if |packages| == 0 then None else Some(AptGet(["install", "-y"] + packages))
  }

  datatype AptApplyError = CommandFailed(error: Command.CommandError)

  /**
   * Apply one operation, given how its command's process turns out. An
   * empty install succeeds without running anything; otherwise the
   * command's failure is the error.
   */
  function Apply(op: AptOperation, outcome: Result<Command.Output, String>): (r: Result<(), AptApplyError>)
    ensures op.Install? && |op.packages| == 0 ==> r.Ok?
    ensures ApplyCommand(op).Some? ==>
              (r.Ok? <==> Command.Run(ApplyCommand(op).value, outcome).Ok?)
              && (r.Err? ==> r.error == CommandFailed(Command.Run(ApplyCommand(op).value, outcome).error))
  {
    match ApplyCommand(op)
    case None => Ok(())
    case Some(c) =>
      match Command.Run(c, outcome)
      case Ok(_) => Ok(())
      case Err(e) => Err(CommandFailed(e))
  }
}
