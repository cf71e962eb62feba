/**
 * The apt resource type: desired packages become one resource per
 * package, each resource's state is probed, a resource that is not yet
 * installed needs an install change, and each change becomes one apt
 * install operation.
 */
module AptResource {
  import opened Wrappers
  import Strs
  import AptOps

  type String = Strs.String

  datatype AptResource = AptResource(package: String)

  datatype AptState = AptState(installed: bool)

  datatype AptChange = Install(package: String)

  /** The two accepted parameter shapes, the same as the package operation's. */
  datatype AptParams =
    | Package(package: String)
    | Packages(packages: seq<String>)

  /** The packages the parameters name, in order. */
  function ParamPackages(params: AptParams): seq<String> {
    match params
    case Package(p) => [p]
    case Packages(ps) => ps
  }

  /** One resource per named package, in order. */
  function Resources(params: AptParams): (r: seq<AptResource>)
    ensures |r| == |ParamPackages(params)|
    ensures forall i | 0 <= i < |r| :: r[i].package == ParamPackages(params)[i]
  {
    match params
    case Package(package) => [AptResource(package)]
    case Packages(packages) => PackageResources(packages)
  }

  function PackageResources(packages: seq<String>): (r: seq<AptResource>)
    ensures |r| == |packages| && forall i | 0 <= i < |r| :: r[i].package == packages[i]
  {
    if |packages| == 0 then [] else [AptResource(packages[0])] + PackageResources(packages[1..])
  }

  /** The probe reports every package as not installed. */
  function State(resource: AptResource): (r: Result<AptState, ()>)
    ensures r.Ok? && !r.value.installed
  {
    Ok(AptState(false))
  }

  /** A resource needs a change exactly when it is not installed; the change installs its package. */
  function Change(resource: AptResource, state: AptState): (r: Option<AptChange>)
    ensures r.None? <==> state.installed
    ensures r.Some? ==> r.value.package == resource.package
  {
    if state.installed then None else Some(Install(resource.package))
  }

  /** An install change is one apt install of just that package. */
  function Operations(change: AptChange): (r: seq<AptOps.AptOperation>)
    ensures |r| == 1 && r[0].packages == [change.package]
  {
    [AptOps.Install([change.package])]
  }
}

/**
 * The per-epoch resource pipeline: specs to resources, resources to
 * states (through a probe given as a parameter), states to changes, and
 * changes to operations.
 */
module ResourcePipeline {
  import opened Wrappers
  import Strs
  import AptOps
  import AptResource
  import Causal

  type String = Strs.String

  datatype ResourceSpec = Apt(params: AptResource.AptParams)
  datatype Resource = Apt(resource: AptResource.AptResource)
  datatype ResourceState = Apt(state: AptResource.AptState)
  datatype ResourceChange = Apt(change: AptResource.AptChange)
  datatype Operation = Apt(op: AptOps.AptOperation)

  /** The packages of all specs, in order. */
  function SpecPackages(specs: seq<ResourceSpec>): seq<String> {
    if |specs| == 0 then [] else AptResource.ParamPackages(specs[0].params) + SpecPackages(specs[1..])
  }

  /** The resources of the specs, in order: `Resources` of each spec, concatenated. */
  function Atoms(specs: seq<ResourceSpec>): (r: seq<AptResource.AptResource>)
    ensures |r| == |SpecPackages(specs)|
    ensures forall i | 0 <= i < |r| :: r[i].package == SpecPackages(specs)[i]
  {
    if |specs| == 0 then [] else AptResource.Resources(specs[0].params) + Atoms(specs[1..])
  }

  function WrapResources(atoms: seq<AptResource.AptResource>): (r: seq<Resource>)
    ensures |r| == |atoms| && forall i | 0 <= i < |r| :: r[i] == Resource.Apt(atoms[i])
  {
    if |atoms| == 0 then [] else [Resource.Apt(atoms[0])] + WrapResources(atoms[1..])
  }

  /** One resource per package named by the specs, in order; none for no specs. */
  function SpecsToResources(specs: seq<ResourceSpec>): (r: seq<Resource>)
    ensures |specs| == 0 ==> r == []
    ensures |r| == |SpecPackages(specs)|
    ensures forall i | 0 <= i < |r| :: r[i] == Resource.Apt(AptResource.AptResource(SpecPackages(specs)[i]))
  {
    if |specs| == 0 then [] else WrapResources(Atoms(specs))
  }

  /**
   * Probe each resource in order; the first probe error aborts. On
   * success there is one state per resource, in order.
   */
  function QueryStates<E>(resources: seq<Resource>, probe: AptResource.AptResource -> Result<AptResource.AptState, E>)
    : (r: Result<seq<ResourceState>, E>)
    ensures r.Ok? <==> forall i | 0 <= i < |resources| :: probe(resources[i].resource).Ok?
    ensures r.Ok? ==> |r.value| == |resources|
                      && forall i | 0 <= i < |resources| :: r.value[i] == ResourceState.Apt(probe(resources[i].resource).value)
    ensures r.Err? ==> exists i | 0 <= i < |resources| ::
                         && (forall j | 0 <= j < i :: probe(resources[j].resource).Ok?)
                         && probe(resources[i].resource) == Err(r.error)
  {
    if |resources| == 0 then Ok([])
    else match probe(resources[0].resource)
      case Err(e) => Err(e)
      case Ok(state) =>
        match QueryStates(resources[1..], probe)
        case Err(e) =>
          ghost var i :| 0 <= i < |resources[1..]| && (forall j | 0 <= j < i :: probe(resources[1..][j].resource).Ok?)
                   && probe(resources[1..][i].resource) == Err(e);
          assert forall j | 1 <= j < i + 1 :: resources[j] == resources[1..][j - 1];
          assert resources[i + 1] == resources[1..][i];
          Err(e)
        case Ok(rest) =>
          assert forall j | 1 <= j < |resources| :: resources[j] == resources[1..][j - 1];
          Ok([ResourceState.Apt(state)] + rest)
  }

  /** With the built-in probe every resource's state is "not installed". */
  lemma QueryStatesBuiltIn(resources: seq<Resource>)
    ensures QueryStates(resources, AptResource.State).Ok?
    ensures forall i | 0 <= i < |resources| :: !QueryStates(resources, AptResource.State).value[i].state.installed
  {
  }

  /** `resources_to_changes` asserts that the states answer the resources one for one. */
  datatype Panic = LengthsDiffer

  /**
   * The changes the resources need, given their states in the same order:
   * those that need one, in order. Lists of different lengths stop the
   * program instead.
   */
  function ResourcesToChanges(resources: seq<Resource>, states: seq<ResourceState>): (r: Result<seq<ResourceChange>, Panic>)
    ensures r.Err? <==> |resources| != |states|
    ensures r.Ok? ==> |r.value| <= |resources|
    ensures r.Ok? ==> forall c | c in r.value :: exists i | 0 <= i < |resources| ::
                        AptResource.Change(resources[i].resource, states[i].state) == Some(c.change)
  {
    if |resources| != |states| then Err(LengthsDiffer) else Ok(PairChanges(resources, states))
  }

  /** The loop over the paired resources and states. */
  function PairChanges(resources: seq<Resource>, states: seq<ResourceState>): (r: seq<ResourceChange>)
    requires |resources| == |states|
    ensures |r| <= |resources|
    ensures forall c | c in r :: exists i | 0 <= i < |resources| ::
              AptResource.Change(resources[i].resource, states[i].state) == Some(c.change)
  {
    if |resources| == 0 then []
    else
      var rest := PairChanges(resources[1..], states[1..]);
      assert forall i | 1 <= i < |resources| :: resources[i] == resources[1..][i - 1] && states[i] == states[1..][i - 1];
      match AptResource.Change(resources[0].resource, states[0].state)
      case Some(change) => [ResourceChange.Apt(change)] + rest
      case None => rest
  }

  /** One resource: an install of its package exactly when it is not installed. */
  lemma ResourcesToChangesSingle(resource: Resource, state: ResourceState)
    ensures ResourcesToChanges([resource], [state])
            == Ok(if state.state.installed then [] else [ResourceChange.Apt(AptResource.Install(resource.resource.package))])
  {
    var change := if state.state.installed then [] else [ResourceChange.Apt(AptResource.Install(resource.resource.package))];
    assert [resource][1..] == [] && [state][1..] == [];
    assert PairChanges([resource][1..], [state][1..]) == [];
    assert PairChanges([resource], [state]) == change + [] == change;
    assert ResourcesToChanges([resource], [state]) == Ok(change);
  }

  /**
   * The changes of two stretches of paired resources and states are those
   * of the first followed by those of the second: with the one-resource
   * case, the result is exactly the needed changes in input order.
   */
  lemma {:induction false} ResourcesToChangesAppend(a: seq<Resource>, s: seq<ResourceState>, b: seq<Resource>, t: seq<ResourceState>)
    requires |a| == |s| && |b| == |t|
    ensures ResourcesToChanges(a + b, s + t) == Ok(ResourcesToChanges(a, s).value + ResourcesToChanges(b, t).value)
  {
    PairChangesAppend(a, s, b, t);
  }

  lemma {:induction false} PairChangesAppend(a: seq<Resource>, s: seq<ResourceState>, b: seq<Resource>, t: seq<ResourceState>)
    requires |a| == |s| && |b| == |t|
    ensures PairChanges(a + b, s + t) == PairChanges(a, s) + PairChanges(b, t)
  {
    if |a| == 0 {
      assert a + b == b && s + t == t;
    } else {
      assert (a + b)[1..] == a[1..] + b && (s + t)[1..] == s[1..] + t;
      assert (a + b)[0] == a[0] && (s + t)[0] == s[0];
      PairChangesAppend(a[1..], s[1..], b, t);
    }
  }

  /** No change is lost: every resource not yet in its desired state gets an install of its package. */
  lemma {:induction false} ResourcesToChangesComplete(resources: seq<Resource>, states: seq<ResourceState>)
    requires |resources| == |states|
    ensures forall i | 0 <= i < |resources| && !states[i].state.installed ::
              ResourceChange.Apt(AptResource.Install(resources[i].resource.package)) in ResourcesToChanges(resources, states).value
  {
    PairChangesComplete(resources, states);
  }

  lemma {:induction false} PairChangesComplete(resources: seq<Resource>, states: seq<ResourceState>)
    requires |resources| == |states|
    ensures forall i | 0 <= i < |resources| && !states[i].state.installed ::
              ResourceChange.Apt(AptResource.Install(resources[i].resource.package)) in PairChanges(resources, states)
  {
    if |resources| > 0 {
      var r := PairChanges(resources, states);
      var rest := PairChanges(resources[1..], states[1..]);
      PairChangesComplete(resources[1..], states[1..]);
      assert r == rest || r == [ResourceChange.Apt(AptResource.Install(resources[0].resource.package))] + rest;
      forall i | 0 <= i < |resources| && !states[i].state.installed
        ensures ResourceChange.Apt(AptResource.Install(resources[i].resource.package)) in r
      {
        if i > 0 {
          assert resources[i] == resources[1..][i - 1] && states[i] == states[1..][i - 1];
        }
      }
    }
  }

  /** When no resource is in its desired state, the changes follow the resources one for one. */
  lemma {:induction false} ResourcesToChangesAll(resources: seq<Resource>, states: seq<ResourceState>)
    requires |resources| == |states|
    requires forall i | 0 <= i < |states| :: !states[i].state.installed
    ensures var r := ResourcesToChanges(resources, states).value;
            |r| == |resources| && forall i | 0 <= i < |r| :: r[i].change.package == resources[i].resource.package
  {
    PairChangesAll(resources, states);
  }

  lemma {:induction false} PairChangesAll(resources: seq<Resource>, states: seq<ResourceState>)
    requires |resources| == |states|
    requires forall i | 0 <= i < |states| :: !states[i].state.installed
    ensures var r := PairChanges(resources, states);
            |r| == |resources| && forall i | 0 <= i < |r| :: r[i].change.package == resources[i].resource.package
  {
    if |resources| > 0 {
      assert forall i | 1 <= i < |states| :: states[i] == states[1..][i - 1];
      PairChangesAll(resources[1..], states[1..]);
      var rest := PairChanges(resources[1..], states[1..]);
      assert PairChanges(resources, states) == [ResourceChange.Apt(AptResource.Install(resources[0].resource.package))] + rest;
      assert forall i | 1 <= i < |resources| :: resources[i] == resources[1..][i - 1];
    }
  }

  /** Each change's operations, concatenated in order: one install of one package per change. */
  function ChangesToOperations(changes: seq<ResourceChange>): (r: seq<Operation>)
    ensures |r| == |changes|
    ensures forall i | 0 <= i < |r| :: r[i] == Operation.Apt(AptOps.Install([changes[i].change.package]))
  {
    if |changes| == 0 then []
    else
      var ops := AptResource.Operations(changes[0].change);
      [Operation.Apt(ops[0])] + ChangesToOperations(changes[1..])
  }

  function AptOperations(ops: seq<Operation>): (r: seq<AptOps.AptOperation>)
    ensures |r| == |ops| && forall i | 0 <= i < |r| :: r[i] == ops[i].op
  {
    if |ops| == 0 then [] else [ops[0].op] + AptOperations(ops[1..])
  }

  /**
   * The whole pipeline for one epoch, with the built-in probe: the merged
   * operations install every package the specs name, once each, sorted,
   * in a single install; no specs (or no packages) give no operation.
   */
  lemma EpochInstallsSpecPackages(specs: seq<ResourceSpec>)
    ensures var resources := SpecsToResources(specs);
            var states := QueryStates(resources, AptResource.State).value;
            var ops := ChangesToOperations(ResourcesToChanges(resources, states).value);
            var merged := AptOps.Merge(AptOperations(ops));
            && (|merged| == 0 <==> |SpecPackages(specs)| == 0)
            && (|merged| == 1 ==> merged[0].packages == Strs.SortDedup(SpecPackages(specs)))
  {
    var resources := SpecsToResources(specs);
    QueryStatesBuiltIn(resources);
    var states := QueryStates(resources, AptResource.State).value;
    var changes := ResourcesToChanges(resources, states).value;
    ResourcesToChangesAll(resources, states);
    var ops := AptOperations(ChangesToOperations(changes));
    SinglesPackages(ops);
    assert forall i | 0 <= i < |ops| :: ops[i].packages == [SpecPackages(specs)[i]];
    assert AptOps.AllPackages(ops) == SpecPackages(specs);
  }

  /** Installs of one package each name, all together, exactly those packages in order. */
  lemma {:induction false} SinglesPackages(ops: seq<AptOps.AptOperation>)
    requires forall i | 0 <= i < |ops| :: |ops[i].packages| == 1
    ensures |AptOps.AllPackages(ops)| == |ops|
    ensures forall i | 0 <= i < |ops| :: AptOps.AllPackages(ops)[i] == ops[i].packages[0]
  {
    if |ops| > 0 {
      SinglesPackages(ops[1..]);
      assert ops[0].packages == [ops[0].packages[0]];
    }
  }

  /**
   * The epochs of a resource tree: the causal layering of its leaves,
   * each epoch listing the specs of its leaves.
   */
  method ComputeEpochs(tree: Causal.Tree<String, ResourceSpec>)
    returns (r: Result<seq<seq<ResourceSpec>>, Causal.EpochError<String>>, ghost waves: seq<seq<nat>>)
    ensures r.Ok? <==> Causal.Expected(tree).Ok?
    ensures r.Err? ==> r.error == Causal.Expected(tree).error
    ensures r.Ok? ==> && Causal.Layered(tree, waves)
                      && Causal.Partition(Causal.Count(tree), waves)
                      && Causal.Gathered(Causal.Flatten(tree, [], []), waves, r.value)
  {
    r, waves := Causal.PayloadEpochs(tree);
  }
}
