/**
 * The operation crate's epoch builder: an operation tree is layered into
 * epochs by the causal walk, and each epoch's operations are split by
 * type (there is one type, packages).
 */
module OperationEpoch {
  import opened Wrappers
  import Strs
  import Causal
  import Epochs
  import PackageOps

  type String = Strs.String

  datatype Operation = Package(op: PackageOps.PackageOperation)

  /** Ids are strings; branch constraints apply to every leaf beneath. */
  type OperationTree = Causal.Tree<String, Operation>

  /** One epoch's operations, by type. */
  datatype EpochOperations = EpochOperations(packageOps: seq<PackageOps.PackageOperation>)

  /** Sort an epoch's operations by type, keeping their order. */
  function SplitByType(ops: seq<Operation>): (r: EpochOperations)
    ensures |r.packageOps| == |ops|
    ensures forall i | 0 <= i < |ops| :: Package(r.packageOps[i]) == ops[i]
  {
    if |ops| == 0 then EpochOperations([])
    else EpochOperations([ops[0].op] + SplitByType(ops[1..]).packageOps)
  }

  /** Epoch `k` lists, in order, the package operations of the leaves wave `k` names. */
  ghost predicate SplitWaves(leaves: seq<Causal.Collected<String, Operation>>, waves: seq<seq<nat>>, epochs: seq<EpochOperations>) {
    && |epochs| == |waves|
    && forall k | 0 <= k < |waves| ::
         && |epochs[k].packageOps| == |waves[k]|
         && forall j | 0 <= j < |waves[k]| ::
              waves[k][j] < |leaves| && Package(epochs[k].packageOps[j]) == leaves[waves[k][j]].payload
  }

  /**
   * Layer the tree into epochs. The outcome is the causal builder's: the
   * first repeated id, the first unresolved reference, a cycle, or the
   * layering; on success epoch `k` holds, in wave order, the package
   * operations of the leaves of wave `k`.
   */
  method TreeToEpochs(tree: OperationTree) returns (r: Result<seq<EpochOperations>, Causal.EpochError<String>>, ghost waves: seq<seq<nat>>)
    ensures r.Ok? <==> Causal.Expected(tree).Ok?
    ensures r.Err? ==> r.error == Causal.Expected(tree).error
    ensures r.Ok? ==> && Causal.Layered(tree, waves)
                      && Causal.Partition(Causal.Count(tree), waves)
                      && SplitWaves(Causal.Flatten(tree, [], []), waves, r.value)
  {
    var epochs;
    epochs, waves := Causal.PayloadEpochs(tree);
    if epochs.Err? {
      return Err(epochs.error), waves;
    }
    var split := Epochs.Map(epochs.value, SplitByType);
    SplitGathered(Causal.Flatten(tree, [], []), waves, epochs.value, split);
    return Ok(split), waves;
  }

  lemma SplitGathered(leaves: seq<Causal.Collected<String, Operation>>, waves: seq<seq<nat>>, epochs: seq<seq<Operation>>, split: seq<EpochOperations>)
    requires Causal.Gathered(leaves, waves, epochs)
    requires |split| == |epochs| && forall k | 0 <= k < |split| :: split[k] == SplitByType(epochs[k])
    ensures SplitWaves(leaves, waves, split)
  {
    forall k | 0 <= k < |waves|
      ensures |split[k].packageOps| == |waves[k]|
      ensures forall j | 0 <= j < |waves[k]| ::
                waves[k][j] < |leaves| && Package(split[k].packageOps[j]) == leaves[waves[k][j]].payload
    {
      assert epochs[k] == Causal.Gather(leaves, waves[k]);
    }
  }
}
