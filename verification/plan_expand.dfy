/**
 * Planning: turning a plan and its parameter values into an operation
 * tree. A plan's source is read from the store and parsed, the values
 * are validated against the plan's schema, setup is evaluated, and each
 * module call it returns becomes a node: a built-in `@core/pkg` call a
 * leaf holding a package operation, any other module a branch holding
 * that module's own plan, expanded the same way. Each node carries the
 * call's id, before and after unchanged.
 *
 * Several failures stop the program rather than returning an error; the
 * model makes them an outcome of their own (`Panicked`). Reading the
 * store, decoding its bytes and parsing the source are the parameter
 * `load`; calling setup is the parameter `call`. A plan may name itself,
 * which the program follows without end: the `fuel` bounds the nesting
 * depth, and running out is the outcome `OutOfFuel`.
 */
module PlanExpand {
  import opened Wrappers
  import Strs
  import Rimu
  import Params
  import Paths
  import PlanIds
  import PlanDecode
  import PlanEval
  import PlanCore
  import OperationEpoch
  import Causal

  type String = Strs.String
  type Spanned<T> = Rimu.Spanned<T>
  type OperationTree = OperationEpoch.OperationTree
  type Plan = PlanDecode.Definition<Params.ParamTypes>

  datatype PlanError<CE, PE> =
    | Parse(parseError: PE)
    | Validate(errors: Params.ParamValidationErrors)
    | Eval(evalError: PlanEval.EvalError<CE>)

  /** What reading and parsing a plan's source gives. */
  datatype Source<PE> =
    | StoreReadFailed
    | NotUtf8
    | ParseFailed(parseError: PE)
    | Parsed(plan: Spanned<Plan>)

  /** The places where the program stops instead of returning an error. */
  datatype Panic =
    | GitPlan               // a Git plan has no store key yet
    | StoreRead             // the store could not be read
    | InvalidUtf8           // the source is not UTF-8
    | ActionWithoutParams   // a module call without params
    | UnexpectedCoreModule  // a built-in module other than `pkg`
    | ActionFailed          // a module call that returned an error
    | NestedPlanFailed      // a called module's plan that returned an error

  datatype Outcome<T, E> = Done(result: Result<T, E>) | Panicked(panic: Panic) | OutOfFuel

  datatype Env<CE, PE> = Env(load: PlanIds.PlanId -> Source<PE>, call: PlanEval.Caller<CE>)

  /** The ids of a list of spanned references, in order. */
  function RefIds(refs: seq<Spanned<String>>): (r: seq<String>)
    ensures |r| == |refs| && forall i | 0 <= i < |refs| :: r[i] == refs[i].inner
  {
    if |refs| == 0 then [] else [refs[0].inner] + RefIds(refs[1..])
  }

  function NodeId(id: Option<Spanned<String>>): (r: Option<String>)
    ensures r.Some? <==> id.Some?
    ensures r.Some? ==> r.value == id.value.inner
  {
    match id
    case Some(s) => Some(s.inner)
    case None => None
  }

  /** The plan a non-built-in module names: its module string read as a path, as written. */
  function ModulePlanId(call: PlanDecode.Call): PlanIds.PlanId {
    PlanIds.PathId(Paths.Parse(call.moduleName.inner))
  }

  /** One module call as a node of the operation tree. */
  function ActionToOperation<CE, PE>(env: Env<CE, PE>, action: Spanned<PlanDecode.Call>, fuel: nat)
    : (r: Outcome<OperationTree, PlanCore.OperationError>)
    decreases fuel, 1
  {
    var call := action.inner;
    var id := NodeId(call.id);
    var before := RefIds(call.before);
    var after := RefIds(call.after);
    if call.params.None? then Panicked(ActionWithoutParams)
    else
      match PlanDecode.IsCoreModule(call.moduleName.inner)
      case Some(coreId) =>
        if coreId == PlanCore.PackageModuleId then
          match PlanCore.PackageOperationFor(call.params.value)
          case Err(e) => Done(Err(e))
          case Ok(operation) => Done(Ok(Causal.Leaf(id, operation, before, after)))
        else Panicked(UnexpectedCoreModule)
      case None =>
        match PlanRecursive(env, ModulePlanId(call), call.params.value, fuel)
        case Done(Ok(children)) => Done(Ok(Causal.Branch(id, before, after, children)))
        case Done(Err(_)) => Panicked(NestedPlanFailed)
        case Panicked(p) => Panicked(p)
        case OutOfFuel => OutOfFuel
  }

  /** The calls as nodes, in order; the first call that fails stops everything. */
  function ActionsToOperations<CE, PE>(env: Env<CE, PE>, actions: seq<Spanned<PlanDecode.Call>>, fuel: nat)
    : (r: Outcome<seq<OperationTree>, PlanError<CE, PE>>)
    decreases fuel, 2, |actions|
  {
    if |actions| == 0 then Done(Ok([]))
    else
      match ActionToOperation(env, actions[0], fuel)
      case Done(Err(_)) => Panicked(ActionFailed)
      case Panicked(p) => Panicked(p)
      case OutOfFuel => OutOfFuel
      case Done(Ok(tree)) =>
        match ActionsToOperations(env, actions[1..], fuel)
        case Done(Ok(trees)) => Done(Ok([tree] + trees))
        case other => other
  }

  /**
   * Read, parse, validate and evaluate one plan: its module calls, or the
   * outcome that ends planning it before any call is looked at.
   */
  function Prepare<CE, PE>(env: Env<CE, PE>, planId: PlanIds.PlanId, params: Spanned<Params.ParamValues>)
    : (r: Result<seq<Spanned<PlanDecode.Call>>, Outcome<seq<OperationTree>, PlanError<CE, PE>>>)
    ensures r.Err? ==> !r.error.OutOfFuel? && (r.error.Done? ==> r.error.result.Err?)
  {
    if PlanIds.ToStoreItemId(planId).None? then Err(Panicked(GitPlan))
    else
      match env.load(planId)
      case StoreReadFailed => Err(Panicked(StoreRead))
      case NotUtf8 => Err(Panicked(InvalidUtf8))
      case ParseFailed(e) => Err(Done(Err(Parse(e))))
      case Parsed(plan) =>
        match Params.Validate(plan.inner.params, params)
        case Err(e) => Err(Done(Err(Validate(e))))
        case Ok(_) =>
          match PlanEval.Evaluate(plan.inner.setup, params, env.call)
          case Err(e) => Err(Done(Err(Eval(e))))
          case Ok(actions) => Ok(actions)
  }

  /** Prepare one plan and turn its calls into nodes, one level deeper. */
  function PlanRecursive<CE, PE>(env: Env<CE, PE>, planId: PlanIds.PlanId, params: Spanned<Params.ParamValues>, fuel: nat)
    : (r: Outcome<seq<OperationTree>, PlanError<CE, PE>>)
    decreases fuel, 0
  {
    if fuel == 0 then OutOfFuel else Continue(env, Prepare(env, planId, params), fuel - 1)
  }

  /** The outcome of a prepared plan: what stopped it, or its calls as nodes. */
  function Continue<CE, PE>(env: Env<CE, PE>, prepared: Result<seq<Spanned<PlanDecode.Call>>, Outcome<seq<OperationTree>, PlanError<CE, PE>>>, fuel: nat)
    : (r: Outcome<seq<OperationTree>, PlanError<CE, PE>>)
    decreases fuel, 3
  {
    match prepared
    case Err(stopped) => stopped
    case Ok(actions) => ActionsToOperations(env, actions, fuel)
  }

  /** The whole plan under a root branch with no id and no references. */
  function PlanTree<CE, PE>(env: Env<CE, PE>, planId: PlanIds.PlanId, params: Spanned<Params.ParamValues>, fuel: nat)
    : (r: Outcome<OperationTree, PlanError<CE, PE>>)
    ensures r.Done? <==> PlanRecursive(env, planId, params, fuel).Done?
    ensures r.Done? && r.result.Err? ==> PlanRecursive(env, planId, params, fuel).result == Err(r.result.error)
    ensures r.Done? && r.result.Ok? ==>
              && r.result.value.Branch? && r.result.value.id.None?
              && r.result.value.before == [] && r.result.value.after == []
              && PlanRecursive(env, planId, params, fuel).result == Ok(r.result.value.children)
  {
    match PlanRecursive(env, planId, params, fuel)
    case Done(Ok(children)) => Done(Ok(Causal.Branch(None, [], [], children)))
    case Done(Err(e)) => Done(Err(e))
    case Panicked(p) => Panicked(p)
    case OutOfFuel => OutOfFuel
  }

  // ---------------------------------------------------------------------
  // Properties
  // ---------------------------------------------------------------------

  /**
   * A node keeps its call's id, before and after as they were written; a
   * built-in call is a leaf holding the `pkg` operation, any other call
   * a branch whose children are the called module's plan.
   */
  lemma ActionNode<CE, PE>(env: Env<CE, PE>, action: Spanned<PlanDecode.Call>, fuel: nat)
    requires ActionToOperation(env, action, fuel).Done? && ActionToOperation(env, action, fuel).result.Ok?
    ensures var call := action.inner;
            var node := ActionToOperation(env, action, fuel).result.value;
            && call.params.Some?
            && node.id == NodeId(call.id)
            && node.before == RefIds(call.before) && node.after == RefIds(call.after)
            && (node.Leaf? <==> PlanDecode.IsCoreModule(call.moduleName.inner).Some?)
            && (node.Leaf? ==> Ok(node.payload) == PlanCore.CoreModule(PlanDecode.IsCoreModule(call.moduleName.inner).value, call.params))
            && (node.Branch? ==> PlanRecursive(env, ModulePlanId(call), call.params.value, fuel) == Done(Ok(node.children)))
  {
  }

  /** Calls the program cannot turn into nodes stop it: one without params, or a built-in other than `pkg`. */
  lemma ActionPanics<CE, PE>(env: Env<CE, PE>, action: Spanned<PlanDecode.Call>, fuel: nat)
    ensures action.inner.params.None? ==> ActionToOperation(env, action, fuel) == Panicked(ActionWithoutParams)
    ensures var core := PlanDecode.IsCoreModule(action.inner.moduleName.inner);
            action.inner.params.Some? && core.Some? && core.value != PlanCore.PackageModuleId ==>
              ActionToOperation(env, action, fuel) == Panicked(UnexpectedCoreModule)
  {
  }

  /**
   * The calls become one node each, in order, exactly when every call
   * does; the calls never make planning return an error, only stop it.
   */
  lemma {:induction false} ActionsNodes<CE, PE>(env: Env<CE, PE>, actions: seq<Spanned<PlanDecode.Call>>, fuel: nat)
    ensures var r := ActionsToOperations(env, actions, fuel);
            r.Done? ==> r.result.Ok?
    ensures var r := ActionsToOperations(env, actions, fuel);
            r.Done? <==> forall i | 0 <= i < |actions| :: ActionToOperation(env, actions[i], fuel).Done?
                                                        && ActionToOperation(env, actions[i], fuel).result.Ok?
    ensures var r := ActionsToOperations(env, actions, fuel);
            r.Done? ==> |r.result.value| == |actions|
                        && forall i | 0 <= i < |actions| :: r.result.value[i] == ActionToOperation(env, actions[i], fuel).result.value
    decreases |actions|
  {
    if |actions| > 0 {
      var tail := actions[1..];
      ActionsNodes(env, tail, fuel);
      assert forall j | 0 <= j < |tail| :: tail[j] == actions[j + 1];
      var first := ActionToOperation(env, actions[0], fuel);
      if first.Done? && first.result.Ok? {
        var rest := ActionsToOperations(env, tail, fuel);
        if rest.Done? {
          assert ActionsToOperations(env, actions, fuel) == Done(Ok([first.result.value] + rest.result.value));
        }
      }
    }
  }

  /**
   * Values are validated before setup runs: when they do not fit the
   * plan's schema the outcome is that validation error, whatever setup
   * would have done.
   */
  lemma ValidateBeforeEvaluate<CE, PE>(load: PlanIds.PlanId -> Source<PE>, c1: PlanEval.Caller<CE>, c2: PlanEval.Caller<CE>,
                                       planId: PlanIds.PlanId, params: Spanned<Params.ParamValues>, fuel: nat)
    requires fuel > 0 && planId.PathId? && load(planId).Parsed?
    requires Params.Validate(load(planId).plan.inner.params, params).Err?
    ensures PlanRecursive(Env(load, c1), planId, params, fuel)
         == PlanRecursive(Env(load, c2), planId, params, fuel)
         == Done(Err(Validate(Params.Validate(load(planId).plan.inner.params, params).error)))
  {
  }

  /**
   * The steps run in order and the first that fails decides: a Git plan,
   * an unreadable or non-UTF-8 source stop the program; a parse error,
   * values the schema rejects and a failed evaluation are returned, in
   * that order of precedence.
   */
  lemma PrepareOrder<CE, PE>(env: Env<CE, PE>, planId: PlanIds.PlanId, params: Spanned<Params.ParamValues>)
    ensures var r := Prepare(env, planId, params);
            && (planId.Git? ==> r == Err(Panicked(GitPlan)))
            && (planId.PathId? ==>
                  var source := env.load(planId);
                  && (source.StoreReadFailed? ==> r == Err(Panicked(StoreRead)))
                  && (source.NotUtf8? ==> r == Err(Panicked(InvalidUtf8)))
                  && (source.ParseFailed? ==> r == Err(Done(Err(Parse(source.parseError)))))
                  && (source.Parsed? ==>
                        var validated := Params.Validate(source.plan.inner.params, params);
                        var evaluated := PlanEval.Evaluate(source.plan.inner.setup, params, env.call);
                        && (validated.Err? ==> r == Err(Done(Err(Validate(validated.error)))))
                        && (validated.Ok? && evaluated.Err? ==> r == Err(Done(Err(Eval(evaluated.error)))))
                        && (validated.Ok? && evaluated.Ok? ==> r == Ok(evaluated.value))))
  {
  }

  /**
   * When a plan's source parses, its values validate and setup returns
   * calls, planning it is planning those calls, one level deeper.
   */
  lemma PlanCalls<CE, PE>(env: Env<CE, PE>, planId: PlanIds.PlanId, params: Spanned<Params.ParamValues>, fuel: nat)
    requires fuel > 0 && planId.PathId? && env.load(planId).Parsed?
    requires Params.Validate(env.load(planId).plan.inner.params, params).Ok?
    requires PlanEval.Evaluate(env.load(planId).plan.inner.setup, params, env.call).Ok?
    ensures PlanRecursive(env, planId, params, fuel)
         == ActionsToOperations(env, PlanEval.Evaluate(env.load(planId).plan.inner.setup, params, env.call).value, fuel - 1)
  {
  }

  // ---------------------------------------------------------------------
  // Fuel
  // ---------------------------------------------------------------------

  /** An outcome reached with some fuel is the outcome with any more fuel. */
  lemma {:induction false} PlanFuel<CE, PE>(env: Env<CE, PE>, planId: PlanIds.PlanId, params: Spanned<Params.ParamValues>, fuel: nat, more: nat)
    requires fuel <= more
    requires !PlanRecursive(env, planId, params, fuel).OutOfFuel?
    ensures PlanRecursive(env, planId, params, more) == PlanRecursive(env, planId, params, fuel)
    decreases fuel, 0
  {
    ContinueFuel(env, Prepare(env, planId, params), fuel - 1, more - 1);
  }

  lemma {:induction false} ContinueFuel<CE, PE>(env: Env<CE, PE>, prepared: Result<seq<Spanned<PlanDecode.Call>>, Outcome<seq<OperationTree>, PlanError<CE, PE>>>,
                                                fuel: nat, more: nat)
    requires fuel <= more
    requires !Continue(env, prepared, fuel).OutOfFuel?
    ensures Continue(env, prepared, more) == Continue(env, prepared, fuel)
    decreases fuel, 3
  {
    if prepared.Ok? {
      ActionsFuel(env, prepared.value, fuel, more);
    }
  }

  lemma {:induction false} ActionFuel<CE, PE>(env: Env<CE, PE>, action: Spanned<PlanDecode.Call>, fuel: nat, more: nat)
    requires fuel <= more
    requires !ActionToOperation(env, action, fuel).OutOfFuel?
    ensures ActionToOperation(env, action, more) == ActionToOperation(env, action, fuel)
    decreases fuel, 1
  {
    var call := action.inner;
    if call.params.Some? && PlanDecode.IsCoreModule(call.moduleName.inner).None? {
      PlanFuel(env, ModulePlanId(call), call.params.value, fuel, more);
    }
  }

  lemma {:induction false} ActionsFuel<CE, PE>(env: Env<CE, PE>, actions: seq<Spanned<PlanDecode.Call>>, fuel: nat, more: nat)
    requires fuel <= more
    requires !ActionsToOperations(env, actions, fuel).OutOfFuel?
    ensures ActionsToOperations(env, actions, more) == ActionsToOperations(env, actions, fuel)
    decreases fuel, 2, |actions|
  {
    if |actions| > 0 {
      ActionFuel(env, actions[0], fuel, more);
      var first := ActionToOperation(env, actions[0], fuel);
      if first.Done? && first.result.Ok? {
        ActionsFuel(env, actions[1..], fuel, more);
      }
    }
  }
}
