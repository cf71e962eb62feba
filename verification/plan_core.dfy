/**
 * Built-in modules: a call whose module is `@core/<id>` becomes an
 * operation directly. Only `pkg` exists; its parameter values are first
 * checked against the package operation's schema and then read as
 * package parameters.
 */
module PlanCore {
  import opened Wrappers
  import Strs
  import Rimu
  import Params
  import PackageOps
  import PlanDecode
  import OperationEpoch

  type String = Strs.String
  type Spanned<T> = Rimu.Spanned<T>

  datatype OperationError =
    | MissingParams
    | UnsupportedCoreModuleId(id: String)
    | ParamValidation(errors: Params.ParamValidationErrors)
    | SerdeValue

  const PackageModuleId: String := "pkg"

  /** Validate against the package schema, read the parameters, build the operation. */
  function PackageOperationFor(values: Spanned<Params.ParamValues>): (r: Result<OperationEpoch.Operation, OperationError>)
    ensures r.Ok? <==> Params.Validate(PackageOps.ParamTypes(), values).Ok? && PackageOps.ParamsFromValues(values.inner).Some?
    ensures r.Err? && r.error.ParamValidation? <==> Params.Validate(PackageOps.ParamTypes(), values).Err?
  {
    match Params.Validate(PackageOps.ParamTypes(), values)
    case Err(errors) => Err(ParamValidation(errors))
    case Ok(_) =>
      match PackageOps.ParamsFromValues(values.inner)
      case None => Err(SerdeValue)
      case Some(params) => Ok(OperationEpoch.Package(PackageOps.New(params)))
  }

  /**
   * The operation of a built-in module: parameters are required before
   * the id is looked at, `pkg` builds a package operation, any other id is
   * unsupported.
   */
  function CoreModule(id: String, values: Option<Spanned<Params.ParamValues>>): (r: Result<OperationEpoch.Operation, OperationError>)
    ensures values.None? ==> r == Err(MissingParams)
    ensures values.Some? && id != PackageModuleId ==> r == Err(UnsupportedCoreModuleId(id))
    ensures values.Some? && id == PackageModuleId ==> r == PackageOperationFor(values.value)
  {
    match values
    case None => Err(MissingParams)
    case Some(v) =>
      if id == PackageModuleId then PackageOperationFor(v)
      else Err(UnsupportedCoreModuleId(id))
  }

  /**
   * With the usual distinct keys, `pkg` accepts exactly the two package
   * shapes, and the operation installs the one package or the listed
   * packages; validation never passes values that then fail to read.
   */
  lemma PackageModuleSpec(values: Spanned<Params.ParamValues>)
    requires Rimu.UniqueKeys(values.inner.entries)
    ensures CoreModule(PackageModuleId, Some(values)).Ok?
        <==> PackageOps.IsPackageShape(values.inner) || PackageOps.IsPackagesShape(values.inner)
    ensures CoreModule(PackageModuleId, Some(values)).Err? ==> CoreModule(PackageModuleId, Some(values)).error.ParamValidation?
    ensures PackageOps.IsPackageShape(values.inner) ==>
              CoreModule(PackageModuleId, Some(values))
              == Ok(OperationEpoch.Package(PackageOps.PackageOperation([values.inner.entries[0].1.inner.s])))
    ensures PackageOps.IsPackagesShape(values.inner) ==>
              CoreModule(PackageModuleId, Some(values))
              == Ok(OperationEpoch.Package(PackageOps.PackageOperation(PackageOps.Strings(values.inner.entries[0].1.inner.items))))
  {
    PackageOps.ParamTypesAccept(values.inner, values.span);
    if Params.Validate(PackageOps.ParamTypes(), values).Ok? {
      PackageOps.ValidatedParamsRead(values.inner, values.span);
    }
  }

  /** The module id of a built-in call: what follows `@core/`. */
  function CoreModuleId(call: PlanDecode.Call): (r: Option<String>)
    ensures r.Some? <==> Strs.StartsWith(call.moduleName.inner, PlanDecode.CorePrefix)
    ensures r.Some? ==> PlanDecode.CorePrefix + r.value == call.moduleName.inner
  {
    PlanDecode.IsCoreModule(call.moduleName.inner)
  }
}
