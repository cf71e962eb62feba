/**
 * Decoding a plan file's values.
 *
 * A plan is an object with an optional "name", "version" and "params"
 * schema and a required "setup" function. Calling setup yields a list of
 * module calls, each an object with a required string "module", an
 * optional string "id", optional "params" values, and optional "before"
 * and "after" lists of id strings. Properties are checked in a fixed
 * order and the first one that is wrong decides the error.
 *
 * The older stack crate decodes its block definitions and block calls
 * with the same code under other names, so `Call` and `Definition` serve
 * both; the definition is generic in how its "params" schema decodes.
 * Each property is read with `Rimu.Get`: the program swap-removes the
 * properties one by one, which reads the same values because an object
 * never repeats a key and the properties read are distinct
 * (`Rimu.SwapRemoveGet`).
 */
module PlanDecode {
  import opened Wrappers
  import Strs
  import Rimu
  import RimuInterop
  import Params

  type String = Rimu.String
  type Span = Rimu.Span
  type Value = Rimu.Value
  type Spanned<T> = Rimu.Spanned<T>

  // ---------------------------------------------------------------------
  // Names, versions, setup functions
  // ---------------------------------------------------------------------

  datatype Name = Name(name: String)
  datatype Version = Version(version: String)
  datatype SetupFunction = SetupFunction(func: String)

  datatype NameError = NameNotAString
  datatype VersionError = VersionNotAString
  datatype SetupFunctionError = NotAFunction

  /** A name is any string, and nothing else. */
  function NameFromRimu(value: Value): (r: Result<Name, NameError>)
    ensures r.Ok? <==> value.String?
    ensures r.Ok? ==> r.value.name == value.s
  {
    match value
    case String(s) => Ok(Name(s))
    case _ => Err(NameNotAString)
  }

  /** A version is any string, and nothing else. */
  function VersionFromRimu(value: Value): (r: Result<Version, VersionError>)
    ensures r.Ok? <==> value.String?
    ensures r.Ok? ==> r.value.version == value.s
  {
    match value
    case String(s) => Ok(Version(s))
    case _ => Err(VersionNotAString)
  }

  /** Setup must be a function value. */
  function SetupFromRimu(value: Value): (r: Result<SetupFunction, SetupFunctionError>)
    ensures r.Ok? <==> value.Function?
    ensures r.Ok? ==> r.value.func == value.name
  {
    match value
    case Function(f) => Ok(SetupFunction(f))
    case _ => Err(NotAFunction)
  }

  // ---------------------------------------------------------------------
  // Module calls
  // ---------------------------------------------------------------------

  const CorePrefix: String := "@core/"

  /** A module string names a core module exactly when it starts with "@core/"; the rest is the core module's id. */
  function IsCoreModule(name: String): (r: Option<String>)
    ensures r.Some? <==> Strs.StartsWith(name, CorePrefix)
    ensures r.Some? ==> CorePrefix + r.value == name
  {
    if Strs.StartsWith(name, CorePrefix) then
      assert name == name[..|CorePrefix|] + name[|CorePrefix|..];
      Some(name[|CorePrefix|..])
    else None
  }

  /** One call of a module, as setup returns it. */
  datatype Call = Call(
    id: Option<Spanned<String>>,
    moduleName: Spanned<String>,
    params: Option<Spanned<Params.ParamValues>>,
    before: seq<Spanned<String>>,
    after: seq<Spanned<String>>)

  datatype CallError =
    | NotAnObject
    | ModuleMissing
    | ModuleNotAString(span: Span)
    | IdNotAString(span: Span)
    | ParamsError(error: Spanned<Params.ParamValuesFromRimuError>)
    | BeforeNotAList(span: Span)
    | BeforeItemNotAString(itemSpan: Span)
    | AfterNotAList(span: Span)
    | AfterItemNotAString(itemSpan: Span)

  /** The list items as spanned strings, or the span of the first item that is not a string. */
  function StringItems(items: seq<Spanned<Value>>): (r: Result<seq<Spanned<String>>, Span>)
    ensures r.Ok? <==> forall i | 0 <= i < |items| :: items[i].inner.String?
    ensures r.Ok? ==> |r.value| == |items|
                      && forall i | 0 <= i < |items| :: r.value[i] == Rimu.Spanned(items[i].inner.s, items[i].span)
  {
    if |items| == 0 then Ok([])
    else match items[0].inner
      case String(s) =>
        (match StringItems(items[1..])
         case Ok(rest) => Ok([Rimu.Spanned(s, items[0].span)] + rest)
         case Err(e) => Err(e))
      case _ => Err(items[0].span)
  }

  /** A failure is the span of the first item that is not a string. */
  lemma {:induction false} StringItemsErr(items: seq<Spanned<Value>>)
    requires StringItems(items).Err?
    ensures exists i | 0 <= i < |items| ::
              && (forall j | 0 <= j < i :: items[j].inner.String?)
              && !items[i].inner.String?
              && StringItems(items).error == items[i].span
  {
    if items[0].inner.String? {
      var tail := items[1..];
      StringItemsErr(tail);
      var i :| 0 <= i < |tail| && (forall j | 0 <= j < i :: tail[j].inner.String?)
               && !tail[i].inner.String? && StringItems(tail).error == tail[i].span;
      assert items[i + 1] == tail[i];
      assert forall j | 1 <= j < i + 1 :: items[j] == tail[j - 1];
    }
  }

  datatype RefListError = RefsNotAList(span: Span) | RefItemNotAString(itemSpan: Span)

  /** An absent reference list is empty; a present one must be a list of strings, read in order. */
  function RefList(field: Option<Spanned<Value>>): (r: Result<seq<Spanned<String>>, RefListError>)
    ensures field.None? ==> r == Ok([])
    ensures field.Some? && !field.value.inner.List? ==> r == Err(RefsNotAList(field.value.span))
    ensures field.Some? && field.value.inner.List? ==>
              match StringItems(field.value.inner.items)
              case Ok(refs) => r == Ok(refs)
              case Err(span) => r == Err(RefItemNotAString(span))
  {
    match field
    case None => Ok([])
    case Some(sp) =>
      match sp.inner
      case List(items) =>
        (match StringItems(items)
         case Ok(refs) => Ok(refs)
         case Err(span) => Err(RefItemNotAString(span)))
      case _ => Err(RefsNotAList(sp.span))
  }

  function BeforeError(e: RefListError): CallError {
    match e
    case RefsNotAList(span) => BeforeNotAList(span)
    case RefItemNotAString(span) => BeforeItemNotAString(span)
  }

  function AfterError(e: RefListError): CallError {
    match e
    case RefsNotAList(span) => AfterNotAList(span)
    case RefItemNotAString(span) => AfterItemNotAString(span)
  }

  function ModuleField(entries: Rimu.Entries): Result<Spanned<String>, CallError> {
    match Rimu.Get(entries, "module")
    case None => Err(ModuleMissing)
    case Some(sp) =>
      match sp.inner
      case String(s) => Ok(Rimu.Spanned(s, sp.span))
      case _ => Err(ModuleNotAString(sp.span))
  }

  function IdField(entries: Rimu.Entries): Result<Option<Spanned<String>>, CallError> {
    match Rimu.Get(entries, "id")
    case None => Ok(None)
    case Some(sp) =>
      match sp.inner
      case String(s) => Ok(Some(Rimu.Spanned(s, sp.span)))
      case _ => Err(IdNotAString(sp.span))
  }

  function CallParamsField(entries: Rimu.Entries): Result<Option<Spanned<Params.ParamValues>>, CallError> {
    match Rimu.Get(entries, "params")
    case None => Ok(None)
    case Some(sp) =>
      match RimuInterop.FromRimuSpanned(Params.ValuesFromRimu, sp)
      case Ok(values) => Ok(Some(values))
      case Err(e) => Err(ParamsError(e))
  }

  /** Decode a module call: module, then id, then params, then before, then after. */
  function CallFromRimu(value: Value): (r: Result<Call, CallError>)
    ensures !value.Object? ==> r == Err(NotAnObject)
  {
    match value
    case Object(entries) =>
      var moduleName :- ModuleField(entries);
      var id :- IdField(entries);
      var params :- CallParamsField(entries);
      var before :- RefList(Rimu.Get(entries, "before")).MapError(BeforeError);
      var after :- RefList(Rimu.Get(entries, "after")).MapError(AfterError);
      Ok(Call(id, moduleName, params, before, after))
    case _ => Err(NotAnObject)
  }

  // The conditions each property must meet, stated on its own.

  predicate ModuleOk(entries: Rimu.Entries) {
    Rimu.Get(entries, "module").Some? && Rimu.Get(entries, "module").value.inner.String?
  }

  predicate IdOk(entries: Rimu.Entries) {
    Rimu.Get(entries, "id").None? || Rimu.Get(entries, "id").value.inner.String?
  }

  predicate ParamsOk(entries: Rimu.Entries) {
    Rimu.Get(entries, "params").None? || Rimu.Get(entries, "params").value.inner.Object?
  }

  predicate AllStrings(items: seq<Spanned<Value>>) {
    forall i | 0 <= i < |items| :: items[i].inner.String?
  }

  predicate RefsOk(entries: Rimu.Entries, key: String) {
    || Rimu.Get(entries, key).None?
    || (Rimu.Get(entries, key).value.inner.List? && AllStrings(Rimu.Get(entries, key).value.inner.items))
  }

  /**
   * The decision order of a module call: an object decodes exactly when
   * every property is acceptable, and otherwise the error comes from the
   * first unacceptable property in the order module, id, params, before,
   * after.
   */
  lemma CallErrorOrder(entries: Rimu.Entries)
    ensures CallFromRimu(Rimu.Object(entries)).Ok? <==>
              ModuleOk(entries) && IdOk(entries) && ParamsOk(entries) && RefsOk(entries, "before") && RefsOk(entries, "after")
    ensures !ModuleOk(entries) ==>
              CallFromRimu(Rimu.Object(entries)).Err?
              && (CallFromRimu(Rimu.Object(entries)).error.ModuleMissing? <==> Rimu.Get(entries, "module").None?)
              && (CallFromRimu(Rimu.Object(entries)).error.ModuleMissing? || CallFromRimu(Rimu.Object(entries)).error.ModuleNotAString?)
    ensures ModuleOk(entries) && !IdOk(entries) ==>
              CallFromRimu(Rimu.Object(entries)) == Err(IdNotAString(Rimu.Get(entries, "id").value.span))
    ensures ModuleOk(entries) && IdOk(entries) && !ParamsOk(entries) ==>
              CallFromRimu(Rimu.Object(entries)) == Err(ParamsError(Rimu.Spanned(Params.ValuesNotAnObject, Rimu.Get(entries, "params").value.span)))
    ensures ModuleOk(entries) && IdOk(entries) && ParamsOk(entries) && !RefsOk(entries, "before") ==>
              CallFromRimu(Rimu.Object(entries)).Err?
              && (CallFromRimu(Rimu.Object(entries)).error.BeforeNotAList? || CallFromRimu(Rimu.Object(entries)).error.BeforeItemNotAString?)
    ensures ModuleOk(entries) && IdOk(entries) && ParamsOk(entries) && RefsOk(entries, "before") && !RefsOk(entries, "after") ==>
              CallFromRimu(Rimu.Object(entries)).Err?
              && (CallFromRimu(Rimu.Object(entries)).error.AfterNotAList? || CallFromRimu(Rimu.Object(entries)).error.AfterItemNotAString?)
  {
  }

  /**
   * A decoded call holds exactly what the object says: the module string,
   * the id if present, the params object if present, and the before and
   * after strings in their list order, each with its own span.
   */
  lemma CallFields(entries: Rimu.Entries)
    requires CallFromRimu(Rimu.Object(entries)).Ok?
    ensures var c := CallFromRimu(Rimu.Object(entries)).value;
            && c.moduleName == Rimu.Spanned(Rimu.Get(entries, "module").value.inner.s, Rimu.Get(entries, "module").value.span)
            && (c.id.Some? <==> Rimu.Get(entries, "id").Some?)
            && (c.id.Some? ==> c.id.value == Rimu.Spanned(Rimu.Get(entries, "id").value.inner.s, Rimu.Get(entries, "id").value.span))
            && (c.params.Some? <==> Rimu.Get(entries, "params").Some?)
            && (c.params.Some? ==> c.params.value.inner.entries == Rimu.Get(entries, "params").value.inner.entries)
  {
  }

  /** A reference list names, in order, the strings of the list it was read from. */
  lemma CallRefs(entries: Rimu.Entries, key: String)
    requires key == "before" || key == "after"
    requires CallFromRimu(Rimu.Object(entries)).Ok?
    ensures var c := CallFromRimu(Rimu.Object(entries)).value;
            var refs := if key == "before" then c.before else c.after;
            match Rimu.Get(entries, key)
            case None => refs == []
            case Some(sp) =>
              && sp.inner.List? && |refs| == |sp.inner.items|
              && forall i | 0 <= i < |refs| :: refs[i] == Rimu.Spanned(sp.inner.items[i].inner.s, sp.inner.items[i].span)
  {
  }

  /** A reference list that is not all strings is reported at its first non-string item. */
  lemma RefItemReported(entries: Rimu.Entries)
    requires ModuleOk(entries) && IdOk(entries) && ParamsOk(entries)
    requires Rimu.Get(entries, "before").Some? && Rimu.Get(entries, "before").value.inner.List?
    requires !AllStrings(Rimu.Get(entries, "before").value.inner.items)
    ensures var items := Rimu.Get(entries, "before").value.inner.items;
            exists i | 0 <= i < |items| ::
              && (forall j | 0 <= j < i :: items[j].inner.String?)
              && !items[i].inner.String?
              && CallFromRimu(Rimu.Object(entries)) == Err(BeforeItemNotAString(items[i].span))
  {
    StringItemsErr(Rimu.Get(entries, "before").value.inner.items);
  }

  // ---------------------------------------------------------------------
  // Definitions (plans and blocks)
  // ---------------------------------------------------------------------

  /** A plan (or block) definition; `T` is its parameter schema type. */
  datatype Definition<T> = Definition(
    name: Option<Spanned<Name>>,
    version: Option<Spanned<Version>>,
    params: Option<Spanned<T>>,
    setup: Spanned<SetupFunction>)

  datatype DefinitionError<E> =
    | DefinitionNotAnObject
    | NameError(nameError: Spanned<NameError>)
    | VersionError(versionError: Spanned<VersionError>)
    | ParamTypesError(typesError: Spanned<E>)
    | SetupMissing
    | SetupNotAFunction(setupError: Spanned<SetupFunctionError>)

  /** Decode an optional property with `fromRimu`, keeping its span, and wrap a failure with `wrap`. */
  function Optional<T, E, F>(field: Option<Spanned<Value>>, fromRimu: Value -> Result<T, E>, wrap: Spanned<E> -> F)
    : (r: Result<Option<Spanned<T>>, F>)
    ensures field.None? ==> r == Ok(None)
    ensures field.Some? ==> (r.Ok? <==> fromRimu(field.value.inner).Ok?)
    ensures field.Some? && r.Ok? ==> r.value == Some(Rimu.Spanned(fromRimu(field.value.inner).value, field.value.span))
    ensures field.Some? && r.Err? ==> r.error == wrap(Rimu.Spanned(fromRimu(field.value.inner).error, field.value.span))
  {
    match field
    case None => Ok(None)
    case Some(sp) =>
      match RimuInterop.FromRimuSpanned(fromRimu, sp)
      case Ok(t) => Ok(Some(t))
      case Err(e) => Err(wrap(e))
  }

  /** Decode a definition: name, then version, then params, then setup. */
  function DefinitionFromRimu<T, E>(value: Value, typesFromRimu: Value -> Result<T, E>): (r: Result<Definition<T>, DefinitionError<E>>)
    ensures !value.Object? ==> r == Err(DefinitionNotAnObject)
  {
    match value
    case Object(entries) =>
      var name :- Optional(Rimu.Get(entries, "name"), NameFromRimu, e => NameError(e));
      var version :- Optional(Rimu.Get(entries, "version"), VersionFromRimu, e => VersionError(e));
      var params :- Optional(Rimu.Get(entries, "params"), typesFromRimu, e => ParamTypesError(e));
      var setupValue :- (match Rimu.Get(entries, "setup")
                         case None => Err(SetupMissing)
                         case Some(sp) => Ok(sp));
      var setup :- RimuInterop.FromRimuSpanned(SetupFromRimu, setupValue).MapError(e => SetupNotAFunction(e));
      Ok(Definition(name, version, params, setup))
    case _ => Err(DefinitionNotAnObject)
  }

  /** A plan: a definition whose schema is the params crate's `ParamTypes`. */
  function PlanFromRimu(value: Value): (r: Result<Definition<Params.ParamTypes>, DefinitionError<Params.ParamTypesFromRimuError>>)
    ensures !value.Object? ==> r == Err(DefinitionNotAnObject)
  {
    DefinitionFromRimu(value, Params.TypesFromRimu)
  }

  predicate StringOk(entries: Rimu.Entries, key: String) {
    Rimu.Get(entries, key).None? || Rimu.Get(entries, key).value.inner.String?
  }

  predicate TypesOk<T, E>(entries: Rimu.Entries, typesFromRimu: Value -> Result<T, E>) {
    Rimu.Get(entries, "params").None? || typesFromRimu(Rimu.Get(entries, "params").value.inner).Ok?
  }

  predicate SetupOk(entries: Rimu.Entries) {
    Rimu.Get(entries, "setup").Some? && Rimu.Get(entries, "setup").value.inner.Function?
  }

  /**
   * The decision order of a definition: it decodes exactly when the
   * optional name, version and params are acceptable and setup is a
   * function; otherwise the first unacceptable property, in the order
   * name, version, params, setup, decides the error.
   */
  lemma DefinitionErrorOrder<T, E>(entries: Rimu.Entries, typesFromRimu: Value -> Result<T, E>)
    ensures DefinitionFromRimu(Rimu.Object(entries), typesFromRimu).Ok? <==>
              StringOk(entries, "name") && StringOk(entries, "version") && TypesOk(entries, typesFromRimu) && SetupOk(entries)
    ensures !StringOk(entries, "name") ==>
              DefinitionFromRimu(Rimu.Object(entries), typesFromRimu)
              == Err(NameError(Rimu.Spanned(NameNotAString, Rimu.Get(entries, "name").value.span)))
    ensures StringOk(entries, "name") && !StringOk(entries, "version") ==>
              DefinitionFromRimu(Rimu.Object(entries), typesFromRimu)
              == Err(VersionError(Rimu.Spanned(VersionNotAString, Rimu.Get(entries, "version").value.span)))
    ensures StringOk(entries, "name") && StringOk(entries, "version") && !TypesOk(entries, typesFromRimu) ==>
              var sp := Rimu.Get(entries, "params").value;
              DefinitionFromRimu(Rimu.Object(entries), typesFromRimu)
              == Err(ParamTypesError(Rimu.Spanned(typesFromRimu(sp.inner).error, sp.span)))
    ensures StringOk(entries, "name") && StringOk(entries, "version") && TypesOk(entries, typesFromRimu) ==>
              (Rimu.Get(entries, "setup").None? ==> DefinitionFromRimu(Rimu.Object(entries), typesFromRimu) == Err(SetupMissing))
              && (Rimu.Get(entries, "setup").Some? && !Rimu.Get(entries, "setup").value.inner.Function? ==>
                    DefinitionFromRimu(Rimu.Object(entries), typesFromRimu)
                    == Err(SetupNotAFunction(Rimu.Spanned(NotAFunction, Rimu.Get(entries, "setup").value.span))))
  {
  }

  /** A decoded definition holds the setup function the object names, with its span. */
  lemma DefinitionSetup<T, E>(entries: Rimu.Entries, typesFromRimu: Value -> Result<T, E>)
    requires DefinitionFromRimu(Rimu.Object(entries), typesFromRimu).Ok?
    ensures var d := DefinitionFromRimu(Rimu.Object(entries), typesFromRimu).value;
            && d.setup == Rimu.Spanned(SetupFunction(Rimu.Get(entries, "setup").value.inner.name), Rimu.Get(entries, "setup").value.span)
            && (d.name.Some? <==> Rimu.Get(entries, "name").Some?)
            && (d.params.Some? <==> Rimu.Get(entries, "params").Some?)
            && (d.params.Some? ==> d.params.value.inner == typesFromRimu(Rimu.Get(entries, "params").value.inner).value)
  {
  }
}
