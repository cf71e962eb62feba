/**
 * Parameter schemas and their validation.
 *
 * A schema is decoded from a configuration value: a `ParamType` from an
 * object with a "type" property, a `ParamField` from a type object that
 * may also say "optional", and a `ParamTypes` from an object (one struct
 * of fields) or a list (a union of such structs). Decoding stops at the
 * first problem and reports it; `TypeToRimu` writes a type back out and
 * the round trip is proved.
 *
 * Validation checks parameter values against a schema. A single value
 * is checked against a type and the first offending list index or object
 * key is reported. A struct collects every problem rather than stopping
 * at the first; a union succeeds on the first matching case and
 * otherwise reports the problems of every case. `Conforms` and
 * `StructMatches` are the reference definitions of "valid".
 */
module Params {
  import opened Wrappers
  import Rimu
  import RimuInterop

  type String = Rimu.String
  type Span = Rimu.Span
  type Value = Rimu.Value
  type Spanned<T> = Rimu.Spanned<T>

  datatype ParamType =
    | Boolean
    | String
    | Number
    | List(item: Spanned<ParamType>)
    | Object(value: Spanned<ParamType>)

  datatype ParamField = ParamField(typ: ParamType, optional: bool)

  /** A required field of the given type. */
  function NewField(typ: ParamType): ParamField {
    ParamField(typ, false)
  }

  /** Field name to field, in declaration order. */
  type Fields = seq<(String, Spanned<ParamField>)>

  datatype ParamTypes =
    | Struct(fields: Fields)
    | Union(cases: seq<Fields>)

  datatype ParamValues = ParamValues(entries: Rimu.Entries)

  // ---------------------------------------------------------------------
  // Parameter values
  // ---------------------------------------------------------------------

  datatype ParamValuesFromRimuError = ValuesNotAnObject

  /** Parameter values are exactly an object's entries. */
  function ValuesFromRimu(value: Value): (r: Result<ParamValues, ParamValuesFromRimuError>)
    ensures r.Ok? <==> value.Object?
  {
    match value
    case Object(entries) => Ok(ParamValues(entries))
    case _ => Err(ValuesNotAnObject)
  }

  function ValuesIntoRimu(values: ParamValues): (r: Value)
    ensures r.Object?
  {
    Rimu.Object(values.entries)
  }

  /** Writing values out and reading them back gives the same values. */
  lemma ValuesRoundTrip(values: ParamValues)
    ensures ValuesFromRimu(ValuesIntoRimu(values)) == Ok(values)
  {
  }

  /** Whatever was read from an object writes back as that object. */
  lemma ValuesRoundTripBack(value: Value)
    requires ValuesFromRimu(value).Ok?
    ensures ValuesIntoRimu(ValuesFromRimu(value).value) == value
  {
  }

  // ---------------------------------------------------------------------
  // Decoding a type
  // ---------------------------------------------------------------------

  datatype ParamTypeFromRimuError =
    | NotAnObject
    | HasNoType
    | TypeNotAString(span: Span)
    | UnknownType(name: String)
    | ListMissingItem
    | ListItem(error: Spanned<ParamTypeFromRimuError>)
    | ObjectMissingValue
    | ObjectValue(error: Spanned<ParamTypeFromRimuError>)

  /** The "type" name of each kind of type. */
  function TypeName(t: ParamType): String {
    match t
    case Boolean => "boolean"
    case String => "string"
    case Number => "number"
    case List(_) => "list"
    case Object(_) => "object"
  }

  /** Decode a type: an object whose "type" names the kind, with "item" for lists and "value" for objects. */
  function TypeFromRimu(value: Value): (r: Result<ParamType, ParamTypeFromRimuError>)
    ensures !value.Object? ==> r == Err(NotAnObject)
    ensures value.Object? && Rimu.Get(value.entries, "type").None? ==> r == Err(HasNoType)
    decreases value
  {
    match value
    case Object(entries) =>
      (match Rimu.Get(entries, "type")
       case None => Err(HasNoType)
       case Some(typ) =>
         match typ.inner
         case String(name) =>
           if name == "boolean" then Ok(Boolean)
           else if name == "string" then Ok(String)
           else if name == "number" then Ok(Number)
           else if name == "list" then
             match Rimu.SwapRemove(entries, "item").0
             case None => Err(ListMissingItem)
             case Some(item) =>
               assert ("item", item) in entries;
               match TypeFromRimu(item.inner)
               case Ok(t) => Ok(List(Rimu.Spanned(t, item.span)))
               case Err(e) => Err(ParamTypeFromRimuError.ListItem(Rimu.Spanned(e, item.span)))
           else if name == "object" then
             match Rimu.SwapRemove(entries, "value").0
             case None => Err(ObjectMissingValue)
             case Some(v) =>
               assert ("value", v) in entries;
               match TypeFromRimu(v.inner)
               case Ok(t) => Ok(Object(Rimu.Spanned(t, v.span)))
               case Err(e) => Err(ObjectValue(Rimu.Spanned(e, v.span)))
           else Err(UnknownType(name))
         case _ => Err(TypeNotAString(typ.span)))
    case _ => Err(NotAnObject)
  }

  /** A decoded type is the kind its "type" string names. */
  lemma TypeFromRimuName(value: Value)
    requires TypeFromRimu(value).Ok?
    ensures value.Object? && Rimu.Get(value.entries, "type").Some?
    ensures Rimu.Get(value.entries, "type").value.inner == Rimu.String(TypeName(TypeFromRimu(value).value))
  {
    var typ := Rimu.Get(value.entries, "type").value;
    assert typ.inner.String?;
    var name := typ.inner.s;
    if name == "list" {
      assert TypeFromRimu(value).value.List?;
    } else if name == "object" {
      assert TypeFromRimu(value).value.Object?;
    }
  }

  /** `TypeFromRimu` with the input's span put on its outcome. */
  function TypeFromRimuSpanned(value: Spanned<Value>): Result<Spanned<ParamType>, Spanned<ParamTypeFromRimuError>> {
    RimuInterop.FromRimuSpanned(TypeFromRimu, value)
  }

  /** Write a type out as the object `TypeFromRimu` reads; `sp` labels the generated "type" strings. */
  function TypeToRimu(t: ParamType, sp: Span): Value {
    match t
    case List(item) =>
      Rimu.Object([("type", Rimu.Spanned(Rimu.String("list"), sp)),
                   ("item", Rimu.Spanned(TypeToRimu(item.inner, sp), item.span))])
    case Object(v) =>
      Rimu.Object([("type", Rimu.Spanned(Rimu.String("object"), sp)),
                   ("value", Rimu.Spanned(TypeToRimu(v.inner, sp), v.span))])
    case _ => Rimu.Object([("type", Rimu.Spanned(Rimu.String(TypeName(t)), sp))])
  }

  /** Every type survives being written out and read back, spans included. */
  lemma {:induction false} TypeRoundTrip(t: ParamType, sp: Span)
    ensures TypeFromRimu(TypeToRimu(t, sp)) == Ok(t)
  {
    var entries := TypeToRimu(t, sp).entries;
    assert Rimu.Find(entries, "type") == Some(0);
    match t
    case List(item) =>
      TypeRoundTrip(item.inner, sp);
      assert Rimu.Find(entries, "item") == Some(1);
    case Object(v) =>
      TypeRoundTrip(v.inner, sp);
      assert Rimu.Find(entries, "value") == Some(1);
    case _ =>
  }

  /**
   * The decision order: not an object, then no "type", then a "type"
   * that is not a string, then an unknown name, and only then a missing
   * or bad "item"/"value". Each error is reported exactly when every
   * earlier check has passed.
   */
  lemma TypeErrorOrder(value: Value)
    ensures TypeFromRimu(value) == Err(NotAnObject) <==> !value.Object?
    ensures TypeFromRimu(value) == Err(HasNoType) <==> value.Object? && Rimu.Get(value.entries, "type").None?
    ensures TypeFromRimu(value).Err? && TypeFromRimu(value).error.TypeNotAString? <==>
              && value.Object? && Rimu.Get(value.entries, "type").Some?
              && !Rimu.Get(value.entries, "type").value.inner.String?
    ensures TypeFromRimu(value).Err? && TypeFromRimu(value).error.UnknownType? <==>
              && value.Object? && Rimu.Get(value.entries, "type").Some?
              && Rimu.Get(value.entries, "type").value.inner.String?
              && Rimu.Get(value.entries, "type").value.inner.s !in {"boolean", "string", "number", "list", "object"}
    ensures TypeFromRimu(value) == Err(ListMissingItem) <==>
              && value.Object? && Rimu.Get(value.entries, "type").Some?
              && Rimu.Get(value.entries, "type").value.inner == Rimu.String("list")
              && Rimu.Get(value.entries, "item").None?
    ensures TypeFromRimu(value) == Err(ObjectMissingValue) <==>
              && value.Object? && Rimu.Get(value.entries, "type").Some?
              && Rimu.Get(value.entries, "type").value.inner == Rimu.String("object")
              && Rimu.Get(value.entries, "value").None?
  {
  }

  /** Two objects that agree on "type", "item" and "value" decode alike: nothing else is looked at. */
  lemma TypeFromRimuLooksAt(a: Rimu.Entries, b: Rimu.Entries)
    requires forall k | k in {"type", "item", "value"} :: Rimu.Get(a, k) == Rimu.Get(b, k)
    ensures TypeFromRimu(Rimu.Object(a)) == TypeFromRimu(Rimu.Object(b))
  {
    assert Rimu.Get(a, "type") == Rimu.Get(b, "type");
    if Rimu.Get(a, "type").Some? && Rimu.Get(a, "type").value.inner.String? {
      var name := Rimu.Get(a, "type").value.inner.s;
      if name == "list" {
        assert Rimu.Get(a, "item") == Rimu.Get(b, "item");
      } else if name == "object" {
        assert Rimu.Get(a, "value") == Rimu.Get(b, "value");
      }
    }
  }

  // ---------------------------------------------------------------------
  // Decoding a field
  // ---------------------------------------------------------------------

  datatype ParamFieldFromRimuError =
    | FieldNotAnObject
    | OptionalNotABoolean(span: Span)
    | FieldType(error: ParamTypeFromRimuError)

  /** A field is a type object that may also carry a boolean "optional" (default false). */
  function FieldFromRimu(value: Value): (r: Result<ParamField, ParamFieldFromRimuError>)
    ensures !value.Object? ==> r == Err(FieldNotAnObject)
    ensures value.Object? && Rimu.Get(value.entries, "optional").Some?
            && !Rimu.Get(value.entries, "optional").value.inner.Boolean? ==>
              r == Err(OptionalNotABoolean(Rimu.Get(value.entries, "optional").value.span))
    ensures r.Ok? ==> && value.Object?
                      && (r.value.optional <==> Rimu.Get(value.entries, "optional").Some?
                                                && Rimu.Get(value.entries, "optional").value.inner == Rimu.Boolean(true))
  {
    match value
    case Object(entries) =>
      var (opt, rest) := Rimu.SwapRemove(entries, "optional");
      var optional: Result<bool, ParamFieldFromRimuError> :=
        match opt
        case None => Ok(false)
        case Some(o) => if o.inner.Boolean? then Ok(o.inner.b) else Err(OptionalNotABoolean(o.span));
      (match optional
       case Err(e) => Err(e)
       case Ok(optional) =>
         match TypeFromRimu(Rimu.Object(rest))
         case Err(e) => Err(FieldType(e))
         case Ok(typ) => Ok(ParamField(typ, optional)))
    case _ => Err(FieldNotAnObject)
  }

  function FieldFromRimuSpanned(value: Spanned<Value>): Result<Spanned<ParamField>, Spanned<ParamFieldFromRimuError>> {
    RimuInterop.FromRimuSpanned(FieldFromRimu, value)
  }

  /**
   * In an object without repeated keys, removing "optional" does not
   * disturb the type: a field decodes to the type the whole object
   * decodes to, and a type error is passed on unchanged.
   */
  lemma FieldTypeUndisturbed(value: Value)
    requires value.Object? && Rimu.UniqueKeys(value.entries)
    requires Rimu.Get(value.entries, "optional").None? || Rimu.Get(value.entries, "optional").value.inner.Boolean?
    ensures FieldFromRimu(value).Ok? <==> TypeFromRimu(value).Ok?
    ensures FieldFromRimu(value).Ok? ==> FieldFromRimu(value).value.typ == TypeFromRimu(value).value
    ensures FieldFromRimu(value).Err? ==> FieldFromRimu(value).error == FieldType(TypeFromRimu(value).error)
  {
    var rest := Rimu.SwapRemove(value.entries, "optional").1;
    forall k | k in {"type", "item", "value"} ensures Rimu.Get(rest, k) == Rimu.Get(value.entries, k) {
      Rimu.SwapRemoveGet(value.entries, "optional", k);
    }
    TypeFromRimuLooksAt(rest, value.entries);
  }

  // ---------------------------------------------------------------------
  // Decoding a schema
  // ---------------------------------------------------------------------

  datatype ParamTypesFromRimuError =
    | NotAnObjectOrList
    | StructEntry(key: String, error: Spanned<ParamFieldFromRimuError>)
    | UnionItemNotAnObject(index: nat, span: Span)
    | UnionItemEntry(index: nat, key: String, error: Spanned<ParamFieldFromRimuError>)

  /** Decode every entry of an object as a field, stopping at the first that fails. */
  function FieldsFromEntries(entries: Rimu.Entries): (r: Result<Fields, (String, Spanned<ParamFieldFromRimuError>)>)
    ensures r.Ok? ==> |r.value| == |entries|
  {
    RimuInterop.DecodeEntries(entries, FieldFromRimu)
  }

  /**
   * Decoding the entries succeeds exactly when every entry decodes as a
   * field; it then keeps the keys in order with each key's field, and
   * otherwise names the first entry that fails together with its error.
   */
  lemma FieldsFromEntriesSpec(entries: Rimu.Entries)
    ensures FieldsFromEntries(entries).Ok? <==> forall i | 0 <= i < |entries| :: FieldFromRimu(entries[i].1.inner).Ok?
    ensures FieldsFromEntries(entries).Ok? ==>
              && Rimu.Keys(FieldsFromEntries(entries).value) == Rimu.Keys(entries)
              && forall i | 0 <= i < |entries| :: FieldFromRimuSpanned(entries[i].1) == Ok(FieldsFromEntries(entries).value[i].1)
    ensures FieldsFromEntries(entries).Err? ==>
              exists i | 0 <= i < |entries| ::
                && (forall j | 0 <= j < i :: FieldFromRimu(entries[j].1.inner).Ok?)
                && FieldFromRimuSpanned(entries[i].1).Err?
                && FieldsFromEntries(entries).error == (entries[i].0, FieldFromRimuSpanned(entries[i].1).error)
  {
    RimuInterop.DecodeEntriesOk(entries, FieldFromRimu);
    if FieldsFromEntries(entries).Err? {
      RimuInterop.DecodeEntriesErr(entries, FieldFromRimu);
    }
  }

  /** A union item that decodes: an object all of whose entries decode as fields. */
  predicate CaseOk(item: Spanned<Value>) {
    item.inner.Object? && FieldsFromEntries(item.inner.entries).Ok?
  }

  /** The error for a union item at position `index` that does not decode. */
  function CaseError(index: nat, item: Spanned<Value>): ParamTypesFromRimuError
    requires !CaseOk(item)
  {
    if !item.inner.Object? then UnionItemNotAnObject(index, item.span)
    else
      var (key, error) := FieldsFromEntries(item.inner.entries).error;
      UnionItemEntry(index, key, error)
  }

  /**
   * Decode the cases of a union; `items` starts at union position
   * `index`. The first failing item decides the error.
   */
  function CasesFromItems(items: seq<Spanned<Value>>, index: nat): (r: Result<seq<Fields>, ParamTypesFromRimuError>)
    ensures r.Ok? <==> forall i | 0 <= i < |items| :: CaseOk(items[i])
    ensures r.Ok? ==> |r.value| == |items|
                      && forall i | 0 <= i < |items| :: r.value[i] == FieldsFromEntries(items[i].inner.entries).value
    ensures r.Err? ==> exists i | 0 <= i < |items| ::
                         && (forall j | 0 <= j < i :: CaseOk(items[j]))
                         && !CaseOk(items[i])
                         && r.error == CaseError(index + i, items[i])
    decreases |items|
  {
    if |items| == 0 then Ok([])
    else
      match items[0].inner
      case Object(caseMap) =>
        (match FieldsFromEntries(caseMap)
         case Err((key, error)) => Err(UnionItemEntry(index, key, error))
         case Ok(fields) =>
           match CasesFromItems(items[1..], index + 1)
           case Err(e) =>
             ghost var i :| 0 <= i < |items[1..]| && (forall j | 0 <= j < i :: CaseOk(items[1..][j]))
                            && !CaseOk(items[1..][i]) && e == CaseError(index + 1 + i, items[1..][i]);
             assert forall j | 0 <= j < i + 1 :: CaseOk(items[j]) by {
               forall j | 0 <= j < i + 1 ensures CaseOk(items[j]) {
                 if j > 0 {
                   assert items[j] == items[1..][j - 1];
                 }
               }
             }
             assert items[i + 1] == items[1..][i];
             Err(e)
           case Ok(rest) =>
             assert CaseOk(items[0]);
             Ok([fields] + rest))
      case _ => Err(UnionItemNotAnObject(index, items[0].span))
  }

  /** An object is a struct of fields; a list is a union of such structs; anything else is refused. */
  function TypesFromRimu(value: Value): (r: Result<ParamTypes, ParamTypesFromRimuError>)
    ensures !value.Object? && !value.List? ==> r == Err(NotAnObjectOrList)
    ensures value.Object? && r.Ok? ==> r.value.Struct? && Rimu.Keys(r.value.fields) == Rimu.Keys(value.entries)
    ensures value.List? && r.Ok? ==> r.value.Union? && |r.value.cases| == |value.items|
  {
    match value
    case Object(entries) =>
      (match FieldsFromEntries(entries)
       case Err((key, error)) => Err(StructEntry(key, error))
       case Ok(fields) => FieldsFromEntriesSpec(entries); Ok(Struct(fields)))
    case List(items) =>
      (match CasesFromItems(items, 0)
       case Err(e) => Err(e)
       case Ok(cases) => Ok(Union(cases)))
    case _ => Err(NotAnObjectOrList)
  }

  // ---------------------------------------------------------------------
  // Validating a value against a type
  // ---------------------------------------------------------------------

  datatype ValidateValueError =
    | TypeMismatch(expectedType: Spanned<ParamType>, gotValue: Spanned<Value>)
    | ListItem(index: nat, error: ValidateValueError)
    | ObjectEntry(key: String, error: ValidateValueError)

  /** The reference meaning of "the value has the type". */
  predicate Conforms(t: ParamType, v: Value)
    decreases t
  {
    match t
    case Boolean => v.Boolean?
    case String => v.String?
    case Number => v.Number?
    case List(item) => v.List? && forall i | 0 <= i < |v.items| :: Conforms(item.inner, v.items[i].inner)
    case Object(value) => v.Object? && forall i | 0 <= i < |v.entries| :: Conforms(value.inner, v.entries[i].1.inner)
  }

  /** The outer shape of the value matches the kind of the type. */
  predicate ShapeMatches(t: ParamType, v: Value) {
    match t
    case Boolean => v.Boolean?
    case String => v.String?
    case Number => v.Number?
    case List(_) => v.List?
    case Object(_) => v.Object?
  }

  /**
   * Check a value against a type. A wrong outer shape is a mismatch
   * naming both; inside a list or object the first offending index or
   * key is reported with the error found there.
   */
  function ValidateType(typ: Spanned<ParamType>, value: Spanned<Value>): (r: Result<(), ValidateValueError>)
    ensures r.Ok? <==> Conforms(typ.inner, value.inner)
    ensures !ShapeMatches(typ.inner, value.inner) ==> r == Err(TypeMismatch(typ, value))
    ensures r.Err? && r.error.ListItem? ==>
              && typ.inner.List? && value.inner.List? && r.error.index < |value.inner.items|
              && !Conforms(typ.inner.item.inner, value.inner.items[r.error.index].inner)
              && forall j | 0 <= j < r.error.index :: Conforms(typ.inner.item.inner, value.inner.items[j].inner)
    ensures r.Err? && r.error.ObjectEntry? ==>
              && typ.inner.Object? && value.inner.Object?
              && exists i | 0 <= i < |value.inner.entries| ::
                   && value.inner.entries[i].0 == r.error.key
                   && !Conforms(typ.inner.value.inner, value.inner.entries[i].1.inner)
                   && forall j | 0 <= j < i :: Conforms(typ.inner.value.inner, value.inner.entries[j].1.inner)
    decreases typ, 0
  {
    match typ.inner
    case Boolean => if value.inner.Boolean? then Ok(()) else Err(TypeMismatch(typ, value))
    case String => if value.inner.String? then Ok(()) else Err(TypeMismatch(typ, value))
    case Number => if value.inner.Number? then Ok(()) else Err(TypeMismatch(typ, value))
    case List(item) =>
      if !value.inner.List? then Err(TypeMismatch(typ, value))
      else
        (match ValidateItems(item, value.inner.items, 0)
         case None => Ok(())
         case Some((index, error)) => Err(ValidateValueError.ListItem(index, error)))
    case Object(valueType) =>
      if !value.inner.Object? then Err(TypeMismatch(typ, value))
      else
        (match ValidateEntries(valueType, value.inner.entries, 0)
         case None => Ok(())
         case Some((key, error)) => Err(ObjectEntry(key, error)))
  }

  /** The first list item, from position `i` on, that does not have the item type. */
  function ValidateItems(item: Spanned<ParamType>, items: seq<Spanned<Value>>, i: nat): (r: Option<(nat, ValidateValueError)>)
    requires i <= |items|
    ensures r.None? <==> forall j | i <= j < |items| :: Conforms(item.inner, items[j].inner)
    ensures r.Some? ==> && i <= r.value.0 < |items|
                        && !Conforms(item.inner, items[r.value.0].inner)
                        && ValidateType(item, items[r.value.0]) == Err(r.value.1)
                        && forall j | i <= j < r.value.0 :: Conforms(item.inner, items[j].inner)
    decreases item, 1, |items| - i
  {
    if i == |items| then None
    else match ValidateType(item, items[i])
      case Err(error) => Some((i, error))
      case Ok(_) => ValidateItems(item, items, i + 1)
  }

  /** The first object entry, from position `i` on, whose value does not have the value type. */
  function ValidateEntries(valueType: Spanned<ParamType>, entries: Rimu.Entries, i: nat): (r: Option<(String, ValidateValueError)>)
    requires i <= |entries|
    ensures r.None? <==> forall j | i <= j < |entries| :: Conforms(valueType.inner, entries[j].1.inner)
    ensures r.Some? ==> exists k | i <= k < |entries| ::
                          && entries[k].0 == r.value.0
                          && !Conforms(valueType.inner, entries[k].1.inner)
                          && ValidateType(valueType, entries[k].1) == Err(r.value.1)
                          && forall j | i <= j < k :: Conforms(valueType.inner, entries[j].1.inner)
    decreases valueType, 1, |entries| - i
  {
    if i == |entries| then None
    else match ValidateType(valueType, entries[i].1)
      case Err(error) => Some((entries[i].0, error))
      case Ok(_) => ValidateEntries(valueType, entries, i + 1)
  }

  // ---------------------------------------------------------------------
  // Validating parameter values against a schema
  // ---------------------------------------------------------------------

  datatype ParamValidationError =
    | MissingParam(key: String, expectedType: Spanned<ParamType>)
    | UnknownParam(key: String, value: Spanned<Value>)
    | InvalidParam(key: String, error: ValidateValueError)
    | UnionNoMatch(caseErrors: seq<ParamValidationErrors>)

  datatype ParamValidationErrors = ParamValidationErrors(errors: seq<ParamValidationError>)

  /** A field, present or absent, is acceptable for the values. */
  predicate FieldAccepts(key: String, field: Spanned<ParamField>, values: ParamValues) {
    match Rimu.Get(values.entries, key)
    case Some(v) => Conforms(field.inner.typ, v.inner)
    case None => field.inner.optional
  }

  /** The reference meaning of "the values fit the struct". */
  predicate StructMatches(fields: Fields, values: ParamValues) {
    && (forall i | 0 <= i < |fields| :: FieldAccepts(fields[i].0, fields[i].1, values))
    && (forall i | 0 <= i < |values.entries| :: Rimu.HasKey(fields, values.entries[i].0))
  }

  /**
   * `e` reports a problem with the field `key`: it is absent though
   * required, or present with a value that does not have the field's type.
   */
  predicate Reports(e: ParamValidationError, key: String, field: Spanned<ParamField>, values: ParamValues) {
    match e
    case MissingParam(k, t) =>
      k == key && Rimu.Get(values.entries, key).None? && !field.inner.optional && t.inner == field.inner.typ
    case InvalidParam(k, error) =>
      && k == key && Rimu.Get(values.entries, key).Some?
      && !Conforms(field.inner.typ, Rimu.Get(values.entries, key).value.inner)
      && ValidateType(Rimu.Spanned(field.inner.typ, field.span), Rimu.Get(values.entries, key).value) == Err(error)
    case _ => false
  }

  /** The problems with the fields from position `i` on, in field order: one per bad or missing field. */
  function FieldErrors(fields: Fields, values: ParamValues, i: nat): (r: seq<ParamValidationError>)
    requires i <= |fields|
    ensures r == [] <==> forall j | i <= j < |fields| :: FieldAccepts(fields[j].0, fields[j].1, values)
    ensures |r| <= |fields| - i
    decreases |fields| - i
  {
    if i == |fields| then []
    else
      var key := fields[i].0;
      var field := fields[i].1;
      var here := FieldError(key, field, values);
      here + FieldErrors(fields, values, i + 1)
  }

  /** The problem with one field, if it has one. */
  function FieldError(key: String, field: Spanned<ParamField>, values: ParamValues): (r: seq<ParamValidationError>)
    ensures r == [] <==> FieldAccepts(key, field, values)
    ensures |r| <= 1 && forall e | e in r :: Reports(e, key, field, values)
  {
    var spannedType := Rimu.Spanned(field.inner.typ, field.span);
    match Rimu.Get(values.entries, key)
    case Some(v) =>
      (match ValidateType(spannedType, v)
       case Err(error) => [InvalidParam(key, error)]
       case Ok(_) => [])
    case None => if field.inner.optional then [] else [MissingParam(key, spannedType)]
  }

  /** Every problem reported from position `i` on belongs to some field from `i` on. */
  lemma {:induction false} FieldErrorsSound(fields: Fields, values: ParamValues, i: nat)
    requires i <= |fields|
    ensures forall e | e in FieldErrors(fields, values, i) ::
              exists j | i <= j < |fields| :: Reports(e, fields[j].0, fields[j].1, values)
    decreases |fields| - i
  {
    if i < |fields| {
      FieldErrorsSound(fields, values, i + 1);
      var here := FieldError(fields[i].0, fields[i].1, values);
      var rest := FieldErrors(fields, values, i + 1);
      forall e | e in here + rest ensures exists j | i <= j < |fields| :: Reports(e, fields[j].0, fields[j].1, values) {
        if e in here {
          assert Reports(e, fields[i].0, fields[i].1, values);
        } else {
          var j :| i + 1 <= j < |fields| && Reports(e, fields[j].0, fields[j].1, values);
        }
      }
    }
  }

  /** Every field from position `i` on that does not accept the values has a problem reported. */
  lemma {:induction false} FieldErrorsComplete(fields: Fields, values: ParamValues, i: nat)
    requires i <= |fields|
    ensures forall j | i <= j < |fields| && !FieldAccepts(fields[j].0, fields[j].1, values) ::
              exists e | e in FieldErrors(fields, values, i) :: Reports(e, fields[j].0, fields[j].1, values)
    decreases |fields| - i
  {
    if i < |fields| {
      FieldErrorsComplete(fields, values, i + 1);
      var here := FieldError(fields[i].0, fields[i].1, values);
      var rest := FieldErrors(fields, values, i + 1);
      forall j | i <= j < |fields| && !FieldAccepts(fields[j].0, fields[j].1, values)
        ensures exists e | e in here + rest :: Reports(e, fields[j].0, fields[j].1, values)
      {
        if j == i {
          assert here[0] in here + rest;
        } else {
          var e :| e in rest && Reports(e, fields[j].0, fields[j].1, values);
          assert e in here + rest;
        }
      }
    }
  }

  /** One `UnknownParam` for each value entry, from position `i` on, that names no field, in value order. */
  function UnknownErrors(fields: Fields, entries: Rimu.Entries, i: nat): (r: seq<ParamValidationError>)
    requires i <= |entries|
    ensures r == [] <==> forall j | i <= j < |entries| :: Rimu.HasKey(fields, entries[j].0)
    ensures forall e | e in r :: e.UnknownParam? && !Rimu.HasKey(fields, e.key) && (e.key, e.value) in entries[i..]
    ensures forall j | i <= j < |entries| && !Rimu.HasKey(fields, entries[j].0) ::
              UnknownParam(entries[j].0, entries[j].1) in r
    decreases |entries| - i
  {
    if i == |entries| then []
    else
      var rest := UnknownErrors(fields, entries, i + 1);
      assert entries[i + 1..] == entries[i..][1..];
      if Rimu.HasKey(fields, entries[i].0) then rest
      else [UnknownParam(entries[i].0, entries[i].1)] + rest
  }

  /** Validate values against a struct, collecting every problem: field problems first, then unknown keys. */
  function ValidateStruct(fields: Fields, values: ParamValues): (r: Result<(), ParamValidationErrors>)
    ensures r.Ok? <==> StructMatches(fields, values)
    ensures r.Err? ==> |r.error.errors| > 0
  {
    var errors := FieldErrors(fields, values, 0) + UnknownErrors(fields, values.entries, 0);
    if |errors| == 0 then Ok(()) else Err(ParamValidationErrors(errors))
  }

  /**
   * A failed struct validation reports every failing field and every
   * unknown key, and reports nothing else.
   */
  lemma ValidateStructErrors(fields: Fields, values: ParamValues)
    requires ValidateStruct(fields, values).Err?
    ensures var errors := ValidateStruct(fields, values).error.errors;
            && (forall i | 0 <= i < |values.entries| && !Rimu.HasKey(fields, values.entries[i].0) ::
                  UnknownParam(values.entries[i].0, values.entries[i].1) in errors)
            && (forall i | 0 <= i < |fields| && !FieldAccepts(fields[i].0, fields[i].1, values) ::
                  exists e | e in errors :: Reports(e, fields[i].0, fields[i].1, values))
            && (forall e | e in errors ::
                  || (exists i | 0 <= i < |fields| :: Reports(e, fields[i].0, fields[i].1, values))
                  || (e.UnknownParam? && !Rimu.HasKey(fields, e.key) && (e.key, e.value) in values.entries))
  {
    var fe := FieldErrors(fields, values, 0);
    var ue := UnknownErrors(fields, values.entries, 0);
    FieldErrorsSound(fields, values, 0);
    FieldErrorsComplete(fields, values, 0);
    assert values.entries[0..] == values.entries;
    forall i | 0 <= i < |fields| && !FieldAccepts(fields[i].0, fields[i].1, values)
      ensures exists e | e in fe + ue :: Reports(e, fields[i].0, fields[i].1, values)
    {
      var e :| e in fe && Reports(e, fields[i].0, fields[i].1, values);
      assert e in fe + ue;
    }
  }

  /**
   * Validate against an optional schema: no schema accepts anything; a
   * struct collects its problems; a union succeeds on the first case
   * that fits and otherwise reports one `UnionNoMatch` holding each
   * case's problems in case order.
   */
  function Validate(paramTypes: Option<Spanned<ParamTypes>>, paramValues: Spanned<ParamValues>): (r: Result<(), ParamValidationErrors>)
    ensures paramTypes.None? ==> r.Ok?
    ensures paramTypes.Some? && paramTypes.value.inner.Struct? ==>
              (r.Ok? <==> StructMatches(paramTypes.value.inner.fields, paramValues.inner))
    ensures paramTypes.Some? && paramTypes.value.inner.Union? ==>
              (r.Ok? <==> exists i | 0 <= i < |paramTypes.value.inner.cases| ::
                            StructMatches(paramTypes.value.inner.cases[i], paramValues.inner))
    ensures paramTypes.Some? && paramTypes.value.inner.Union? && r.Err? ==>
              && |r.error.errors| == 1 && r.error.errors[0].UnionNoMatch?
              && |r.error.errors[0].caseErrors| == |paramTypes.value.inner.cases|
              && forall i | 0 <= i < |paramTypes.value.inner.cases| ::
                   ValidateStruct(paramTypes.value.inner.cases[i], paramValues.inner) == Err(r.error.errors[0].caseErrors[i])
  {
    match paramTypes
    case None => Ok(())
    case Some(types) =>
      match types.inner
      case Struct(fields) => ValidateStruct(fields, paramValues.inner)
      case Union(cases) =>
        FirstMatchSpec(cases, paramValues.inner);
        if |cases| == 0 then Err(ParamValidationErrors([UnionNoMatch([])]))
        else
          match FirstMatch(cases, paramValues.inner)
          case Ok(_) => Ok(())
          case Err(caseErrors) => Err(ParamValidationErrors([UnionNoMatch(caseErrors)]))
  }

  /** Try the candidates in order; stop at the first that passes, else collect each one's error, in order. */
  function FirstOk<T, E>(xs: seq<T>, check: T -> Result<(), E>): (r: Result<nat, seq<E>>)
    ensures r.Ok? ==> r.value < |xs| && check(xs[r.value]).Ok?
    ensures r.Err? ==> |r.error| == |xs|
  {
    if |xs| == 0 then Err([])
    else
      match check(xs[0])
      case Ok(_) => Ok(0)
      case Err(e) =>
        match FirstOk(xs[1..], check)
        case Ok(j) => Ok(j + 1)
        case Err(rest) => Err([e] + rest)
  }

  /** The chosen candidate is the first that passes; with none passing, each error is kept at its candidate's position. */
  lemma {:induction false} FirstOkSpec<T, E>(xs: seq<T>, check: T -> Result<(), E>)
    ensures FirstOk(xs, check).Ok? <==> exists j | 0 <= j < |xs| :: check(xs[j]).Ok?
    ensures FirstOk(xs, check).Ok? ==> forall j | 0 <= j < FirstOk(xs, check).value :: check(xs[j]).Err?
    ensures FirstOk(xs, check).Err? ==> forall j | 0 <= j < |xs| :: check(xs[j]) == Err(FirstOk(xs, check).error[j])
  {
    if |xs| > 0 {
      var tail := xs[1..];
      FirstOkSpec(tail, check);
      assert forall j | 0 <= j < |tail| :: tail[j] == xs[j + 1];
      if check(xs[0]).Err? {
        if exists j | 0 <= j < |xs| :: check(xs[j]).Ok? {
          var j :| 0 <= j < |xs| && check(xs[j]).Ok?;
          assert j > 0 && check(tail[j - 1]).Ok?;
        }
      }
    }
  }

  /** Try the cases in order; stop at the first that fits, else collect the problems of each, in order. */
  function FirstMatch(cases: seq<Fields>, values: ParamValues): (r: Result<nat, seq<ParamValidationErrors>>)
    ensures r.Ok? ==> r.value < |cases| && StructMatches(cases[r.value], values)
    ensures r.Err? ==> |r.error| == |cases|
  {
    FirstOk(cases, c => ValidateStruct(c, values))
  }

  /** The chosen case is the first that fits; with none fitting, each case's problems are kept at its position. */
  lemma FirstMatchSpec(cases: seq<Fields>, values: ParamValues)
    ensures FirstMatch(cases, values).Ok? <==> exists j | 0 <= j < |cases| :: StructMatches(cases[j], values)
    ensures FirstMatch(cases, values).Ok? ==> forall j | 0 <= j < FirstMatch(cases, values).value :: !StructMatches(cases[j], values)
    ensures FirstMatch(cases, values).Err? ==>
              forall j | 0 <= j < |cases| :: ValidateStruct(cases[j], values) == Err(FirstMatch(cases, values).error[j])
  {
    var check := c => ValidateStruct(c, values);
    FirstOkSpec(cases, check);
    assert forall j | 0 <= j < |cases| :: check(cases[j]) == ValidateStruct(cases[j], values);
  }
}
