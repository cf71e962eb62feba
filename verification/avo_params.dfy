/**
 * The older `avo` crate's parameter schema: a flat object mapping each
 * parameter name to its type. Types and values decode exactly as in the
 * newer params crate (`Params.TypeFromRimu`, `Params.ValuesFromRimu`);
 * what is new here is the schema object, decoded entry by entry in
 * order, stopping at the first entry whose type does not decode.
 */
module AvoParams {
  import opened Wrappers
  import Rimu
  import RimuInterop
  import Params

  type String = Rimu.String
  type Spanned<T> = Rimu.Spanned<T>

  /** Parameter name to type, in the order the object lists them. */
  datatype ParamTypes = ParamTypes(entries: seq<(String, Spanned<Params.ParamType>)>)

  datatype ParamTypesFromRimuError =
    | NotAnObject
    | Entry(key: String, error: Spanned<Params.ParamTypeFromRimuError>)

  /** Decode a schema: an object whose every entry is a type. */
  function TypesFromRimu(value: Rimu.Value): (r: Result<ParamTypes, ParamTypesFromRimuError>)
    ensures !value.Object? ==> r == Err(NotAnObject)
    ensures r.Ok? ==> value.Object? && |r.value.entries| == |value.entries|
  {
    match value
    case Object(entries) =>
      (match RimuInterop.DecodeEntries(entries, Params.TypeFromRimu)
       case Ok(types) => Ok(ParamTypes(types))
       case Err((key, error)) => Err(Entry(key, error)))
    case _ => Err(NotAnObject)
  }

  /**
   * An object decodes exactly when each of its entries is a type; the
   * schema then lists the same names in the same order, each with the
   * type its entry decodes to and that entry's span.
   */
  lemma TypesFromRimuOk(entries: Rimu.Entries)
    ensures TypesFromRimu(Rimu.Object(entries)).Ok? <==>
              forall i | 0 <= i < |entries| :: Params.TypeFromRimu(entries[i].1.inner).Ok?
    ensures TypesFromRimu(Rimu.Object(entries)).Ok? ==>
              var types := TypesFromRimu(Rimu.Object(entries)).value.entries;
              && Rimu.Keys(types) == Rimu.Keys(entries)
              && forall i | 0 <= i < |entries| ::
                   types[i].1 == Rimu.Spanned(Params.TypeFromRimu(entries[i].1.inner).value, entries[i].1.span)
  {
    RimuInterop.DecodeEntriesOk(entries, Params.TypeFromRimu);
  }

  /**
   * A failure names the first entry, in object order, whose type does not
   * decode, with that type's error spanned by the entry's value.
   */
  lemma TypesFromRimuErr(entries: Rimu.Entries)
    requires TypesFromRimu(Rimu.Object(entries)).Err?
    ensures exists i | 0 <= i < |entries| ::
              && (forall j | 0 <= j < i :: Params.TypeFromRimu(entries[j].1.inner).Ok?)
              && Params.TypeFromRimu(entries[i].1.inner).Err?
              && TypesFromRimu(Rimu.Object(entries)).error
                 == Entry(entries[i].0, Rimu.Spanned(Params.TypeFromRimu(entries[i].1.inner).error, entries[i].1.span))
  {
    RimuInterop.DecodeEntriesErr(entries, Params.TypeFromRimu);
  }

  /** Look a parameter value up by name. */
  function ValuesGet(values: Params.ParamValues, key: String): (r: Option<Spanned<Rimu.Value>>)
    ensures r.Some? <==> exists i | 0 <= i < |values.entries| :: values.entries[i].0 == key
    ensures r.Some? ==> (key, r.value) in values.entries
  {
    Rimu.Get(values.entries, key)
  }

  /** Write a schema out as an object of type objects; `sp` labels the generated "type" strings. */
  function TypesToRimu(types: ParamTypes, sp: Rimu.Span): (r: Rimu.Value)
    ensures r.Object? && Rimu.Keys(r.entries) == Rimu.Keys(types.entries)
  {
    Rimu.Object(TypeEntries(types.entries, sp))
  }

  function TypeEntries(types: seq<(String, Spanned<Params.ParamType>)>, sp: Rimu.Span): (r: Rimu.Entries)
    ensures |r| == |types|
    ensures forall i | 0 <= i < |types| ::
              r[i] == (types[i].0, Rimu.Spanned(Params.TypeToRimu(types[i].1.inner, sp), types[i].1.span))
  {
    if |types| == 0 then []
    else [(types[0].0, Rimu.Spanned(Params.TypeToRimu(types[0].1.inner, sp), types[0].1.span))] + TypeEntries(types[1..], sp)
  }

  /** Every schema survives being written out and read back, names, order and spans included. */
  lemma TypesRoundTrip(types: ParamTypes, sp: Rimu.Span)
    ensures TypesFromRimu(TypesToRimu(types, sp)) == Ok(types)
  {
    var entries := TypeEntries(types.entries, sp);
    forall i | 0 <= i < |entries| ensures Params.TypeFromRimu(entries[i].1.inner) == Ok(types.entries[i].1.inner) {
      Params.TypeRoundTrip(types.entries[i].1.inner, sp);
    }
    TypesFromRimuOk(entries);
    var decoded := TypesFromRimu(Rimu.Object(entries)).value.entries;
    assert |decoded| == |types.entries|;
    forall i | 0 <= i < |decoded| ensures decoded[i] == types.entries[i] {
      assert Rimu.Keys(decoded)[i] == Rimu.Keys(entries)[i];
    }
    assert decoded == types.entries;
  }
}
