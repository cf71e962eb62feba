/**
 * The package operation: install a list of packages.
 *
 * An operation is built from its parameters (one package or a list),
 * broken into one atom per package, each atom yields a one-package delta,
 * and the deltas of an epoch are applied as one batch: the packages
 * concatenated, sorted and de-duplicated. The batch is what the apply step
 * would install; logging it is left out.
 */
module PackageOps {
  import opened Wrappers
  import Strs
  import Rimu
  import Params

  type String = Strs.String

  datatype PackageOperation = PackageOperation(packages: seq<String>)

  /** The two accepted parameter shapes: `{ package }` or `{ packages }`. */
  datatype PackageParams =
    | Package(package: String)
    | Packages(packages: seq<String>)

  datatype PackageOperationAtom = PackageOperationAtom(package: String)

  datatype PackageOperationDelta = PackageOperationDelta(packages: seq<String>)

  // ---------------------------------------------------------------------
  // Parameters
  // ---------------------------------------------------------------------

  /** The empty span the built-in schemas are labelled with. */
  const NoSpan := Rimu.Span([], 0, 0)

  /** The case `{ package: string }`. */
  function PackageFields(): Params.Fields {
    [("package", Rimu.Spanned(Params.NewField(Params.ParamType.String), NoSpan))]
  }

  /** The case `{ packages: list of string }`. */
  function PackagesFields(): Params.Fields {
    [("packages", Rimu.Spanned(Params.NewField(Params.ParamType.List(Rimu.Spanned(Params.ParamType.String, NoSpan))), NoSpan))]
  }

  /** The parameter schema: a union of the single-package and the package-list shapes. */
  function ParamTypes(): (r: Option<Rimu.Spanned<Params.ParamTypes>>)
    ensures r.Some? && r.value.inner.Union? && |r.value.inner.cases| == 2
    ensures r.value.inner.cases[0] == PackageFields() && r.value.inner.cases[1] == PackagesFields()
  {
    Some(Rimu.Spanned(Params.Union([PackageFields(), PackagesFields()]), NoSpan))
  }

  /** Every item of the list is a string. */
  predicate AllStrings(items: seq<Rimu.Spanned<Rimu.Value>>) {
    forall i | 0 <= i < |items| :: items[i].inner.String?
  }

  function Strings(items: seq<Rimu.Spanned<Rimu.Value>>): (r: seq<String>)
    requires AllStrings(items)
    ensures |r| == |items| && forall i | 0 <= i < |items| :: r[i] == items[i].inner.s
  {
    if |items| == 0 then [] else [items[0].inner.s] + Strings(items[1..])
  }

  /** The values have exactly one entry, and it is named `key`. */
  predicate Single(values: Params.ParamValues, key: String) {
    |values.entries| == 1 && values.entries[0].0 == key
  }

  /** The values have the shape `{ package: string }`. */
  predicate IsPackageShape(values: Params.ParamValues) {
    Single(values, "package") && values.entries[0].1.inner.String?
  }

  /** The values have the shape `{ packages: list of string }`. */
  predicate IsPackagesShape(values: Params.ParamValues) {
    Single(values, "packages") && values.entries[0].1.inner.List? && AllStrings(values.entries[0].1.inner.items)
  }

  /**
   * Reading the parameters from the values, trying the shapes in
   * declaration order: the first whose fields are present with the right
   * types wins, and entries a shape does not name are ignored.
   */
  function ParamsFromValues(values: Params.ParamValues): (r: Option<PackageParams>)
    ensures r.Some? && r.value.Package? ==>
              Rimu.Get(values.entries, "package").Some? && Rimu.Get(values.entries, "package").value.inner == Rimu.String(r.value.package)
    ensures r.None? ==> !(Rimu.Get(values.entries, "package").Some? && Rimu.Get(values.entries, "package").value.inner.String?)
  {
    match Rimu.Get(values.entries, "package")
    case Some(v) =>
      if v.inner.String? then Some(Package(v.inner.s)) else PackagesFromValues(values)
    case None => PackagesFromValues(values)
  }

  function PackagesFromValues(values: Params.ParamValues): (r: Option<PackageParams>)
    ensures r.Some? ==> r.value.Packages?
  {
    match Rimu.Get(values.entries, "packages")
    case Some(v) =>
      if v.inner.List? && AllStrings(v.inner.items) then Some(Packages(Strings(v.inner.items))) else None
    case None => None
  }

  /**
   * With keys unique, a struct with the single required field `key`
   * accepts exactly the values whose only entry is `key` with a value of
   * the field's type.
   */
  lemma {:induction false} SingleFieldMatches(key: String, field: Rimu.Spanned<Params.ParamField>, values: Params.ParamValues)
    requires Rimu.UniqueKeys(values.entries) && !field.inner.optional
    ensures Params.StructMatches([(key, field)], values)
        <==> Single(values, key) && Params.Conforms(field.inner.typ, values.entries[0].1.inner)
  {
    var fields := [(key, field)];
    var entries := values.entries;
    assert Rimu.Find(fields, key) == Some(0);
    if Params.StructMatches(fields, values) {
      assert Params.FieldAccepts(fields[0].0, fields[0].1, values);
      var v := Rimu.Get(entries, key).value;
      var k :| 0 <= k < |entries| && entries[k] == (key, v);
      forall i | 0 <= i < |entries| ensures entries[i].0 == key {
        assert Rimu.HasKey(fields, entries[i].0);
      }
      if |entries| > 1 {
        assert false;
      }
    }
    if Single(values, key) && Params.Conforms(field.inner.typ, values.entries[0].1.inner) {
      assert Rimu.Find(entries, key) == Some(0);
    }
  }

  /** The schema accepts exactly the two parameter shapes. */
  lemma ParamTypesAccept(values: Params.ParamValues, span: Rimu.Span)
    requires Rimu.UniqueKeys(values.entries)
    ensures Params.Validate(ParamTypes(), Rimu.Spanned(values, span)).Ok?
        <==> IsPackageShape(values) || IsPackagesShape(values)
  {
    var stringType := Params.ParamType.String;
    var listType := Params.ParamType.List(Rimu.Spanned(stringType, NoSpan));
    SingleFieldMatches("package", PackageFields()[0].1, values);
    SingleFieldMatches("packages", PackagesFields()[0].1, values);
    if |values.entries| == 1 {
      var v := values.entries[0].1.inner;
      assert Params.Conforms(listType, v) <==> v.List? && AllStrings(v.items);
    }
    var cases := [PackageFields(), PackagesFields()];
    if IsPackageShape(values) {
      assert Params.StructMatches(cases[0], values);
    }
    if IsPackagesShape(values) {
      assert Params.StructMatches(cases[1], values);
    }
  }

  /** Values the schema accepts always read as parameters, and which shape they read as. */
  lemma ValidatedParamsRead(values: Params.ParamValues, span: Rimu.Span)
    requires Rimu.UniqueKeys(values.entries)
    requires Params.Validate(ParamTypes(), Rimu.Spanned(values, span)).Ok?
    ensures ParamsFromValues(values).Some?
    ensures IsPackageShape(values) ==> ParamsFromValues(values) == Some(Package(values.entries[0].1.inner.s))
    ensures IsPackagesShape(values) ==> ParamsFromValues(values) == Some(Packages(Strings(values.entries[0].1.inner.items)))
  {
    ParamTypesAccept(values, span);
    assert Rimu.Find(values.entries, values.entries[0].0) == Some(0);
  }

  // ---------------------------------------------------------------------
  // Operation, atoms, deltas
  // ---------------------------------------------------------------------

  /** The packages the parameters name, in order. */
  function New(params: PackageParams): (r: PackageOperation)
    ensures |r.packages| == if params.Package? then 1 else |params.packages|
    ensures params.Package? ==> r.packages[0] == params.package
  {
    match params
    case Package(package) => PackageOperation([package])
    case Packages(packages) => PackageOperation(packages)
  }

  /** All packages of the operations, in order. */
  function AllPackages(ops: seq<PackageOperation>): seq<String> {
    if |ops| == 0 then [] else ops[0].packages + AllPackages(ops[1..])
  }

  function PackageAtoms(packages: seq<String>): (r: seq<PackageOperationAtom>)
    ensures |r| == |packages| && forall k | 0 <= k < |r| :: r[k].package == packages[k]
  {
    if |packages| == 0 then [] else [PackageOperationAtom(packages[0])] + PackageAtoms(packages[1..])
  }

  /** One atom per package of each operation, in order. */
  function Atoms(ops: seq<PackageOperation>): (r: seq<PackageOperationAtom>)
    ensures |r| == |AllPackages(ops)|
    ensures forall k | 0 <= k < |r| :: r[k].package == AllPackages(ops)[k]
  {
    if |ops| == 0 then [] else PackageAtoms(ops[0].packages) + Atoms(ops[1..])
  }

  /** Every atom always has a delta: the one package, to be installed. */
  function Delta(atom: PackageOperationAtom): (r: Option<PackageOperationDelta>)
    ensures r.Some? && r.value.packages == [atom.package]
  {
    Some(PackageOperationDelta([atom.package]))
  }

  function DeltaPackages(deltas: seq<PackageOperationDelta>): seq<String> {
    if |deltas| == 0 then [] else deltas[0].packages + DeltaPackages(deltas[1..])
  }

  /**
   * Apply an epoch's deltas as one batch. The batch holds each package
   * named by some delta exactly once, sorted; applying never fails.
   */
  function Apply(deltas: seq<PackageOperationDelta>): (r: (seq<String>, Result<(), ()>))
    ensures r.1.Ok?
    ensures Strs.StrictlySorted(r.0) && Strs.Elems(r.0) == Strs.Elems(DeltaPackages(deltas))
  {
    (Strs.SortDedup(DeltaPackages(deltas)), Ok(()))
  }

  /** The deltas of the atoms of some operations, as the epoch collects them. */
  function AtomDeltas(atoms: seq<PackageOperationAtom>): (r: seq<PackageOperationDelta>)
    ensures |r| == |atoms| && forall k | 0 <= k < |r| :: Some(r[k]) == Delta(atoms[k])
  {
    if |atoms| == 0 then [] else [Delta(atoms[0]).value] + AtomDeltas(atoms[1..])
  }

  /** Breaking operations into atoms and taking their deltas gives back every package, in order. */
  lemma {:induction false} AtomDeltasPackages(ops: seq<PackageOperation>)
    ensures DeltaPackages(AtomDeltas(Atoms(ops))) == AllPackages(ops)
  {
    var atoms := Atoms(ops);
    var ps := AllPackages(ops);
    DeltaPackagesSingles(AtomDeltas(atoms));
    assert forall k | 0 <= k < |atoms| :: AtomDeltas(atoms)[k].packages == [ps[k]];
  }

  /** Deltas of one package each concatenate to the list of those packages. */
  lemma {:induction false} DeltaPackagesSingles(deltas: seq<PackageOperationDelta>)
    requires forall k | 0 <= k < |deltas| :: |deltas[k].packages| == 1
    ensures |DeltaPackages(deltas)| == |deltas|
    ensures forall k | 0 <= k < |deltas| :: DeltaPackages(deltas)[k] == deltas[k].packages[0]
  {
    if |deltas| > 0 {
      DeltaPackagesSingles(deltas[1..]);
      assert deltas[0].packages == [deltas[0].packages[0]];
    }
  }

  /**
   * The batch depends only on which packages are named: not on the order
   * of the deltas, how the packages are split among them, or repeats.
   */
  lemma ApplyCanonical(a: seq<PackageOperationDelta>, b: seq<PackageOperationDelta>)
    requires Strs.Elems(DeltaPackages(a)) == Strs.Elems(DeltaPackages(b))
    ensures Apply(a) == Apply(b)
  {
    Strs.SortDedupCanonical(DeltaPackages(a), DeltaPackages(b));
  }

  /** The batch of an epoch installs exactly the packages of its operations. */
  lemma EpochBatch(ops: seq<PackageOperation>)
    ensures Strs.Elems(Apply(AtomDeltas(Atoms(ops))).0) == Strs.Elems(AllPackages(ops))
  {
    AtomDeltasPackages(ops);
  }
}
