/**
 * What the dependency collector guarantees. It fails only on a non-enum
 * reference the catalog lacks, so it succeeds on a catalog whose references
 * resolve. When it succeeds, every key it records is justified by the catalog
 * and every reference of a recorded schema is recorded, and after the `main`
 * loop the keys are exactly the catalog's schemas plus the enums their fields
 * name. Also the order it really produces, which puts a schema before the
 * dependencies it discovers.
 */
module DependencyProperties {
  import opened Wrappers
  import opened Schemas
  import opened OrderedDicts
  import opened Dependencies

  /** Some field of some catalog schema declares an enum named `k`. */
  ghost predicate ReachedEnum(catalog: Catalog, k: string) {
    exists s, f :: s in catalog.Values && f in s.fields && IsEnumField(f) && f.schemaName == Some(k)
  }

  /** A key with its entry is a catalog schema under its own name, or an enum some catalog field declares. */
  ghost predicate Justified(catalog: Catalog, k: string, e: Entry) {
    match e
    case StructEntry(s) => s in catalog.Values && s.name == k
    case EnumEntry(vs) =>
      exists s, f :: s in catalog.Values && f in s.fields && IsEnumField(f) && f.schemaName == Some(k) && f.values == vs
  }

  ghost predicate Sound(catalog: Catalog, d: Ordered) {
    forall k :: k in d.entries ==> Justified(catalog, k, d.entries[k])
  }

  /** The reference a field makes has been recorded (directly, or as the schema the catalog holds under it). */
  ghost predicate Covered(f: Field, d: Ordered, catalog: Catalog) {
    match f.schemaName
    case None => true
    case Some(n) => n in d.entries || (!IsEnumField(f) && n in catalog && catalog[n].name in d.entries)
  }

  ghost predicate FieldsCovered(s: Schema, d: Ordered, catalog: Catalog) {
    forall f :: f in s.fields ==> Covered(f, d, catalog)
  }

  /** Every recorded schema has all of its references recorded. */
  ghost predicate Closed(d: Ordered, catalog: Catalog) {
    forall k :: k in d.entries && d.entries[k].StructEntry? ==> FieldsCovered(d.entries[k].schema, d, catalog)
  }

  /** Every schema recorded in `e` but not in `d` has all of its references recorded. */
  ghost predicate NewClosed(d: Ordered, e: Ordered, catalog: Catalog) {
    forall k :: k in e.entries && k !in d.entries && e.entries[k].StructEntry? ==>
      FieldsCovered(e.entries[k].schema, e, catalog)
  }

  lemma CoveredFieldMonotone(f: Field, d: Ordered, e: Ordered, catalog: Catalog)
    requires Covered(f, d, catalog) && d.entries.Keys <= e.entries.Keys
    ensures Covered(f, e, catalog)
  {
  }

  lemma CoveredMonotone(s: Schema, d: Ordered, e: Ordered, catalog: Catalog)
    requires FieldsCovered(s, d, catalog) && d.entries.Keys <= e.entries.Keys
    ensures FieldsCovered(s, e, catalog)
  {
  }

  // ---------------------------------------------------------------- soundness

  lemma SoundWithItem(catalog: Catalog, d: Ordered, k: string, e: Entry)
    requires WellFormed(d) && Sound(catalog, d) && Justified(catalog, k, e)
    ensures Sound(catalog, WithItem(d, k, e))
  {
  }

  lemma {:induction false} VisitSound(root: Schema, d: Ordered, catalog: Catalog)
    requires WellFormed(d) && root in catalog.Values && Sound(catalog, d)
    ensures Visit(root, d, catalog).Ok? ==> Sound(catalog, Visit(root, d, catalog).value)
    decreases Unvisited(catalog, d), if root.name in d.entries then 1 else 0, 0
  {
    var d1 := WithItem(d, root.name, StructEntry(root));
    SchemaNameInNames(catalog, root);
    UnvisitedAfter(catalog, d, d1, root.name);
    SoundWithItem(catalog, d, root.name, StructEntry(root));
    VisitFieldsSound(root, 0, d1, catalog);
    assert Visit(root, d, catalog) == VisitFields(root, 0, d1, catalog);
  }

  lemma {:induction false} VisitFieldSound(root: Schema, i: nat, d: Ordered, catalog: Catalog)
    requires WellFormed(d) && root in catalog.Values && i < |root.fields| && root.name in d.entries
    requires Sound(catalog, d)
    ensures VisitField(root, i, d, catalog).Ok? ==> Sound(catalog, VisitField(root, i, d, catalog).value)
    decreases Unvisited(catalog, d), 0, 1
  {
    var f := root.fields[i];
    if f.schemaName.None? || f.schemaName.value in d.entries {
    } else if IsEnumField(f) {
      assert Justified(catalog, f.schemaName.value, EnumEntry(f.values)) by {
        assert f in root.fields;
      }
      SoundWithItem(catalog, d, f.schemaName.value, EnumEntry(f.values));
    } else if f.schemaName.value in catalog {
      var child := catalog[f.schemaName.value];
      if child.name !in d.entries {
        VisitSound(child, d, catalog);
      }
    }
  }

  lemma {:induction false} VisitFieldsSound(root: Schema, i: nat, d: Ordered, catalog: Catalog)
    requires WellFormed(d) && root in catalog.Values && i <= |root.fields| && root.name in d.entries
    requires Sound(catalog, d)
    ensures VisitFields(root, i, d, catalog).Ok? ==> Sound(catalog, VisitFields(root, i, d, catalog).value)
    decreases Unvisited(catalog, d), 0, |root.fields| - i + 1
  {
    if i < |root.fields| {
      VisitFieldSound(root, i, d, catalog);
      var next := VisitField(root, i, d, catalog);
      if next.Ok? {
        UnvisitedAfter(catalog, d, next.value, root.name);
        assert VisitFields(root, i, d, catalog) == VisitFields(root, i + 1, next.value, catalog);
        VisitFieldsSound(root, i + 1, next.value, catalog);
      }
    }
  }

  // ---------------------------------------------------------------- failure

  /** `n` is referenced by a non-enum field of some catalog schema, yet is not a catalog key: looking it up raises. */
  ghost predicate Dangling(catalog: Catalog, n: string) {
    n !in catalog && exists s, f :: s in catalog.Values && f in s.fields && !IsEnumField(f) && f.schemaName == Some(n)
  }

  /** Every non-enum reference of every catalog schema is a catalog key. */
  ghost predicate Resolved(catalog: Catalog) {
    forall s, f :: s in catalog.Values && f in s.fields && f.schemaName.Some? && !IsEnumField(f) ==>
      f.schemaName.value in catalog
  }

  lemma ResolvedNothingDangling(catalog: Catalog)
    requires Resolved(catalog)
    ensures forall n :: !Dangling(catalog, n)
  {
  }

  /** A walk fails only on a non-enum reference that the catalog lacks. */
  lemma {:induction false} VisitFails(root: Schema, d: Ordered, catalog: Catalog)
    requires WellFormed(d) && root in catalog.Values
    ensures Visit(root, d, catalog).Err? ==> Dangling(catalog, Visit(root, d, catalog).error.name)
    decreases Unvisited(catalog, d), if root.name in d.entries then 1 else 0, 0
  {
    var d1 := WithItem(d, root.name, StructEntry(root));
    SchemaNameInNames(catalog, root);
    UnvisitedAfter(catalog, d, d1, root.name);
    VisitFieldsFail(root, 0, d1, catalog);
    assert Visit(root, d, catalog) == VisitFields(root, 0, d1, catalog);
  }

  /**
   * One pass fails only on a non-enum reference that the catalog lacks, either
   * its own or one met in the recursive walk; an enum reference is never looked up.
   */
  lemma {:induction false} VisitFieldFails(root: Schema, i: nat, d: Ordered, catalog: Catalog)
    requires WellFormed(d) && root in catalog.Values && i < |root.fields| && root.name in d.entries
    ensures VisitField(root, i, d, catalog).Err? ==> Dangling(catalog, VisitField(root, i, d, catalog).error.name)
    decreases Unvisited(catalog, d), 0, 1
  {
    var f := root.fields[i];
    if f.schemaName.Some? && f.schemaName.value !in d.entries && !IsEnumField(f) {
      var n := f.schemaName.value;
      if n !in catalog {
        assert VisitField(root, i, d, catalog) == Err(MissingSchema(n));
        assert f in root.fields;
      } else if catalog[n].name !in d.entries {
        VisitFails(catalog[n], d, catalog);
        assert VisitField(root, i, d, catalog) == Visit(catalog[n], d, catalog);
      }
    }
  }

  lemma {:induction false} VisitFieldsFail(root: Schema, i: nat, d: Ordered, catalog: Catalog)
    requires WellFormed(d) && root in catalog.Values && i <= |root.fields| && root.name in d.entries
    ensures VisitFields(root, i, d, catalog).Err? ==> Dangling(catalog, VisitFields(root, i, d, catalog).error.name)
    decreases Unvisited(catalog, d), 0, |root.fields| - i + 1
  {
    if i < |root.fields| {
      VisitFieldFails(root, i, d, catalog);
      var next := VisitField(root, i, d, catalog);
      if next.Ok? {
        UnvisitedAfter(catalog, d, next.value, root.name);
        assert VisitFields(root, i, d, catalog) == VisitFields(root, i + 1, next.value, catalog);
        VisitFieldsFail(root, i + 1, next.value, catalog);
      } else {
        assert VisitFields(root, i, d, catalog) == next;
      }
    }
  }

  /** When every reference resolves, a walk succeeds. */
  lemma VisitSucceeds(root: Schema, d: Ordered, catalog: Catalog)
    requires WellFormed(d) && root in catalog.Values && Resolved(catalog)
    ensures Visit(root, d, catalog).Ok?
  {
    VisitFails(root, d, catalog);
    ResolvedNothingDangling(catalog);
  }

  /** The main loop fails only on a non-enum reference that the catalog lacks. */
  lemma {:induction false} OrderAllFails(catalog: Catalog, names: seq<string>, d: Ordered)
    requires WellFormed(d) && forall n :: n in names ==> n in catalog
    ensures OrderAll(catalog, names, d).Err? ==> Dangling(catalog, OrderAll(catalog, names, d).error.name)
    decreases |names|
  {
    if names != [] {
      VisitFails(catalog[names[0]], d, catalog);
      var r := Visit(catalog[names[0]], d, catalog);
      if r.Ok? {
        OrderAllFails(catalog, names[1..], r.value);
      }
    }
  }

  /** When every reference resolves, the main loop succeeds. */
  lemma OrderAllSucceeds(catalog: Catalog, names: seq<string>, d: Ordered)
    requires WellFormed(d) && (forall n :: n in names ==> n in catalog) && Resolved(catalog)
    ensures OrderAll(catalog, names, d).Ok?
  {
    OrderAllFails(catalog, names, d);
    ResolvedNothingDangling(catalog);
  }

  /** A new enum reference is recorded with the field's values, whether or not the catalog knows the name. */
  lemma EnumFieldRecorded(root: Schema, i: nat, d: Ordered, catalog: Catalog)
    requires WellFormed(d) && root in catalog.Values && i < |root.fields| && root.name in d.entries
    requires IsEnumField(root.fields[i]) && root.fields[i].schemaName.Some?
    requires root.fields[i].schemaName.value !in d.entries
    ensures VisitField(root, i, d, catalog) ==
            Ok(WithItem(d, root.fields[i].schemaName.value, EnumEntry(root.fields[i].values)))
  {
  }

  // ---------------------------------------------------------------- closure

  lemma NewClosedTransitive(d: Ordered, e: Ordered, f: Ordered, catalog: Catalog)
    requires NewClosed(d, e, catalog) && NewClosed(e, f, catalog)
    requires e.entries.Keys <= f.entries.Keys
    requires forall k :: k in e.entries ==> f.entries[k] == e.entries[k]
    ensures NewClosed(d, f, catalog)
  {
    forall k | k in f.entries && k !in d.entries && f.entries[k].StructEntry?
      ensures FieldsCovered(f.entries[k].schema, f, catalog)
    {
      if k in e.entries {
        CoveredMonotone(e.entries[k].schema, e, f, catalog);
      }
    }
  }

  lemma {:induction false} VisitClosed(root: Schema, d: Ordered, catalog: Catalog)
    requires WellFormed(d) && root in catalog.Values
    ensures Visit(root, d, catalog).Ok? ==>
              FieldsCovered(root, Visit(root, d, catalog).value, catalog) &&
              NewClosed(d, Visit(root, d, catalog).value, catalog)
    decreases Unvisited(catalog, d), if root.name in d.entries then 1 else 0, 0
  {
    var d1 := WithItem(d, root.name, StructEntry(root));
    SchemaNameInNames(catalog, root);
    UnvisitedAfter(catalog, d, d1, root.name);
    VisitFieldsClosed(root, 0, d1, catalog);
  }

  lemma {:induction false} VisitFieldClosed(root: Schema, i: nat, d: Ordered, catalog: Catalog)
    requires WellFormed(d) && root in catalog.Values && i < |root.fields| && root.name in d.entries
    requires forall j :: 0 <= j < i ==> Covered(root.fields[j], d, catalog)
    ensures VisitField(root, i, d, catalog).Ok? ==>
              (forall j :: 0 <= j < i + 1 ==> Covered(root.fields[j], VisitField(root, i, d, catalog).value, catalog)) &&
              NewClosed(d, VisitField(root, i, d, catalog).value, catalog)
    decreases Unvisited(catalog, d), 0, 1
  {
    var f := root.fields[i];
    var r := VisitField(root, i, d, catalog);
    if r.Ok? {
      if f.schemaName.None? || f.schemaName.value in d.entries {
        assert r.value == d;
      } else if IsEnumField(f) {
        assert r.value == WithItem(d, f.schemaName.value, EnumEntry(f.values));
      } else {
        var child := catalog[f.schemaName.value];
        if child.name in d.entries {
          assert r.value == d;
        } else {
          assert r == Visit(child, d, catalog);
          VisitClosed(child, d, catalog);
        }
      }
      forall j | 0 <= j < i + 1
        ensures Covered(root.fields[j], r.value, catalog)
      {
        if j < i {
          CoveredFieldMonotone(root.fields[j], d, r.value, catalog);
        }
      }
    }
  }

  lemma {:induction false} VisitFieldsClosed(root: Schema, i: nat, d: Ordered, catalog: Catalog)
    requires WellFormed(d) && root in catalog.Values && i <= |root.fields| && root.name in d.entries
    requires forall j :: 0 <= j < i ==> Covered(root.fields[j], d, catalog)
    ensures VisitFields(root, i, d, catalog).Ok? ==>
              FieldsCovered(root, VisitFields(root, i, d, catalog).value, catalog) &&
              NewClosed(d, VisitFields(root, i, d, catalog).value, catalog)
    decreases Unvisited(catalog, d), 0, |root.fields| - i + 1
  {
    if i == |root.fields| {
      forall f | f in root.fields
        ensures Covered(f, d, catalog)
      {
        var j :| 0 <= j < |root.fields| && root.fields[j] == f;
      }
    } else {
      VisitFieldClosed(root, i, d, catalog);
      var next := VisitField(root, i, d, catalog);
      if next.Ok? {
        assert VisitFields(root, i, d, catalog) == VisitFields(root, i + 1, next.value, catalog);
        UnvisitedAfter(catalog, d, next.value, root.name);
        VisitFieldsClosed(root, i + 1, next.value, catalog);
        var r := VisitFields(root, i + 1, next.value, catalog);
        if r.Ok? {
          NewClosedTransitive(d, next.value, r.value, catalog);
        }
      }
    }
  }

  /** A complete walk leaves a closed map closed. */
  lemma VisitKeepsClosed(root: Schema, d: Ordered, catalog: Catalog)
    requires WellFormed(d) && root in catalog.Values && Closed(d, catalog)
    ensures Visit(root, d, catalog).Ok? ==> Closed(Visit(root, d, catalog).value, catalog)
  {
    VisitClosed(root, d, catalog);
    var r := Visit(root, d, catalog);
    if r.Ok? {
      forall k | k in r.value.entries && r.value.entries[k].StructEntry?
        ensures FieldsCovered(r.value.entries[k].schema, r.value, catalog)
      {
        if k in d.entries && k != root.name {
          CoveredMonotone(d.entries[k].schema, d, r.value, catalog);
        }
      }
    }
  }

  // ---------------------------------------------------------------- the main loop

  lemma {:induction false} OrderAllSoundAndClosed(catalog: Catalog, names: seq<string>, d: Ordered)
    requires WellFormed(d) && (forall n :: n in names ==> n in catalog)
    requires Sound(catalog, d) && Closed(d, catalog)
    ensures OrderAll(catalog, names, d).Ok? ==>
              Sound(catalog, OrderAll(catalog, names, d).value) && Closed(OrderAll(catalog, names, d).value, catalog)
    decreases |names|
  {
    if names != [] {
      var root := catalog[names[0]];
      VisitSound(root, d, catalog);
      VisitKeepsClosed(root, d, catalog);
      var r := Visit(root, d, catalog);
      if r.Ok? {
        OrderAllSoundAndClosed(catalog, names[1..], r.value);
      }
    }
  }

  /** An entry whose key the remaining loop does not visit is left as it is. */
  lemma {:induction false} OrderAllKeeps(catalog: Catalog, names: seq<string>, d: Ordered, k: string)
    requires WellFormed(d) && (forall n :: n in names ==> n in catalog) && Consistent(catalog)
    requires k in d.entries && k !in names
    ensures OrderAll(catalog, names, d).Ok? ==> OrderAll(catalog, names, d).value.entries[k] == d.entries[k]
    decreases |names|
  {
    if names != [] {
      var r := Visit(catalog[names[0]], d, catalog);
      if r.Ok? {
        OrderAllKeeps(catalog, names[1..], r.value, k);
      }
    }
  }

  /** After the loop, every visited catalog key holds the catalog's own schema. */
  lemma {:induction false} OrderAllStructs(catalog: Catalog, names: seq<string>, d: Ordered)
    requires WellFormed(d) && (forall n :: n in names ==> n in catalog) && Consistent(catalog)
    ensures OrderAll(catalog, names, d).Ok? ==>
              forall n :: n in names ==> OrderAll(catalog, names, d).value.entries[n] == StructEntry(catalog[n])
    decreases |names|
  {
    if names != [] {
      var r := Visit(catalog[names[0]], d, catalog);
      if r.Ok? {
        OrderAllStructs(catalog, names[1..], r.value);
        if names[0] !in names[1..] {
          OrderAllKeeps(catalog, names[1..], r.value, names[0]);
        }
      }
    }
  }

  /** Every key the loop records is a catalog schema or an enum some catalog field declares. */
  lemma OrderAllKeysJustified(catalog: Catalog, names: seq<string>)
    requires Consistent(catalog) && forall n :: n in names ==> n in catalog
    ensures OrderAll(catalog, names, Empty()).Ok? ==>
              forall k :: k in OrderAll(catalog, names, Empty()).value.entries ==> k in catalog || ReachedEnum(catalog, k)
  {
    var res := OrderAll(catalog, names, Empty());
    if res.Ok? {
      var r := res.value;
      OrderAllSoundAndClosed(catalog, names, Empty());
      forall k | k in r.entries
        ensures k in catalog || ReachedEnum(catalog, k)
      {
        assert Justified(catalog, k, r.entries[k]);
        if r.entries[k].StructEntry? {
          var s := r.entries[k].schema;
          var k' :| k' in catalog && catalog[k'] == s;
        }
      }
    }
  }

  /**
   * After the loop, every enum that a field of a visited schema declares is
   * recorded: the walk of that schema records it or finds it already a key,
   * and keys are never removed.
   */
  lemma {:induction false} OrderAllCoversEnums(catalog: Catalog, names: seq<string>, d: Ordered)
    requires WellFormed(d) && forall n :: n in names ==> n in catalog
    ensures OrderAll(catalog, names, d).Ok? ==>
              forall n, f :: n in names && f in catalog[n].fields && IsEnumField(f) && f.schemaName.Some? ==>
                f.schemaName.value in OrderAll(catalog, names, d).value.entries
    decreases |names|
  {
    if names != [] {
      var root := catalog[names[0]];
      VisitClosed(root, d, catalog);
      var r := Visit(root, d, catalog);
      if r.Ok? {
        OrderAllCoversEnums(catalog, names[1..], r.value);
        var last := OrderAll(catalog, names, d);
        assert last == OrderAll(catalog, names[1..], r.value);
        if last.Ok? {
          forall n, f | n in names && f in catalog[n].fields && IsEnumField(f) && f.schemaName.Some?
            ensures f.schemaName.value in last.value.entries
          {
            if n == names[0] {
              assert Covered(f, r.value, catalog);
            } else {
              assert n in names[1..];
            }
          }
        }
      }
    }
  }

  /** Every enum a catalog field declares is recorded, whatever names the catalog files its schemas under. */
  lemma OrderAllRecordsEnums(catalog: Catalog, names: seq<string>)
    requires forall n :: n in names <==> n in catalog
    ensures OrderAll(catalog, names, Empty()).Ok? ==>
              forall k :: ReachedEnum(catalog, k) ==> k in OrderAll(catalog, names, Empty()).value.entries
  {
    var res := OrderAll(catalog, names, Empty());
    if res.Ok? {
      OrderAllCoversEnums(catalog, names, Empty());
      forall k | ReachedEnum(catalog, k)
        ensures k in res.value.entries
      {
        var s, f :| s in catalog.Values && f in s.fields && IsEnumField(f) && f.schemaName == Some(k);
        var k' :| k' in catalog && catalog[k'] == s;
        assert k' in names;
      }
    }
  }

  /**
   * Run over every schema of a catalog whose keys name their schemas, the loop
   * records exactly the catalog's schemas, each as its own struct, plus the
   * enums that the catalog's fields declare.
   */
  lemma OrderAllKeySet(catalog: Catalog, names: seq<string>)
    requires Consistent(catalog) && forall n :: n in names <==> n in catalog
    ensures OrderAll(catalog, names, Empty()).Ok? ==>
              var r := OrderAll(catalog, names, Empty()).value;
              (forall k :: k in r.entries <==> k in catalog || ReachedEnum(catalog, k)) &&
              (forall k :: k in catalog ==> r.entries[k] == StructEntry(catalog[k]))
  {
    OrderAllKeysJustified(catalog, names);
    OrderAllRecordsEnums(catalog, names);
    OrderAllStructs(catalog, names, Empty());
  }
}

/** The collector's result, proved on two small catalogs. */
module DependencyExamples {
  import opened Wrappers
  import opened Schemas
  import opened OrderedDicts
  import opened Dependencies

  function RefField(name: string, target: string): Field {
    Field(name, target, Named(target), Some(target), true, "", [])
  }

  function UserSchema(): Schema {
    Schema("A", [RefField("b", "B")])
  }

  function UsedSchema(): Schema {
    Schema("B", [])
  }

  function TwoSchemas(): (c: Catalog)
    ensures "A" in c && c["A"] == UserSchema() && UserSchema() in c.Values
    ensures "B" in c && c["B"] == UsedSchema() && UsedSchema() in c.Values
  {
    map["A" := UserSchema(), "B" := UsedSchema()]
  }

  /** The map holding A, then B. */
  function UserThenUsed(): (d: Ordered)
    ensures WellFormed(d)
  {
    Ordered(["A", "B"], map["A" := StructEntry(UserSchema()), "B" := StructEntry(UsedSchema())])
  }

  /** The map holding A alone. */
  function UserOnly(): (d: Ordered)
    ensures WellFormed(d)
  {
    Ordered(["A"], map["A" := StructEntry(UserSchema())])
  }

  lemma VisitUsedFirst()
    ensures Visit(UsedSchema(), UserOnly(), TwoSchemas()) == Ok(UserThenUsed())
  {
    assert WithItem(UserOnly(), "B", StructEntry(UsedSchema())) == UserThenUsed();
  }

  lemma VisitUser()
    ensures Visit(UserSchema(), Empty(), TwoSchemas()) == Ok(UserThenUsed())
  {
    var a, catalog := UserSchema(), TwoSchemas();
    assert WithItem(Empty(), "A", StructEntry(a)) == UserOnly();
    assert Visit(a, Empty(), catalog) == VisitFields(a, 0, UserOnly(), catalog);
    VisitUsedFirst();
    assert !IsEnumField(a.fields[0]);
    assert VisitField(a, 0, UserOnly(), catalog) == Ok(UserThenUsed());
    VisitFieldsStep(a, 0, UserOnly(), catalog);
    assert VisitFields(a, 1, UserThenUsed(), catalog) == Ok(UserThenUsed());
  }

  lemma VisitUsedAgain()
    ensures Visit(UsedSchema(), UserThenUsed(), TwoSchemas()) == Ok(UserThenUsed())
  {
    var b, catalog := UsedSchema(), TwoSchemas();
    assert b == catalog["B"];
    assert WithItem(UserThenUsed(), "B", StructEntry(b)) == UserThenUsed();
    assert Visit(b, UserThenUsed(), catalog) == VisitFields(b, 0, UserThenUsed(), catalog);
  }

  /**
   * A schema A that uses a schema B is recorded BEFORE B: the walk inserts a
   * schema ahead of the dependencies it discovers, not after them.
   */
  lemma UserPrecedesDependency()
    ensures OrderAll(TwoSchemas(), ["A", "B"], Empty()).Ok?
    ensures OrderAll(TwoSchemas(), ["A", "B"], Empty()).value.keys == ["A", "B"]
  {
    var catalog := TwoSchemas();
    assert UserSchema() == catalog["A"] && UsedSchema() == catalog["B"];
    VisitUser();
    VisitUsedAgain();
    assert ["A", "B"][1..] == ["B"];
    assert OrderAll(catalog, ["A", "B"], Empty()) == OrderAll(catalog, ["B"], UserThenUsed());
    assert OrderAll(catalog, ["B"], UserThenUsed()) == OrderAll(catalog, [], UserThenUsed());
  }

  /** A schema A with one field that refers to A itself. */
  function SelfSchema(): Schema {
    Schema("A", [RefField("self", "A")])
  }

  function SelfCatalog(): (c: Catalog)
    ensures "A" in c && c["A"] == SelfSchema() && SelfSchema() in c.Values
  {
    map["A" := SelfSchema()]
  }

  /** The map holding the self-referring A once. */
  function SelfOnly(): (d: Ordered)
    ensures WellFormed(d)
  {
    Ordered(["A"], map["A" := StructEntry(SelfSchema())])
  }

  lemma VisitSelf()
    ensures Visit(SelfSchema(), Empty(), SelfCatalog()) == Ok(SelfOnly())
  {
    var a, catalog := SelfSchema(), SelfCatalog();
    assert WithItem(Empty(), "A", StructEntry(a)) == SelfOnly();
    assert Visit(a, Empty(), catalog) == VisitFields(a, 0, SelfOnly(), catalog);
    assert VisitField(a, 0, SelfOnly(), catalog) == Ok(SelfOnly());
    VisitFieldsStep(a, 0, SelfOnly(), catalog);
    assert VisitFields(a, 0, SelfOnly(), catalog) == VisitFields(a, 1, SelfOnly(), catalog);
    assert VisitFields(a, 1, SelfOnly(), catalog) == Ok(SelfOnly());
  }

  /** A schema whose field refers to itself is walked once and recorded once. */
  lemma SelfReferenceRecordedOnce()
    ensures OrderAll(SelfCatalog(), ["A"], Empty()) == Ok(Ordered(["A"], map["A" := StructEntry(SelfSchema())]))
  {
    var catalog := SelfCatalog();
    VisitSelf();
    assert ["A"][1..] == [];
    assert OrderAll(catalog, ["A"], Empty()) == OrderAll(catalog, [], SelfOnly());
  }
}
