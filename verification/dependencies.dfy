/**
 * The dependency collector: a depth-first walk over each schema's fields that
 * records the schema, then every enum and schema its fields refer to, in an
 * insertion-ordered map; and the loop that runs it over the whole catalog.
 *
 * `Visit` and `VisitFields` state what one call computes as a function of the
 * map before the call; `AddSchemaToDependencyArray` is the in-place procedure,
 * proved to leave the map in exactly that state.
 */
module Dependencies {
  import opened Wrappers
  import opened Schemas
  import opened OrderedDicts

  /** The lookup of a referenced schema name that the catalog lacks (a KeyError). */
  datatype Error = MissingSchema(name: string)

  /** How many schema names of the catalog are not yet keys: the walk's termination measure. */
  ghost function Unvisited(catalog: Catalog, d: Ordered): nat {
    |SchemaNames(catalog) - d.entries.Keys|
  }

  lemma UnvisitedAfter(catalog: Catalog, d: Ordered, e: Ordered, x: string)
    requires d.entries.Keys <= e.entries.Keys
    ensures Unvisited(catalog, e) <= Unvisited(catalog, d)
    ensures x in SchemaNames(catalog) && x in e.entries && x !in d.entries ==>
              Unvisited(catalog, e) < Unvisited(catalog, d)
  {
    var n := SchemaNames(catalog);
    var a, b := n - d.entries.Keys, n - e.entries.Keys;
    var gained := a * e.entries.Keys;
    assert a == b + gained;
    assert b * gained == {};
    if x in n && x in e.entries && x !in d.entries {
      assert x in gained;
    }
  }

  /** The map after `add_schema_to_dependency_array(root, d, catalog)` returns, or the error it raises. */
  function Visit(root: Schema, d: Ordered, catalog: Catalog): (r: Result<Ordered, Error>)
    requires WellFormed(d) && root in catalog.Values
    ensures r.Ok? ==> WellFormed(r.value) && Extends(d, r.value)
    ensures r.Ok? ==> root.name in r.value.entries && r.value.entries[root.name] == StructEntry(root)
    ensures r.Ok? ==> forall k :: k in d.entries && k != root.name ==> r.value.entries[k] == d.entries[k]
    ensures r.Ok? && root.name !in d.entries ==> |d.keys| < |r.value.keys| && r.value.keys[|d.keys|] == root.name
    decreases Unvisited(catalog, d), if root.name in d.entries then 1 else 0, 0
  {
    var d1 := WithItem(d, root.name, StructEntry(root));
    SchemaNameInNames(catalog, root);
    UnvisitedAfter(catalog, d, d1, root.name);
    VisitFields(root, 0, d1, catalog)
  }

  /** One pass of the loop body: the map after handling the field at position `i`, or the error it raises. */
  function VisitField(root: Schema, i: nat, d: Ordered, catalog: Catalog): (r: Result<Ordered, Error>)
    requires WellFormed(d) && root in catalog.Values && i < |root.fields| && root.name in d.entries
    ensures r.Ok? ==> WellFormed(r.value) && Extends(d, r.value)
    ensures r.Ok? ==> forall k :: k in d.entries ==> r.value.entries[k] == d.entries[k]
    decreases Unvisited(catalog, d), 0, 1
  {
    var f := root.fields[i];
    if f.schemaName.None? || f.schemaName.value in d.entries then Ok(d)
    else if IsEnumField(f) then Ok(WithItem(d, f.schemaName.value, EnumEntry(f.values)))
    else if f.schemaName.value !in catalog then Err(MissingSchema(f.schemaName.value))
    else
      var child := catalog[f.schemaName.value];
      if child.name in d.entries then Ok(d) else Visit(child, d, catalog)
  }

  /** The loop over `root.fields[i..]`, once `root` itself is recorded. */
  function VisitFields(root: Schema, i: nat, d: Ordered, catalog: Catalog): (r: Result<Ordered, Error>)
    requires WellFormed(d) && root in catalog.Values && i <= |root.fields| && root.name in d.entries
    ensures r.Ok? ==> WellFormed(r.value) && Extends(d, r.value)
    ensures r.Ok? ==> forall k :: k in d.entries ==> r.value.entries[k] == d.entries[k]
    decreases Unvisited(catalog, d), 0, |root.fields| - i + 1
  {
    if i == |root.fields| then Ok(d)
    else
      match VisitField(root, i, d, catalog)
      case Err(e) => Err(e)
      case Ok(d1) =>
        UnvisitedAfter(catalog, d, d1, root.name);
        var r := VisitFields(root, i + 1, d1, catalog);
        if r.Ok? then ExtendsTransitive(d, d1, r.value); r else r
  }

  /** The loop goes on from the map one pass leaves, or stops with the pass's error. */
  lemma VisitFieldsStep(root: Schema, i: nat, d: Ordered, catalog: Catalog)
    requires WellFormed(d) && root in catalog.Values && i < |root.fields| && root.name in d.entries
    ensures var next := VisitField(root, i, d, catalog);
            next.Ok? ==> WellFormed(next.value) && root.name in next.value.entries &&
                         Unvisited(catalog, next.value) <= Unvisited(catalog, d) &&
                         VisitFields(root, i, d, catalog) == VisitFields(root, i + 1, next.value, catalog)
    ensures VisitField(root, i, d, catalog).Err? ==> VisitFields(root, i, d, catalog) == VisitField(root, i, d, catalog)
  {
    var next := VisitField(root, i, d, catalog);
    if next.Ok? {
      UnvisitedAfter(catalog, d, next.value, root.name);
    }
  }

  /**
   * Records `schema` under its name, then walks its fields in order (see
   * `AddFields`). Fails on the first reference the catalog does not hold.
   */
  method AddSchemaToDependencyArray(schema: Schema, ordered: OrderedSchemas, catalog: Catalog)
    returns (err: Option<Error>)
    requires ordered.Valid() && schema in catalog.Values
    modifies ordered
    ensures ordered.Valid() && Extends(old(ordered.Value()), ordered.Value())
    ensures err.None? ==> Visit(schema, old(ordered.Value()), catalog) == Ok(ordered.Value())
    ensures err.Some? ==> Visit(schema, old(ordered.Value()), catalog) == Err(err.value)
    decreases Unvisited(catalog, ordered.Value()), if schema.name in ordered.entries then 1 else 0, 0
  {
    ghost var d0 := ordered.Value();
    ordered.SetItem(schema.name, StructEntry(schema));
    SchemaNameInNames(catalog, schema);
    UnvisitedAfter(catalog, d0, ordered.Value(), schema.name);
    err := AddFields(schema, ordered, catalog);
    ExtendsTransitive(d0, WithItem(d0, schema.name, StructEntry(schema)), ordered.Value());
  }

  /** The loop over `schema`'s fields, once `schema` itself is recorded. */
  method AddFields(schema: Schema, ordered: OrderedSchemas, catalog: Catalog)
    returns (err: Option<Error>)
    requires ordered.Valid() && schema in catalog.Values && schema.name in ordered.entries
    modifies ordered
    ensures ordered.Valid() && Extends(old(ordered.Value()), ordered.Value())
    ensures err.None? ==> VisitFields(schema, 0, old(ordered.Value()), catalog) == Ok(ordered.Value())
    ensures err.Some? ==> VisitFields(schema, 0, old(ordered.Value()), catalog) == Err(err.value)
    decreases Unvisited(catalog, ordered.Value()), 0, |schema.fields| + 1
  {
    ghost var d1 := ordered.Value();
    ghost var outcome := VisitFields(schema, 0, d1, catalog);
    for i := 0 to |schema.fields|
      invariant ordered.Valid() && Extends(d1, ordered.Value())
      invariant Unvisited(catalog, ordered.Value()) <= Unvisited(catalog, d1)
      invariant outcome == VisitFields(schema, i, ordered.Value(), catalog)
    {
      ghost var d := ordered.Value();
      VisitFieldsStep(schema, i, d, catalog);
      err := AddField(schema, i, ordered, catalog);
      ExtendsTransitive(d1, d, ordered.Value());
      if err.Some? {
        return;
      }
    }
    return None;
  }

  /**
   * One pass of the loop over `schema`'s fields: a field without a schema
   * reference, or whose reference is already a key, is skipped; an enum
   * reference records the enum's values; any other reference is looked up in
   * the catalog and, unless its schema is already recorded, walked
   * recursively. Fails on a reference the catalog does not hold.
   */
  method AddField(schema: Schema, i: nat, ordered: OrderedSchemas, catalog: Catalog)
    returns (err: Option<Error>)
    requires ordered.Valid() && schema in catalog.Values && i < |schema.fields| && schema.name in ordered.entries
    modifies ordered
    ensures ordered.Valid() && Extends(old(ordered.Value()), ordered.Value())
    ensures err.None? ==> VisitField(schema, i, old(ordered.Value()), catalog) == Ok(ordered.Value())
    ensures err.Some? ==> VisitField(schema, i, old(ordered.Value()), catalog) == Err(err.value)
    decreases Unvisited(catalog, ordered.Value()), 0, 1
  {
    var field := schema.fields[i];
    var fieldSchemaName := field.schemaName;
    if fieldSchemaName.None? || ordered.Contains(fieldSchemaName.value) {
      return None;
    }
    if IsEnumField(field) {
      ordered.SetItem(fieldSchemaName.value, EnumEntry(field.values));
      return None;
    }
    if fieldSchemaName.value !in catalog {
      return Some(MissingSchema(fieldSchemaName.value));
    }
    var fieldSchema := catalog[fieldSchemaName.value];
    if !ordered.Contains(fieldSchema.name) {
      err := AddSchemaToDependencyArray(fieldSchema, ordered, catalog);
    } else {
      err := None;
    }
  }

  /** The `main` loop: the map after walking the catalog's schemas in the order of `names`. */
  function OrderAll(catalog: Catalog, names: seq<string>, d: Ordered): (r: Result<Ordered, Error>)
    requires WellFormed(d) && forall n :: n in names ==> n in catalog
    ensures r.Ok? ==> WellFormed(r.value) && Extends(d, r.value)
    ensures r.Ok? ==> forall n :: n in names ==> catalog[n].name in r.value.entries
    decreases |names|
  {
    if names == [] then Ok(d)
    else
      match Visit(catalog[names[0]], d, catalog)
      case Err(e) => Err(e)
      case Ok(d1) => OrderAll(catalog, names[1..], d1)
  }

  /** Runs the collector on every schema of the catalog, in catalog order, from an empty map. */
  method OrderCatalog(catalog: Catalog, names: seq<string>) returns (ordered: OrderedSchemas, err: Option<Error>)
    requires forall n :: n in names ==> n in catalog
    ensures fresh(ordered) && ordered.Valid()
    ensures err.None? ==> OrderAll(catalog, names, Empty()) == Ok(ordered.Value())
    ensures err.Some? ==> OrderAll(catalog, names, Empty()) == Err(err.value)
  {
    ordered := new OrderedSchemas();
    for i := 0 to |names|
      invariant ordered.Valid()
      invariant OrderAll(catalog, names, Empty()) == OrderAll(catalog, names[i..], ordered.Value())
    {
      assert names[i..][1..] == names[i + 1..];
      err := AddSchemaToDependencyArray(catalog[names[i]], ordered, catalog);
      if err.Some? {
        return;
      }
    }
    assert names[|names|..] == [];
    err := None;
  }
}
