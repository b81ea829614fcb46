/**
 * The in-memory schema catalog that the Thrift generator consumes: schemas,
 * their fields, and the type descriptors of those fields.
 */
module Schemas {
  import opened Wrappers

  /** The primitive kinds for which the Thrift type table has an entry. */
  datatype Primitive = Float | Byte | Short | Int | Long | Boolean | Str

  /**
   * A parsed field type. `Named` is any descriptor the table does not cover:
   * a nested schema, an enum, or an unknown primitive name, kept verbatim.
   */
  datatype TypeDesc =
    | Prim(kind: Primitive)
    | Polymorphic
    | Array(elem: TypeDesc)
    | Array2(elem: TypeDesc)
    | MapOf(key: TypeDesc, value: TypeDesc)
    | Named(name: string)

  /**
   * One field of a schema. `typeText` is the raw descriptor text, `desc` the form
   * the descriptor parser makes of it; `values` are the value names of an enum field.
   */
  datatype Field = Field(
    name: string,
    typeText: string,
    desc: TypeDesc,
    schemaName: Option<string>,
    required: bool,
    help: string,
    values: seq<string>)

  datatype Schema = Schema(name: string, fields: seq<Field>)

  /** What the catalog maps a schema name to. */
  type Catalog = map<string, Schema>

  /** A value of the ordered declaration map: a struct's schema or an enum's value list. */
  datatype Entry = StructEntry(schema: Schema) | EnumEntry(values: seq<string>)

  /** A field whose descriptor text starts with "enum" refers to an enum, not a schema. */
  predicate IsEnumField(f: Field) {
    "enum" <= f.typeText
  }

  /** The schema names the catalog holds (the `name` of every value). */
  ghost function SchemaNames(catalog: Catalog): set<string> {
    set k | k in catalog :: catalog[k].name
  }

  /** Every catalog key is the name of the schema stored under it. */
  ghost predicate Consistent(catalog: Catalog) {
    forall k :: k in catalog ==> catalog[k].name == k
  }

  lemma SchemaNameInNames(catalog: Catalog, s: Schema)
    requires s in catalog.Values
    ensures s.name in SchemaNames(catalog)
  {
    var k :| k in catalog && catalog[k] == s;
  }
}
