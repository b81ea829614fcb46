# Thrift bindings generator of H2O, modelled in Dafny

H2O's bindings generator `gen_thrift.py` turns the server's schema catalog into
one Thrift IDL file. It does this in three steps:

1. **Dependency collection.** `add_schema_to_dependency_array` records a schema
   in an insertion-ordered dictionary. It then walks the schema's fields in
   order:
   - a field without a schema reference is skipped;
   - a field whose reference is already a key is skipped;
   - an enum reference records the enum's value list;
   - any other reference is looked up in the catalog and, unless it is already
     recorded, walked recursively.

   The `main` loop runs the walk over every schema of the catalog, starting
   from an empty dictionary.
2. **Type translation.** `ThriftTypeTranslator` fills the translator's table
   with the Thrift spelling of each primitive and of the polymorphic type. It
   also installs the constructors for arrays, 2-D arrays and maps, and a map
   key always becomes `String`.
3. **Emission.** `generate_thrift` writes a fixed header and a fixed
   `PrimitiveUnion`, then one block per dictionary entry in insertion order:
   `generate_enum` for a value list, `generate_struct` for a schema.
   - Enum values are tagged from 1.
   - A struct field is tagged with its index among all the fields. The
     `__meta` field is skipped but still uses up its index.
   - A field named after a Thrift reserved word gets a trailing underscore.

The Dafny modules follow that structure:

- `Schemas`: the catalog, its schemas and fields, and the type descriptors.
- `OrderedDicts`: the insertion-ordered dictionary. It is a value `Ordered`
  and a class `OrderedSchemas` that is updated in place.
- `Dependencies`: the collector. It is written as module-level methods that
  take an `OrderedSchemas` object and update it in place. Each method is
  proved to reach exactly the state that a specification function (`Visit`,
  `VisitFields`, `OrderAll`) computes.
- `DependencyProperties` and `DependencyExamples`: what the collector
  guarantees, and two worked examples.
- `TypeTable`: the translator.
- `Decimal`: the `%d` rendering of tags.
- `Emitter`: the line generators.
- `Sequences` and `Wrappers`: general helpers.

The collector guarantees the following:
- it fails only on a non-enum reference that the catalog lacks (a
  `KeyError`). An enum reference is recorded without any lookup. So when every
  non-enum reference names a catalog key, the walk and the `main` loop
  succeed;
- when the walk succeeds:
  - every recorded key is a catalog schema under its own name, or an enum that
    some catalog field declares;
  - every reference of a recorded schema is itself recorded;
- when the `main` loop succeeds and every catalog key names the schema stored
  under it, the keys are exactly the catalog's schema names plus the declared
  enums.

The order the code actually produces puts a schema *before* the schemas it
discovers, because the schema is recorded before its fields are walked. This
is the opposite of the order that the docstring at
`h2o-bindings/bin/gen_thrift.py:35-36` describes. The model follows the code,
and `DependencyExamples.UserPrecedesDependency` states the order the code
produces.

## Model

| member | source | states |
|---|---|---|
| TypeTable.Types | h2o-bindings/bin/gen_thrift.py:15-22 | the eight entries the constructor sets: float, byte, short, int, long, boolean, string and Polymorphic mapped to double, i8, i16, i32, i64, bool, String and PrimitiveUnion; its contents are stated by `TypesDomain` and `PrimitiveInTable` |
| TypeTable.Translate | h2o-bindings/bin/gen_thrift.py:15-30 | the Thrift type expression of a field type; its behaviour is stated by `TranslateUsesTable`, `NamedPrimitive`, `Array2IsNestedArray`, `MapKeyIgnored` and `PrimitiveTranslationInjective` |
| TypeTable.PrimitiveInTable | h2o-bindings/bin/gen_thrift.py:15-21 | the table maps each primitive's name (float, byte, short, int, long, boolean, string) to its Thrift type (double, i8, i16, i32, i64, bool, String) |
| TypeTable.TranslateUsesTable | h2o-bindings/bin/gen_thrift.py:15-22 | primitives and the polymorphic type are looked up in the table; a name outside the table passes through unchanged |
| TypeTable.TypesDomain | h2o-bindings/bin/gen_thrift.py:15-22 | the entries this constructor sets have exactly the seven primitive names and "Polymorphic" as keys |
| TypeTable.NamedPrimitive | h2o-bindings/bin/gen_thrift.py:15-21 | a primitive written by name translates the same as its typed form |
| TypeTable.PrimitiveTranslationInjective | h2o-bindings/bin/gen_thrift.py:15-21 | distinct primitives get distinct Thrift types |
| TypeTable.Array2IsNestedArray | h2o-bindings/bin/gen_thrift.py:23-24 | a 2-D array translates as an array of arrays of the element type |
| TypeTable.MapKeyIgnored | h2o-bindings/bin/gen_thrift.py:25-26 | a map translates to `map<String,V>` whatever its declared key type |
| Schemas.IsEnumField | h2o-bindings/bin/gen_thrift.py:48 | a field refers to an enum when its type text starts with "enum"; used by `VisitField`, and its role is stated by `EnumFieldRecorded` and `VisitFieldFails` |
| OrderedDicts.WithItem | h2o-bindings/bin/gen_thrift.py:43 | dictionary assignment: a new key is appended and an existing key keeps its position; the key holds the new entry; every other key and entry is unchanged; keys stay distinct |
| OrderedDicts.OrderedSchemas.SetItem | h2o-bindings/bin/gen_thrift.py:43 | the in-place assignment leaves the dictionary equal to `WithItem` of its old value |
| OrderedDicts.OrderedSchemas.constructor | h2o-bindings/bin/gen_thrift.py:117 | a new dictionary is empty |
| OrderedDicts.DistinctPairwise | h2o-bindings/bin/gen_thrift.py:43 | the recursive "each key once" predicate is equivalent to pairwise distinctness of the keys |
| Dependencies.Visit | h2o-bindings/bin/gen_thrift.py:33-53 | the walk from a schema extends the dictionary, records the schema under its name, and appends it if it is new; it leaves other existing entries unchanged |
| Dependencies.VisitField | h2o-bindings/bin/gen_thrift.py:45-53 | one field's pass extends the dictionary and keeps every existing entry |
| Dependencies.VisitFields | h2o-bindings/bin/gen_thrift.py:44-53 | the loop over the fields extends the dictionary and keeps every existing entry |
| Dependencies.VisitFieldsStep | h2o-bindings/bin/gen_thrift.py:44-53 | the loop goes on from the dictionary one pass leaves, with the work measure not increased; it stops with the first pass's error |
| Dependencies.AddSchemaToDependencyArray | h2o-bindings/bin/gen_thrift.py:33-53 | the in-place walk leaves exactly the dictionary `Visit` computes, or fails with the error `Visit` reports |
| Dependencies.AddFields | h2o-bindings/bin/gen_thrift.py:44-53 | the in-place field loop reaches exactly `VisitFields`' result or error; the loop invariant ties each iteration to it |
| Dependencies.AddField | h2o-bindings/bin/gen_thrift.py:45-53 | each branch of the loop body (skip, enum, missing schema, recursion) reaches exactly `VisitField`'s result or error |
| Dependencies.OrderAll | h2o-bindings/bin/gen_thrift.py:117-119 | after the main loop, every walked schema's name is a key, and the dictionary extends the starting one |
| Dependencies.OrderCatalog | h2o-bindings/bin/gen_thrift.py:116-119 | the in-place main loop from an empty dictionary reaches exactly `OrderAll`'s result or error |
| DependencyProperties.VisitSound | h2o-bindings/bin/gen_thrift.py:43-53 | a walk records only catalog schemas under their own names and enums declared by catalog fields with their value lists |
| DependencyProperties.VisitFieldSound | h2o-bindings/bin/gen_thrift.py:45-53 | one field's pass keeps every key justified by the catalog |
| DependencyProperties.VisitFieldsSound | h2o-bindings/bin/gen_thrift.py:44-53 | the field loop keeps every key justified by the catalog |
| DependencyProperties.VisitFails | h2o-bindings/bin/gen_thrift.py:33-53 | a walk that fails names a non-enum reference of some catalog schema that is not a catalog key |
| DependencyProperties.VisitFieldFails | h2o-bindings/bin/gen_thrift.py:48-53 | one pass fails only on a missing non-enum reference, either its own lookup at line 51 or one met in the recursive walk |
| DependencyProperties.VisitFieldsFail | h2o-bindings/bin/gen_thrift.py:44-53 | the field loop fails only on a missing non-enum reference |
| DependencyProperties.EnumFieldRecorded | h2o-bindings/bin/gen_thrift.py:48-49 | a new enum reference is recorded with the field's values, with no catalog lookup and whether or not the catalog knows the name |
| DependencyProperties.VisitSucceeds | h2o-bindings/bin/gen_thrift.py:33-53 | when every non-enum reference of the catalog is a catalog key, the walk succeeds |
| DependencyProperties.OrderAllFails | h2o-bindings/bin/gen_thrift.py:117-119 | the main loop fails only on a non-enum reference that the catalog lacks |
| DependencyProperties.OrderAllSucceeds | h2o-bindings/bin/gen_thrift.py:117-119 | when every non-enum reference of the catalog is a catalog key, the main loop succeeds |
| DependencyProperties.VisitClosed | h2o-bindings/bin/gen_thrift.py:38-40 | after a walk, every reference of the walked schema and of every newly recorded schema is recorded |
| DependencyProperties.VisitFieldClosed | h2o-bindings/bin/gen_thrift.py:45-53 | after one pass, that field's reference is recorded, earlier fields stay covered, and new schemas are closed |
| DependencyProperties.VisitFieldsClosed | h2o-bindings/bin/gen_thrift.py:44-53 | after the loop, every field of the schema is covered and new schemas are closed |
| DependencyProperties.VisitKeepsClosed | h2o-bindings/bin/gen_thrift.py:38-40 | a walk from a closed dictionary yields a closed dictionary: nothing needed is left unrecorded |
| DependencyProperties.OrderAllSoundAndClosed | h2o-bindings/bin/gen_thrift.py:117-119 | the main loop keeps every key justified and every recorded schema's references recorded |
| DependencyProperties.OrderAllKeeps | h2o-bindings/bin/gen_thrift.py:117-119 | an entry whose name the rest of the loop does not visit stays as it is |
| DependencyProperties.OrderAllStructs | h2o-bindings/bin/gen_thrift.py:117-119 | after the loop, every visited catalog name holds the catalog's own schema (an enum of the same name is overwritten) |
| DependencyProperties.OrderAllKeysJustified | h2o-bindings/bin/gen_thrift.py:117-119 | every key of the result is a catalog name or an enum declared by a catalog field |
| DependencyProperties.OrderAllCoversEnums | h2o-bindings/bin/gen_thrift.py:117-119 | after a successful loop, every enum that a field of a visited schema declares is a key |
| DependencyProperties.OrderAllRecordsEnums | h2o-bindings/bin/gen_thrift.py:48-49 | every enum that some catalog field declares is a key of the result, for any catalog, whatever keys it files its schemas under |
| DependencyProperties.OrderAllKeySet | h2o-bindings/bin/gen_thrift.py:116-119 | for a catalog whose keys name their own schemas, a successful result's keys are exactly the catalog names plus the declared enums, and each catalog name holds its schema |
| DependencyExamples.UserPrecedesDependency | h2o-bindings/bin/gen_thrift.py:43-53 | for A using B, the code orders A before B, not after it as the docstring says |
| DependencyExamples.SelfReferenceRecordedOnce | h2o-bindings/bin/gen_thrift.py:47 | a self-referencing schema is recorded once, and the walk terminates |
| Decimal.NatToString | h2o-bindings/bin/gen_thrift.py:87 | a tag is rendered as decimal digits with no leading zero |
| Decimal.ParseNatToString | h2o-bindings/bin/gen_thrift.py:87 | reading a rendered tag back gives the number |
| Decimal.NatToStringInjective | h2o-bindings/bin/gen_thrift.py:104 | distinct tags are spelled differently |
| Emitter.ReservedWords | h2o-bindings/bin/gen_thrift.py:9 | the five Thrift reserved words from, type, exception, lambda and required; `SafeName` states how a field named after one is emitted |
| Emitter.SafeName | h2o-bindings/bin/gen_thrift.py:99-101 | the emitted name is never a reserved word; it extends the field name by at most one character, which is `_`, and it equals the name exactly when the name is not reserved |
| Emitter.EnumLine | h2o-bindings/bin/gen_thrift.py:87 | one enum value line, "  value = tag,"; `EnumValueLines` and `GenerateEnum` state which value gets which tag |
| Emitter.EnumValueLines | h2o-bindings/bin/gen_thrift.py:86-87 | one line per value, in list order, each tagged with consecutive numbers |
| Emitter.GenerateEnum | h2o-bindings/bin/gen_thrift.py:83-89 | the header, then value `i` tagged `i+1`, then the closing brace and a blank line |
| Emitter.FieldLine | h2o-bindings/bin/gen_thrift.py:98-104 | one struct field line: the tag, required or optional, the translated type and the safe name; `StructFieldTag` states which field gets which tag, `SafeName` the name, `TranslateUsesTable` the type |
| Emitter.FieldLines | h2o-bindings/bin/gen_thrift.py:96-105 | three lines for each field except `__meta` |
| Emitter.FieldLinesAt | h2o-bindings/bin/gen_thrift.py:96-105 | field `j` appears after the blocks of the shown fields before it, as its wrapped help, its line tagged `j`, and a blank line |
| Emitter.GenerateStruct | h2o-bindings/bin/gen_thrift.py:92-107 | a struct block is its header, a blank line, three lines per shown field, the closing brace and a blank line |
| Emitter.StructFieldTag | h2o-bindings/bin/gen_thrift.py:96-104 | every non-meta field is emitted in order; its tag is its index among all fields, so a skipped `__meta` still uses up a number |
| Emitter.Header | h2o-bindings/bin/gen_thrift.py:57-65 | the fixed comment header and namespace declaration are nine lines |
| Emitter.UnionFieldLines | h2o-bindings/bin/gen_thrift.py:67-74 | member `i` is tagged consecutively and named after its type |
| Emitter.PrimitiveUnion | h2o-bindings/bin/gen_thrift.py:66-76 | the union is opened, lists bool, byte, i16, i32, i64, double, binary and string tagged 1 to 8, then is closed and followed by a blank line |
| Emitter.Preamble | h2o-bindings/bin/gen_thrift.py:57-76 | the fixed part of the document is 20 lines |
| Emitter.Block | h2o-bindings/bin/gen_thrift.py:78-79 | a value list becomes an enum block and a schema becomes a struct block, each headed by its key |
| Emitter.GenerateThrift | h2o-bindings/bin/gen_thrift.py:56-80 | the whole document; its shape is stated by `ThriftStartsWithPreamble` (the 20 fixed lines, then directly the concatenated blocks, so an empty dictionary gives the preamble alone) and `ThriftBlockAt` (one block per key, in the dictionary's order) |
| Emitter.ThriftStartsWithPreamble | h2o-bindings/bin/gen_thrift.py:56-80 | every document is the 20 fixed lines followed directly by the blocks of the keys: its length is 20 plus theirs, nothing lies between, and an empty dictionary gives the preamble alone |
| Emitter.ThriftBlockAt | h2o-bindings/bin/gen_thrift.py:77-80 | after the preamble come the blocks of the keys in the dictionary's order; the block at position `i` is that of the `i`-th key |

## Left out

- I/O is not modelled:
  - `bi.init`;
  - `bi.schemas_map`, which fetches the catalog from a running server;
  - `bi.write_to_file`;
  - `bi.vprint` and `vprint_translation_map`.

  The catalog and the iteration order of its names are parameters (`catalog`
  and `names`). The emitters return the list of lines that the generators
  yield.
- `bi.wrap`, the help-text word wrapper, is a parameter `wrap: string -> string`. Its line breaking is not modelled.
- The bindings library's type-descriptor parser and the body of `bi.TypeTranslator.translate` are not part of this model:
  - each field carries both its raw descriptor text, which the collector's "starts with enum" test reads, and a parsed `TypeDesc`;
  - `Translate` applies the table and the four constructors that this file installs to that parsed form.
- The entries that the base `bi.TypeTranslator` constructor puts into `types` before this file's constructor runs are not part of this model. `Types` holds only the eight entries set at lines 15-22, and a name outside them passes through `Translate` unchanged.
- Python's recursion-depth limit is not modelled. A chain of nested schema references deeper than the interpreter allows raises `RecursionError` at line 53, but in the model the walk always returns a result.
- `make_key`'s unused schema argument is dropped, because its result is always `String`.
- AddSchemaToDependencyArray: on a `KeyError`, the dictionary that the source leaves behind is only stated to extend the old one. Its exact contents at the failure are not given.
- The emitted document is modelled as a sequence of lines. Python's lazy generators and their interleaving with the wrapper's output are not modelled.
- Python's `type(v) is list` test on dictionary values becomes the `Entry` variant (`EnumEntry` or `StructEntry`).
- The docstring's "dependencies first" ordering is not modelled: the model follows the code, which records a schema before its dependencies.
