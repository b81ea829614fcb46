/**
 * The Thrift type translator: the fixed table its constructor fills in and the
 * array, 2-D array, map and key constructors it installs.
 */
module TypeTable {
  import opened Schemas

  /** The entries this translator's constructor sets in the inherited `types` dictionary. */
  const Types: map<string, string> := map[
    "float" := "double",
    "byte" := "i8",
    "short" := "i16",
    "int" := "i32",
    "long" := "i64",
    "boolean" := "bool",
    "string" := "String",
    "Polymorphic" := "PrimitiveUnion"]

  /** The name under which a primitive appears in a schema's type descriptors. */
  function SourceName(p: Primitive): string {
    match p
    case Float => "float"
    case Byte => "byte"
    case Short => "short"
    case Int => "int"
    case Long => "long"
    case Boolean => "boolean"
    case Str => "string"
  }

  /**
   * The Thrift spelling of each primitive kind: the same seven entries as
   * `Types`, written as a match so that translating a primitive does not make
   * the verifier unfold the whole map literal. `PrimitiveInTable` proves the two
   * agree.
   */
  function ThriftPrimitive(p: Primitive): string {
    match p
    case Float => "double"
    case Byte => "i8"
    case Short => "i16"
    case Int => "i32"
    case Long => "i64"
    case Boolean => "bool"
    case Str => "String"
  }

  /** The table maps each primitive's source name to its Thrift spelling. */
  lemma PrimitiveInTable(p: Primitive)
    ensures SourceName(p) in Types && Types[SourceName(p)] == ThriftPrimitive(p)
  {
  }

  function MakeArray(itype: string): string {
    "list<" + itype + ">"
  }

  function MakeArray2(itype: string): string {
    "list<list<" + itype + ">>"
  }

  function MakeMap(ktype: string, vtype: string): string {
    "map<" + ktype + "," + vtype + ">"
  }

  /** Every key type becomes Thrift's String, whatever it was declared as. */
  function MakeKey(itype: string): string {
    "String"
  }

  /** The Thrift type expression for a field type. */
  function Translate(t: TypeDesc): string {
    match t
    case Prim(p) => ThriftPrimitive(p)
    case Polymorphic => Types["Polymorphic"]
    case Array(e) => MakeArray(Translate(e))
    case Array2(e) => MakeArray2(Translate(e))
    case MapOf(k, v) => MakeMap(MakeKey(Translate(k)), Translate(v))
    case Named(n) => if n in Types then Types[n] else n
  }

  /**
   * Primitives, the polymorphic type and names found in the table are looked
   * up in it; any other name is passed through unchanged.
   */
  lemma TranslateUsesTable(t: TypeDesc)
    ensures t.Prim? ==> Translate(t) == Types[SourceName(t.kind)]
    ensures t.Polymorphic? ==> Translate(t) == Types["Polymorphic"]
    ensures t.Named? && t.name !in Types ==> Translate(t) == t.name
    ensures t.Named? && t.name in Types ==> Translate(t) == Types[t.name]
  {
  }

  /** The entries set here are exactly the seven primitives and the polymorphic marker. */
  lemma TypesDomain(n: string)
    ensures n in Types <==> n == "Polymorphic" || exists p :: SourceName(p) == n
  {
    if n in Types && n != "Polymorphic" {
      var p :| p in [Float, Byte, Short, Int, Long, Boolean, Str] && SourceName(p) == n;
    }
  }

  /** A primitive spelled by name translates the same as its typed form. */
  lemma NamedPrimitive(p: Primitive)
    ensures Translate(Named(SourceName(p))) == Translate(Prim(p))
  {
  }

  /** A 2-D array is translated as an array of arrays. */
  lemma Array2IsNestedArray(e: TypeDesc)
    ensures Translate(Array2(e)) == Translate(Array(Array(e)))
  {
  }

  /** The declared key type of a map never reaches the output. */
  lemma MapKeyIgnored(k1: TypeDesc, k2: TypeDesc, v: TypeDesc)
    ensures Translate(MapOf(k1, v)) == Translate(MapOf(k2, v))
    ensures Translate(MapOf(k1, v)) == MakeMap("String", Translate(v))
  {
  }

  /** Distinct primitives get distinct Thrift types. */
  lemma PrimitiveTranslationInjective(p: Primitive, q: Primitive)
    requires Translate(Prim(p)) == Translate(Prim(q))
    ensures p == q
  {
  }
}
