/**
 * The line generators: the Thrift document, one enum block, one struct block.
 * `wrap` stands for the help-text word-wrapper of the bindings library, which
 * is not part of this model; it turns a help text into one comment string.
 */
module Emitter {
  import opened Schemas
  import opened TypeTable
  import opened OrderedDicts
  import opened Decimal
  import opened Sequences

  /** Names Thrift does not accept as field names. */
  const ReservedWords: set<string> := {"from", "type", "exception", "lambda", "required"}

  /** The bookkeeping field every schema carries, which is not emitted. */
  const MetaField: string := "__meta"

  /** The eight members of the fixed union, in tag order 1 to 8. */
  const UnionMembers: seq<string> := ["bool", "byte", "i16", "i32", "i64", "double", "binary", "string"]

  /** A field name Thrift accepts: reserved words get a trailing underscore, other names stay. */
  function SafeName(name: string): (r: string)
    ensures r !in ReservedWords
    ensures r == name || r == name + "_"
    ensures r == name <==> name !in ReservedWords
  {
    if name in ReservedWords then
      assert (name + "_")[|name|] == '_';
      name + "_"
    else
      name
  }

  // ---------------------------------------------------------------- enums

  function EnumLine(value: string, tag: nat): string {
    "  " + value + " = " + NatToString(tag) + ","
  }

  /** One line per value, numbered from `tag` on. */
  function EnumValueLines(values: seq<string>, tag: nat): (r: seq<string>)
    ensures |r| == |values|
    ensures forall i :: 0 <= i < |values| ==> r[i] == EnumLine(values[i], tag + i)
    decreases |values|
  {
    if values == [] then [] else [EnumLine(values[0], tag)] + EnumValueLines(values[1..], tag + 1)
  }

  /** `generate_enum`: the header, each value with its 1-based tag in list order, the closing brace and a blank line. */
  function GenerateEnum(name: string, values: seq<string>): (r: seq<string>)
    ensures |r| == |values| + 3
    ensures r[0] == "enum " + name + " {"
    ensures forall i :: 0 <= i < |values| ==> r[i + 1] == EnumLine(values[i], i + 1)
    ensures r[|r| - 2] == "}" && r[|r| - 1] == ""
  {
    ["enum " + name + " {"] + EnumValueLines(values, 1) + ["}", ""]
  }

  // ---------------------------------------------------------------- structs

  function FieldLine(f: Field, tag: nat): string {
    "  " + NatToString(tag) + ": " + (if f.required then "required" else "optional") + " "
      + Translate(f.desc) + " " + SafeName(f.name) + ","
  }

  /** The lines of the field at position `tag`: none for the meta field. */
  function FieldBlock(f: Field, tag: nat, wrap: string -> string): seq<string> {
    if f.name == MetaField then [] else [wrap(f.help), FieldLine(f, tag), ""]
  }

  /** How many of `fields[i..j]` are emitted (all but the meta field). */
  function Shown(fields: seq<Field>, i: nat, j: nat): nat
    requires i <= j <= |fields|
    decreases j - i
  {
    if i == j then 0 else (if fields[i].name == MetaField then 0 else 1) + Shown(fields, i + 1, j)
  }

  /** The loop over `fields[i..]`, each field numbered by its position among all fields. */
  function FieldLines(fields: seq<Field>, i: nat, wrap: string -> string): (r: seq<string>)
    requires i <= |fields|
    ensures |r| == 3 * Shown(fields, i, |fields|)
    decreases |fields| - i
  {
    if i == |fields| then [] else FieldBlock(fields[i], i, wrap) + FieldLines(fields, i + 1, wrap)
  }

  /** Dropping the lines of the fields before `j` leaves the lines of `fields[j..]`. */
  lemma {:induction false} FieldLinesDrop(fields: seq<Field>, i: nat, j: nat, wrap: string -> string)
    requires i <= j <= |fields|
    ensures var r, p := FieldLines(fields, i, wrap), 3 * Shown(fields, i, j);
            p <= |r| && r[p..] == FieldLines(fields, j, wrap)
    decreases j - i
  {
    if i < j {
      FieldLinesDrop(fields, i + 1, j, wrap);
      var head, rest := FieldBlock(fields[i], i, wrap), FieldLines(fields, i + 1, wrap);
      assert FieldLines(fields, i, wrap) == head + rest;
      assert 3 * Shown(fields, i, j) == |head| + 3 * Shown(fields, i + 1, j);
      DropAfter(FieldLines(fields, i, wrap), head, rest, 3 * Shown(fields, i + 1, j));
    }
  }

  /** The field at position `j` is emitted as the help comment, its line tagged `j`, and a blank line. */
  lemma FieldLinesAt(fields: seq<Field>, i: nat, j: nat, wrap: string -> string)
    requires i <= j < |fields| && fields[j].name != MetaField
    ensures var r, p := FieldLines(fields, i, wrap), 3 * Shown(fields, i, j);
            p + 3 <= |r| && r[p..p + 3] == [wrap(fields[j].help), FieldLine(fields[j], j), ""]
  {
    FieldLinesDrop(fields, i, j, wrap);
    var r, p, t := FieldLines(fields, i, wrap), 3 * Shown(fields, i, j), FieldLines(fields, j, wrap);
    var run := [wrap(fields[j].help), FieldLine(fields[j], j), ""];
    assert t == run + FieldLines(fields, j + 1, wrap);
    assert r[p..p + 3] == t[..3] == run;
  }

  /** `generate_struct`: header, blank line, the blocks of the emitted fields, closing brace, blank line. */
  function GenerateStruct(name: string, schema: Schema, wrap: string -> string): (r: seq<string>)
    ensures |r| == 4 + 3 * Shown(schema.fields, 0, |schema.fields|)
    ensures r[0] == "struct " + name + " {" && r[1] == ""
    ensures r[|r| - 2] == "}" && r[|r| - 1] == ""
  {
    ["struct " + name + " {", ""] + FieldLines(schema.fields, 0, wrap) + ["}", ""]
  }

  /**
   * Every field but the meta field is emitted, in order, and its tag is its
   * index among ALL the fields: a meta field before it still uses up a number.
   */
  lemma StructFieldTag(name: string, schema: Schema, wrap: string -> string, j: nat)
    requires j < |schema.fields| && schema.fields[j].name != MetaField
    ensures var r, p := GenerateStruct(name, schema, wrap), 2 + 3 * Shown(schema.fields, 0, j);
            p + 3 <= |r| && r[p..p + 3] == [wrap(schema.fields[j].help), FieldLine(schema.fields[j], j), ""]
  {
    var q := 3 * Shown(schema.fields, 0, j);
    FieldLinesAt(schema.fields, 0, j, wrap);
    StructSlice(name, schema, wrap, q, 3);
  }

  /** Between the two opening and the two closing lines, a struct block is exactly the field lines. */
  lemma StructSlice(name: string, schema: Schema, wrap: string -> string, q: nat, n: nat)
    requires q + n <= |FieldLines(schema.fields, 0, wrap)|
    ensures 2 + q + n <= |GenerateStruct(name, schema, wrap)|
    ensures GenerateStruct(name, schema, wrap)[2 + q..2 + q + n] == FieldLines(schema.fields, 0, wrap)[q..q + n]
  {
    var body := FieldLines(schema.fields, 0, wrap);
    SliceAfter(GenerateStruct(name, schema, wrap), ["struct " + name + " {", ""], body, ["}", ""], q, 2 + q, n, body[q..q + n]);
  }

  // ---------------------------------------------------------------- the document

  function Dashes(n: nat): (r: string)
    ensures |r| == n && forall i :: 0 <= i < n ==> r[i] == '-'
  {
    if n == 0 then [] else Dashes(n - 1) + "-"
  }

  /** The comment rule that frames the header: a hash and 79 dashes. */
  function Rule(): string {
    "#" + Dashes(79)
  }

  /**
   * The fixed header comment and namespace declaration. Long lines are written
   * as concatenations of shorter literals, which keeps the verifier's work on
   * each literal small.
   */
  function Header(): (r: seq<string>)
    ensures |r| == 9
  {
    [ Rule(),
      "# Thrift bindings " + "for H2O Machine Learning.",
      "#",
      "# This file is " + "auto-generated by " + "h2o-3/h2o-bindings/" + "bin/gen_thrift.py",
      "# Copyright 2016 " + "H2O.ai;  Apache " + "License Version 2.0 " + "(see LICENSE " + "for details)",
      Rule(),
      "",
      "namespace * " + "water.bindings.structs",
      "" ]
  }

  function UnionLine(member: string, tag: nat): string {
    "  " + NatToString(tag) + ": " + member + " " + member + "_field"
  }

  /** One union field per member, tagged from `tag` on, each named after its type. */
  function UnionFieldLines(members: seq<string>, tag: nat): (r: seq<string>)
    ensures |r| == |members|
    ensures forall i :: 0 <= i < |members| ==> r[i] == UnionLine(members[i], tag + i)
    decreases |members|
  {
    if members == [] then [] else [UnionLine(members[0], tag)] + UnionFieldLines(members[1..], tag + 1)
  }

  /** The fixed union that carries a value of the polymorphic type: members tagged 1 to 8. */
  function PrimitiveUnion(): (r: seq<string>)
    ensures |r| == 11 && r[0] == "union PrimitiveUnion {" && r[9] == "}" && r[10] == ""
    ensures forall t :: 1 <= t <= 8 ==> r[t] == UnionLine(UnionMembers[t - 1], t)
  {
    ["union PrimitiveUnion {"] + UnionFieldLines(UnionMembers, 1) + ["}", ""]
  }

  /** The fixed 20 lines that open every document. */
  function Preamble(): (r: seq<string>)
    ensures |r| == 20
  {
    Header() + PrimitiveUnion()
  }

  /** The block of one ordered entry: an enum for a value list, a struct otherwise. */
  function Block(name: string, e: Entry, wrap: string -> string): (r: seq<string>)
    ensures |r| >= 3
    ensures e.EnumEntry? ==> r[0] == "enum " + name + " {"
    ensures e.StructEntry? ==> r[0] == "struct " + name + " {"
  {
    match e
    case EnumEntry(values) => GenerateEnum(name, values)
    case StructEntry(schema) => GenerateStruct(name, schema, wrap)
  }

  /** The block of a key, for keys of `entries`. */
  function BlockOf(entries: map<string, Entry>, wrap: string -> string): string -> seq<string>
  {
    k => if k in entries then Block(k, entries[k], wrap) else []
  }

  /** One block per key, in key order. */
  function BlockList(d: Ordered, wrap: string -> string): seq<seq<string>>
  {
    Map(BlockOf(d.entries, wrap), d.keys)
  }

  /** `generate_thrift`: the preamble, then one block per key in the map's order. */
  function GenerateThrift(d: Ordered, wrap: string -> string): seq<string>
  {
    Preamble() + Concat(BlockList(d, wrap), 0)
  }

  /**
   * Every document opens with the 20 preamble lines, whatever the
   * declarations, and the blocks follow them directly: nothing lies between,
   * and an empty dictionary gives the preamble alone.
   */
  lemma ThriftStartsWithPreamble(d: Ordered, wrap: string -> string)
    ensures |GenerateThrift(d, wrap)| == 20 + |Concat(BlockList(d, wrap), 0)|
    ensures GenerateThrift(d, wrap)[..20] == Preamble()
    ensures GenerateThrift(d, wrap)[20..] == Concat(BlockList(d, wrap), 0)
    ensures d.keys == [] ==> GenerateThrift(d, wrap) == Preamble()
  {
    PrefixOfConcat(Preamble(), Concat(BlockList(d, wrap), 0));
  }

  /** The document ends with the blocks from position `i` on: the preamble, then the blocks in order. */
  lemma ThriftSuffix(d: Ordered, wrap: string -> string, i: nat)
    requires i < |d.keys|
    ensures var doc, rest := GenerateThrift(d, wrap), Concat(BlockList(d, wrap), i);
            |rest| <= |doc| && doc[|doc| - |rest|..] == BlockList(d, wrap)[i] + Concat(BlockList(d, wrap), i + 1)
  {
    ConcatAfter(GenerateThrift(d, wrap), Preamble(), BlockList(d, wrap), i);
  }

  /**
   * The document ends with the blocks of the keys from position `i` on, and
   * the first of them is the block of the `i`-th key: the blocks follow the
   * preamble one per key, in the map's order.
   */
  lemma ThriftBlockAt(d: Ordered, wrap: string -> string, i: nat)
    requires WellFormed(d) && i < |d.keys|
    ensures var doc, rest := GenerateThrift(d, wrap), Concat(BlockList(d, wrap), i);
            |rest| <= |doc| &&
            doc[|doc| - |rest|..] == Block(d.keys[i], d.entries[d.keys[i]], wrap) + Concat(BlockList(d, wrap), i + 1)
  {
    ThriftSuffix(d, wrap, i);
    MapAt(BlockOf(d.entries, wrap), d.keys, i);
  }
}
