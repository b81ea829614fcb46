/**
 * The insertion-ordered map that collects declarations: its keys in order of
 * first insertion, and the entry stored under each key.
 */
module OrderedDicts {
  import opened Schemas

  datatype Ordered = Ordered(keys: seq<string>, entries: map<string, Entry>)

  /** No key occurs twice: stated one key at a time, from the last. */
  ghost predicate Distinct(s: seq<string>) {
    |s| == 0 || (s[|s| - 1] !in s[..|s| - 1] && Distinct(s[..|s| - 1]))
  }

  /** `Distinct` is the usual pairwise statement. */
  lemma {:induction false} DistinctPairwise(s: seq<string>)
    ensures Distinct(s) <==> forall i, j :: 0 <= i < j < |s| ==> s[i] != s[j]
  {
    if |s| > 0 {
      var t := s[..|s| - 1];
      DistinctPairwise(t);
      assert forall i :: 0 <= i < |t| ==> t[i] == s[i];
      if Distinct(s) {
        forall i, j | 0 <= i < j < |s|
          ensures s[i] != s[j]
        {
          if j == |s| - 1 {
            assert s[i] == t[i];
          }
        }
      }
      if forall i, j :: 0 <= i < j < |s| ==> s[i] != s[j] {
        assert s[|s| - 1] !in t by {
          forall i | 0 <= i < |t|
            ensures t[i] != s[|s| - 1]
          {
            assert s[i] != s[|s| - 1];
          }
        }
      }
    }
  }

  /** Each key is listed once, and the listed keys are exactly the map's keys. */
  ghost predicate WellFormed(d: Ordered) {
    Distinct(d.keys) && forall k :: k in d.entries <==> k in d.keys
  }

  /** `d` grows into `e`: old keys keep their positions and new ones follow. */
  ghost predicate Extends(d: Ordered, e: Ordered) {
    d.keys <= e.keys && d.entries.Keys <= e.entries.Keys
  }

  lemma ExtendsTransitive(a: Ordered, b: Ordered, c: Ordered)
    requires Extends(a, b) && Extends(b, c)
    ensures Extends(a, c)
  {
  }

  function Empty(): (r: Ordered)
    ensures WellFormed(r) && r.keys == [] && r.entries == map[]
  {
    Ordered([], map[])
  }

  /**
   * `d[k] = e`: a new key is appended, a key already present keeps its
   * position and gets the new entry; no other key moves or changes.
   */
  function WithItem(d: Ordered, k: string, e: Entry): (r: Ordered)
    requires WellFormed(d)
    ensures WellFormed(r) && Extends(d, r)
    ensures k in r.entries && r.entries[k] == e
    ensures r.entries.Keys == d.entries.Keys + {k}
    ensures k in d.entries ==> r.keys == d.keys
    ensures k !in d.entries ==> r.keys == d.keys + [k]
    ensures forall k' :: k' in d.entries && k' != k ==> r.entries[k'] == d.entries[k']
  {
    if k in d.entries then Ordered(d.keys, d.entries[k := e])
    else
      AppendDistinct(d.keys, k);
      Ordered(d.keys + [k], d.entries[k := e])
  }

  /** Appending a key not yet listed keeps the keys distinct. */
  lemma AppendDistinct(s: seq<string>, k: string)
    requires Distinct(s) && k !in s
    ensures Distinct(s + [k]) && s <= s + [k]
  {
    assert (s + [k])[..|s|] == s;
  }

  /** The mutable ordered map that the dependency collector fills in place. */
  class OrderedSchemas {
    var keys: seq<string>
    var entries: map<string, Entry>

    function Value(): Ordered
      reads this
    {
      Ordered(keys, entries)
    }

    ghost predicate Valid()
      reads this
    {
      WellFormed(Value())
    }

    constructor ()
      ensures Valid() && Value() == Empty()
    {
      keys := [];
      entries := map[];
    }

    /** `k in ordered_schemas` */
    predicate Contains(k: string)
      reads this
    {
      k in entries
    }

    /** `ordered_schemas[k] = e` */
    method SetItem(k: string, e: Entry)
      requires Valid()
      modifies this
      ensures Valid() && Value() == WithItem(old(Value()), k, e)
    {
      if k !in entries {
        keys := keys + [k];
      }
      entries := entries[k := e];
    }
  }
}
