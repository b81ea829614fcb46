/**
 * Facts about sequences of lines that the generators rely on: where a part
 * of a concatenation sits in the whole.
 */
module Sequences {
  /** The parts from position `i` on, joined in order. */
  function Concat<T>(parts: seq<seq<T>>, i: nat): seq<T>
    requires i <= |parts|
    decreases |parts| - i
  {
    if i == |parts| then [] else parts[i] + Concat(parts, i + 1)
  }

  /** Joining from `i` ends with the join from `j`. */
  lemma {:induction false} ConcatDrop<T>(parts: seq<seq<T>>, i: nat, j: nat)
    requires i <= j <= |parts|
    ensures |Concat(parts, j)| <= |Concat(parts, i)|
    ensures Concat(parts, i)[|Concat(parts, i)| - |Concat(parts, j)|..] == Concat(parts, j)
    decreases j - i
  {
    var all, tail := Concat(parts, i), Concat(parts, j);
    if i < j {
      ConcatDrop(parts, i + 1, j);
      DropAfter(all, parts[i], Concat(parts, i + 1), |Concat(parts, i + 1)| - |tail|);
    } else {
      assert all[|all| - |tail|..] == all[0..];
    }
  }

  /** After a prefix, the join of all parts ends with part `i` followed by the parts after it. */
  lemma ConcatAfter<T>(doc: seq<T>, pre: seq<T>, parts: seq<seq<T>>, i: nat)
    requires i < |parts| && doc == pre + Concat(parts, 0)
    ensures |Concat(parts, i)| <= |doc|
    ensures doc[|doc| - |Concat(parts, i)|..] == parts[i] + Concat(parts, i + 1)
  {
    var all, rest := Concat(parts, 0), Concat(parts, i);
    ConcatDrop(parts, 0, i);
    DropAfter(doc, pre, all, |all| - |rest|);
  }

  lemma DropAfter<T>(s: seq<T>, head: seq<T>, rest: seq<T>, q: nat)
    requires s == head + rest && q <= |rest|
    ensures |head| + q <= |s| && s[|head| + q..] == rest[q..]
  {
  }

  lemma PrefixOfConcat<T>(x: seq<T>, y: seq<T>)
    ensures (x + y)[..|x|] == x
  {
  }

  /** A run of `n` elements of the middle part reappears in the whole, shifted by the length of the head. */
  lemma SliceAfter<T>(s: seq<T>, head: seq<T>, body: seq<T>, tail: seq<T>, q: nat, p: nat, n: nat, run: seq<T>)
    requires s == head + body + tail && p == |head| + q
    requires q + n <= |body| && body[q..q + n] == run
    ensures p + n <= |s| && s[p..p + n] == run
  {
    assert (head + body)[p..p + n] == body[q..q + n];
  }

  /** `f` applied to every element, in order. */
  function Map<A, B>(f: A -> B, xs: seq<A>): (r: seq<B>)
    ensures |r| == |xs|
    decreases |xs|
  {
    if xs == [] then [] else [f(xs[0])] + Map(f, xs[1..])
  }

  /** The element at position `i` of a mapped sequence is `f` of the element at `i`. */
  lemma {:induction false} MapAt<A, B>(f: A -> B, xs: seq<A>, i: nat)
    requires i < |xs|
    ensures Map(f, xs)[i] == f(xs[i])
    decreases i
  {
    if i > 0 {
      MapAt(f, xs[1..], i - 1);
      assert xs[1..][i - 1] == xs[i];
    }
  }
}
