/** Searching in sequences, as Python's split and `in` and C's strings and strstr do. */
module Sequences {
  /** The part of s before its first z. */
  function Until<T(==)>(s: seq<T>, z: T): (r: seq<T>)
    ensures r <= s && z !in r
    ensures |r| < |s| ==> s[|r|] == z
  {
    if s == [] || s[0] == z then [] else [s[0]] + Until(s[1..], z)
  }

  /** needle in hay */
  predicate Contains<T(==)>(hay: seq<T>, needle: seq<T>) {
    needle <= hay || (hay != [] && Contains(hay[1..], needle))
  }

  lemma {:induction false} UntilUnique<T>(s: seq<T>, z: T, r: seq<T>)
    requires r <= s && z !in r && (|r| < |s| ==> s[|r|] == z)
    ensures Until(s, z) == r
  {
    if r != [] {
      assert s[0] == r[0];
      UntilUnique(s[1..], z, r[1..]);
      assert r == [r[0]] + r[1..];
    }
  }

  /** b written over d at off */
  function Splice<T>(d: seq<T>, off: nat, b: seq<T>): (r: seq<T>)
    requires off + |b| <= |d|
    ensures |r| == |d|
    ensures forall i :: 0 <= i < |d| ==> r[i] == if off <= i < off + |b| then b[i - off] else d[i]
  {
    d[..off] + b + d[off + |b|..]
  }

  predicate OccursAt<T(==)>(hay: seq<T>, needle: seq<T>, i: nat) {
    i + |needle| <= |hay| && hay[i..i + |needle|] == needle
  }

  lemma OccursLater<T>(hay: seq<T>, needle: seq<T>, i: nat)
    requires hay != []
    ensures OccursAt(hay[1..], needle, i) <==> OccursAt(hay, needle, i + 1)
  {
    if i + |needle| <= |hay| - 1 {
      assert hay[1..][i..i + |needle|] == hay[i + 1..i + 1 + |needle|];
    }
  }

  lemma {:induction false} ContainsOccurs<T>(hay: seq<T>, needle: seq<T>) returns (i: nat)
    requires Contains(hay, needle)
    ensures OccursAt(hay, needle, i)
  {
    if needle <= hay {
      i := 0;
    } else {
      var j := ContainsOccurs(hay[1..], needle);
      OccursLater(hay, needle, j);
      i := j + 1;
    }
  }

  lemma {:induction false} OccursContained<T>(hay: seq<T>, needle: seq<T>, i: nat)
    requires OccursAt(hay, needle, i)
    ensures Contains(hay, needle)
  {
    if i > 0 && hay != [] {
      OccursLater(hay, needle, i - 1);
      OccursContained(hay[1..], needle, i - 1);
    }
  }

  /** Contains is what its name says. */
  lemma ContainsExactly<T>(hay: seq<T>, needle: seq<T>)
    ensures Contains(hay, needle) <==> exists i: nat :: OccursAt(hay, needle, i)
  {
    hide Contains, OccursAt;
    if Contains(hay, needle) {
      var i := ContainsOccurs(hay, needle);
    }
    forall i: nat | OccursAt(hay, needle, i)
      ensures Contains(hay, needle)
    {
      OccursContained(hay, needle, i);
    }
  }
}
