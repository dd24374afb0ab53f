/** Three-way comparison of sequences, element by element, where a proper
    prefix sorts first. This is Go's ordering of strings and the ordering
    of pre-release identifier lists in section 11 of Semantic Versioning 2.0.0. */
module Lexicographic {

  /** cmp is a three-way comparison of a total order: its sign flips with
      its arguments, it is zero exactly on equal values, and it is transitive. */
  ghost predicate IsComparator<T(!new)>(cmp: (T, T) -> int)
  {
    && (forall x, y :: -1 <= cmp(x, y) <= 1)
    && (forall x, y :: cmp(x, y) == -cmp(y, x))
    && (forall x, y :: cmp(x, y) == 0 <==> x == y)
    && (forall x, y, z :: cmp(x, y) <= 0 && cmp(y, z) <= 0 ==> cmp(x, z) <= 0)
  }

  /** Characters compare by code point; on the ASCII text of version
      identifiers this is Go's byte-wise string order. */
  function CompareChar(x: char, y: char): int
  {
    if x < y then -1 else if x > y then 1 else 0
  }

  lemma CharComparator()
    ensures IsComparator(CompareChar)
  {
  }

  function Compare<T>(a: seq<T>, b: seq<T>, cmp: (T, T) -> int): (r: int)
    ensures -1 <= r <= 1
  {
    if |a| == 0 && |b| == 0 then 0
    else if |a| == 0 then -1
    else if |b| == 0 then 1
    else if cmp(a[0], b[0]) > 0 then 1
    else if cmp(a[0], b[0]) < 0 then -1
    else Compare(a[1..], b[1..], cmp)
  }

  lemma {:induction false} CompareAntisymmetric<T(!new)>(a: seq<T>, b: seq<T>, cmp: (T, T) -> int)
    requires IsComparator(cmp)
    ensures Compare(a, b, cmp) == -Compare(b, a, cmp)
  {
    if |a| > 0 && |b| > 0 && cmp(a[0], b[0]) == 0 {
      CompareAntisymmetric(a[1..], b[1..], cmp);
    }
  }

  lemma {:induction false} CompareZero<T(!new)>(a: seq<T>, b: seq<T>, cmp: (T, T) -> int)
    requires IsComparator(cmp)
    ensures Compare(a, b, cmp) == 0 <==> a == b
  {
    if |a| > 0 && |b| > 0 && cmp(a[0], b[0]) == 0 {
      CompareZero(a[1..], b[1..], cmp);
      assert a == [a[0]] + a[1..];
      assert b == [b[0]] + b[1..];
    }
  }

  lemma {:induction false} CompareTransitive<T(!new)>(a: seq<T>, b: seq<T>, c: seq<T>, cmp: (T, T) -> int)
    requires IsComparator(cmp)
    requires Compare(a, b, cmp) <= 0 && Compare(b, c, cmp) <= 0
    ensures Compare(a, c, cmp) <= 0
  {
    if |a| > 0 && |b| > 0 && |c| > 0 {
      assert cmp(a[0], b[0]) <= 0 && cmp(b[0], c[0]) <= 0;
      if cmp(a[0], c[0]) == 0 {
        assert cmp(a[0], b[0]) == 0;
        CompareTransitive(a[1..], b[1..], c[1..], cmp);
      }
    }
  }
}
