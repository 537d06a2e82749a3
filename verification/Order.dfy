/** Orders given by a comparison callback, and what sorting and searching by them mean. */
module Order {
  /** A comparison callback is consistent: nothing is less than something less than it, and not
      being less is transitive. Different values may be equivalent. */
  ghost predicate TotalPreorder<T(!new)>(compare: (T, T) -> int) {
    && (forall a, b :: compare(a, b) < 0 ==> compare(b, a) >= 0)
    && (forall a, b, c :: compare(a, b) >= 0 && compare(b, c) >= 0 ==> compare(a, c) >= 0)
  }

  ghost predicate Sorted<T>(compare: (T, T) -> int, s: seq<T>) {
    forall i, j :: 0 <= i < j < |s| ==> compare(s[j], s[i]) >= 0
  }

  predicate Equivalent<T>(compare: (T, T) -> int, a: T, b: T) {
    compare(a, b) >= 0 && compare(b, a) >= 0
  }

  /** The values of `s` equivalent to `v`, in order. */
  function Class<T>(compare: (T, T) -> int, s: seq<T>, v: T): seq<T> {
    if s == [] then []
    else Class(compare, s[..|s| - 1], v) + (if Equivalent(compare, s[|s| - 1], v) then [s[|s| - 1]] else [])
  }

  lemma {:induction false} ClassOfConcat<T>(compare: (T, T) -> int, a: seq<T>, b: seq<T>, v: T)
    ensures Class(compare, a + b, v) == Class(compare, a, v) + Class(compare, b, v)
  {
    if b == [] {
      assert a + b == a;
    } else {
      ClassOfConcat(compare, a, b[..|b| - 1], v);
      assert (a + b)[..|a + b| - 1] == a + b[..|b| - 1];
    }
  }

  /** Exchanging neighbours of which the right is less keeps every class in order. */
  lemma ExchangeKeepsClass<T(!new)>(compare: (T, T) -> int, s: seq<T>, i: nat, v: T)
    requires TotalPreorder(compare) && i + 1 < |s| && compare(s[i + 1], s[i]) < 0
    ensures Class(compare, s[i := s[i + 1]][i + 1 := s[i]], v) == Class(compare, s, v)
  {
    hide Class;
    var t := s[i := s[i + 1]][i + 1 := s[i]];
    var x, y := s[i], s[i + 1];
    ClassOfConcat(compare, s[..i], [x, y], v);
    ClassOfConcat(compare, s[..i] + [x, y], s[i + 2..], v);
    ClassOfConcat(compare, s[..i], [y, x], v);
    ClassOfConcat(compare, s[..i] + [y, x], s[i + 2..], v);
    assert s == s[..i] + [x, y] + s[i + 2..];
    assert t == s[..i] + [y, x] + s[i + 2..];
    ClassOfPair(compare, x, y, v);
    ClassOfPair(compare, y, x, v);
    assert !(Equivalent(compare, x, v) && Equivalent(compare, y, v));
  }

  lemma ClassOfPair<T>(compare: (T, T) -> int, x: T, y: T, v: T)
    ensures Class(compare, [x, y], v) == Class(compare, [x], v) + Class(compare, [y], v)
    ensures Class(compare, [x], v) == if Equivalent(compare, x, v) then [x] else []
    ensures Class(compare, [y], v) == if Equivalent(compare, y, v) then [y] else []
  {
    assert [x, y][..1] == [x];
    assert [x][..0] == [] && [y][..0] == [];
  }

  /** A class is what is left of a sequence without the values that are less or greater. */
  lemma ClassMeans<T>(compare: (T, T) -> int, a: seq<T>, x: T, b: seq<T>, v: T)
    ensures Class(compare, [], v) == []
    ensures compare(x, v) >= 0 && compare(v, x) >= 0 ==>
      Class(compare, a + [x] + b, v) == Class(compare, a, v) + [x] + Class(compare, b, v)
    ensures compare(x, v) < 0 || compare(v, x) < 0 ==> Class(compare, a + [x] + b, v) == Class(compare, a + b, v)
  {
    hide Class;
    ClassOfConcat(compare, a + [x], b, v);
    ClassOfConcat(compare, a, [x], v);
    ClassOfConcat(compare, a, b, v);
    ClassOfPair(compare, x, x, v);
    NoClass(compare, v);
  }

  lemma NoClass<T>(compare: (T, T) -> int, v: T)
    ensures Class(compare, [], v) == []
  {
  }
}
