/** Searching and sorting the values of an array with a comparison callback. */
module ArraySort {
  import opened ArrayDeque
  import opened Bits
  import opened Order
  import opened Prelude

  /** In the range the values less than `value` come before the others, and its first value is
      not less than `value` if `value` is less than it. */
  ghost predicate Parted(compare: (Word, Word) -> int, s: seq<Word>, lo: nat, hi: nat, value: Word)
    requires hi <= |s|
  {
    && (forall i, j :: lo <= i < j < hi && compare(s[j], value) < 0 ==> compare(s[i], value) < 0)
    && (lo < hi && compare(value, s[lo]) < 0 ==> compare(s[lo], value) >= 0)
  }

  /** A sorted range is parted by every value. */
  lemma SortedParted(compare: (Word, Word) -> int, s: seq<Word>, lo: nat, hi: nat, value: Word)
    requires lo <= hi <= |s| && TotalPreorder(compare) && Sorted(compare, s[lo..hi])
    ensures Parted(compare, s, lo, hi, value)
  {
    forall i, j | lo <= i < j < hi && compare(s[j], value) < 0
      ensures compare(s[i], value) < 0
    {
      assert compare(s[lo..hi][j - lo], s[lo..hi][i - lo]) >= 0;
    }
  }

  /** All places looked at are in the range. */
  ghost predicate Inside(probes: seq<int>, location: nat, length: nat) {
    forall p :: p in probes ==> location <= p < location + length
  }

  /** The binary search: the least index in the range whose value is not less than `value`, or
      the end of the range. The start is the largest power of two in the length, in one of two
      overlapping halves. Every place looked at is in the range, and there are no more of them than
      the length has bits, and two. */
  method BSearchValues(deque: Deque, location: nat, length: nat, value: Word, compare: (Word, Word) -> int)
      returns (idx: nat, ghost probes: seq<int>)
    requires deque.Valid() && location + length <= deque.count && length < 0x8000_0000
    requires Parted(compare, deque.Contents(), location, location + length, value)
    ensures location <= idx <= location + length
    ensures forall i :: location <= i < idx ==> compare(deque.Contents()[i], value) < 0
    ensures forall i :: idx <= i < location + length ==> compare(deque.Contents()[i], value) >= 0
    ensures Inside(probes, location, length) && (length > 0 ==> |probes| <= HighestBit(length) + 2)
  {
    hide Deque.Contents, HighestBit;
    probes := [];
    if length == 0 {
      return location, probes;
    }
    probes := [location + length - 1];
    var item := deque.GetValueAtIndex(location + length - 1);
    if compare(item, value) < 0 {
      return location + length, probes;
    }
    probes := probes + [location];
    item := deque.GetValueAtIndex(location);
    if compare(value, item) < 0 {
      return location, probes;
    }
    var probe;
    ghost var more;
    probe, more := Probe(deque, location, length, value, compare);
    probes := probes + more;
    idx := probe + 1 + location;
  }

  /** The largest power of two in the length, in the first half or the last; the two overlap. */
  method StartProbe(deque: Deque, location: nat, length: nat, value: Word, compare: (Word, Word) -> int)
      returns (lg: nat, probe: int, ghost probes: seq<int>)
    requires deque.Valid() && location + length <= deque.count && 0 < length < 0x8000_0000
    requires Parted(compare, deque.Contents(), location, location + length, value)
    ensures -1 <= probe && probe + Pow2(lg) <= length && lg + 1 == HighestBit(length)
    ensures 0 <= probe ==> compare(deque.Contents()[location + probe], value) < 0
    ensures probe + Pow2(lg) < length ==> compare(deque.Contents()[location + probe + Pow2(lg)], value) >= 0
    ensures Inside(probes, location, length) && |probes| == 1
  {
    hide Deque.Contents, Pow2, HighestBit;
    lg := HighestBit(length) - 1;
    Pow2Step(lg + 1);
    probes := [location - 1 + Pow2(lg)];
    var item := deque.GetValueAtIndex(location - 1 + Pow2(lg));
    probe := if compare(item, value) < 0 then length - Pow2(lg) else -1;
  }

  /** The probes: they stay in the range, and end between a value that is less, or the start, and
      one that is not. */
  method Probe(deque: Deque, location: nat, length: nat, value: Word, compare: (Word, Word) -> int)
      returns (probe: int, ghost probes: seq<int>)
    requires deque.Valid() && location + length <= deque.count && 0 < length < 0x8000_0000
    requires Parted(compare, deque.Contents(), location, location + length, value)
    requires compare(deque.Contents()[location + length - 1], value) >= 0
    ensures -1 <= probe < length - 1
    ensures 0 <= probe ==> compare(deque.Contents()[location + probe], value) < 0
    ensures compare(deque.Contents()[location + probe + 1], value) >= 0
    ensures Inside(probes, location, length) && |probes| == HighestBit(length)
  {
    hide Deque.Contents, Pow2, HighestBit, Parted;
    var lg;
    lg, probe, probes := StartProbe(deque, location, length, value, compare);
    while lg != 0
      invariant -1 <= probe && probe + Pow2(lg) <= length
      invariant 0 <= probe ==> compare(deque.Contents()[location + probe], value) < 0
      invariant probe + Pow2(lg) < length ==> compare(deque.Contents()[location + probe + Pow2(lg)], value) >= 0
      invariant Inside(probes, location, length) && |probes| + lg == HighestBit(length)
    {
      Pow2Step(lg);
      lg := lg - 1;
      probes := probes + [location + probe + Pow2(lg)];
      var item := deque.GetValueAtIndex(location + probe + Pow2(lg));
      if compare(item, value) < 0 {
        probe := probe + Pow2(lg);
      }
    }
    Pow2Zero();
  }

  /** The end of a range is sorted, and nothing before it is greater. */
  ghost predicate SortedFrom(compare: (Word, Word) -> int, s: seq<Word>, lo: nat, mid: nat, hi: nat)
    requires hi <= |s|
  {
    forall i, j :: lo <= i < j < hi && mid <= j ==> compare(s[j], s[i]) >= 0
  }

  /** The value at `at` is the greatest so far. */
  ghost predicate Greatest(compare: (Word, Word) -> int, s: seq<Word>, lo: nat, at: nat)
    requires at < |s|
  {
    forall i :: lo <= i < at ==> compare(s[at], s[i]) >= 0
  }

  /** The same values outside the range, the same values in it, and every class in its order. */
  ghost predicate Rearranged(compare: (Word, Word) -> int, s: seq<Word>, t: seq<Word>, lo: nat, hi: nat)
    requires lo <= hi <= |s|
  {
    && |t| == |s| && t[..lo] == s[..lo] && t[hi..] == s[hi..]
    && multiset(t) == multiset(s)
    && forall v :: Class(compare, t, v) == Class(compare, s, v)
  }

  function Exchanged(s: seq<Word>, i: nat): (t: seq<Word>)
    requires i + 1 < |s|
    ensures |t| == |s|
  {
    s[i := s[i + 1]][i + 1 := s[i]]
  }

  lemma ExchangeRearranges(compare: (Word, Word) -> int, s: seq<Word>, t: seq<Word>, lo: nat, hi: nat, i: nat)
    requires TotalPreorder(compare) && lo <= hi <= |s| && Rearranged(compare, s, t, lo, hi)
    requires lo <= i && i + 1 < hi && compare(t[i + 1], t[i]) < 0
    ensures Rearranged(compare, s, Exchanged(t, i), lo, hi)
  {
    var u := Exchanged(t, i);
    forall v
      ensures Class(compare, u, v) == Class(compare, s, v)
    {
      ExchangeKeepsClass(compare, t, i, v);
    }
    assert u[..lo] == t[..lo];
    assert u[hi..] == t[hi..];
  }

  lemma ExchangeKeepsEnd(compare: (Word, Word) -> int, s: seq<Word>, lo: nat, mid: nat, hi: nat, i: nat)
    requires TotalPreorder(compare) && lo <= i && i + 1 < mid <= hi <= |s|
    requires SortedFrom(compare, s, lo, mid, hi) && Greatest(compare, s, lo, i) && compare(s[i + 1], s[i]) < 0
    ensures SortedFrom(compare, Exchanged(s, i), lo, mid, hi) && Greatest(compare, Exchanged(s, i), lo, i + 1)
  {
  }

  lemma GreatestGoesOn(compare: (Word, Word) -> int, s: seq<Word>, lo: nat, i: nat)
    requires TotalPreorder(compare) && i + 1 < |s| && Greatest(compare, s, lo, i) && compare(s[i + 1], s[i]) >= 0
    ensures Greatest(compare, s, lo, i + 1)
  {
    forall j | lo <= j < i + 1
      ensures compare(s[i + 1], s[j]) >= 0
    {
      assert j < i ==> compare(s[i], s[j]) >= 0;
    }
  }

  /** One pass: the greatest of the first `cnt` values of the range goes to their end. */
  method Pass(deque: Deque, lo: nat, hi: nat, cnt: nat, compare: (Word, Word) -> int)
    requires deque.Valid() && lo + cnt <= hi <= deque.count && TotalPreorder(compare) && 1 < cnt
    requires SortedFrom(compare, deque.Contents(), lo, lo + cnt, hi)
    modifies deque.store
    ensures deque.Valid()
    ensures SortedFrom(compare, deque.Contents(), lo, lo + cnt - 1, hi)
    ensures Rearranged(compare, old(deque.Contents()), deque.Contents(), lo, hi)
  {
    hide Deque.Contents, SortedFrom, Greatest, Rearranged, TotalPreorder;
    ghost var s := deque.Contents();
    RearrangedAtFirst(compare, s, lo, hi);
    GreatestAtFirst(compare, s, lo);
    for idx := lo to lo + cnt - 1
      invariant deque.Valid()
      invariant SortedFrom(compare, deque.Contents(), lo, lo + cnt, hi)
      invariant Greatest(compare, deque.Contents(), lo, idx)
      invariant Rearranged(compare, s, deque.Contents(), lo, hi)
    {
      var a := deque.GetValueAtIndex(idx);
      var b := deque.GetValueAtIndex(idx + 1);
      if compare(b, a) < 0 {
        ExchangeRearranges(compare, s, deque.Contents(), lo, hi, idx);
        ExchangeKeepsEnd(compare, deque.Contents(), lo, lo + cnt, hi, idx);
        deque.ExchangeValuesAtIndices(idx, idx + 1);
      } else {
        GreatestGoesOn(compare, deque.Contents(), lo, idx);
      }
    }
    EndGrows(compare, deque.Contents(), lo, lo + cnt, hi);
  }

  lemma RearrangedAtFirst(compare: (Word, Word) -> int, s: seq<Word>, lo: nat, hi: nat)
    requires lo <= hi <= |s|
    ensures Rearranged(compare, s, s, lo, hi)
  {
  }

  lemma GreatestAtFirst(compare: (Word, Word) -> int, s: seq<Word>, lo: nat)
    requires lo < |s|
    ensures Greatest(compare, s, lo, lo)
  {
  }

  lemma EndGrows(compare: (Word, Word) -> int, s: seq<Word>, lo: nat, mid: nat, hi: nat)
    requires 0 < mid <= hi <= |s| && SortedFrom(compare, s, lo, mid, hi) && Greatest(compare, s, lo, mid - 1)
    ensures SortedFrom(compare, s, lo, mid - 1, hi)
  {
  }

  lemma RearrangedTwice(compare: (Word, Word) -> int, s: seq<Word>, t: seq<Word>, u: seq<Word>, lo: nat, hi: nat)
    requires lo <= hi <= |s| && Rearranged(compare, s, t, lo, hi) && Rearranged(compare, t, u, lo, hi)
    ensures Rearranged(compare, s, u, lo, hi)
  {
  }

  lemma SortedAtLast(compare: (Word, Word) -> int, s: seq<Word>, lo: nat, mid: nat, hi: nat)
    requires lo <= hi <= |s| && mid <= lo + 1 && SortedFrom(compare, s, lo, mid, hi)
    ensures Sorted(compare, s[lo..hi])
  {
  }

  /** The sort used when values cannot be copied out: neighbours are exchanged in passes, each
      one shorter. The range is sorted, and values that are equivalent keep their order. */
  method ZSort(deque: Deque, location: nat, length: nat, compare: (Word, Word) -> int)
    requires deque.Valid() && location + length <= deque.count && TotalPreorder(compare)
    modifies deque.store
    ensures deque.Valid()
    ensures Sorted(compare, deque.Contents()[location..location + length])
    ensures Rearranged(compare, old(deque.Contents()), deque.Contents(), location, location + length)
  {
    hide Deque.Contents, Sorted, SortedFrom, Rearranged, TotalPreorder;
    ghost var s := deque.Contents();
    var hi := location + length;
    RearrangedAtFirst(compare, s, location, hi);
    NoEndYet(compare, s, location, hi);
    var cnt: nat := length;
    while 1 < cnt
      invariant cnt <= length && deque.Valid()
      invariant SortedFrom(compare, deque.Contents(), location, location + cnt, hi)
      invariant Rearranged(compare, s, deque.Contents(), location, hi)
    {
      ghost var t := deque.Contents();
      Pass(deque, location, hi, cnt, compare);
      RearrangedTwice(compare, s, t, deque.Contents(), location, hi);
      cnt := cnt - 1;
    }
    SortedAtLast(compare, deque.Contents(), location, location + cnt, hi);
  }

  lemma NoEndYet(compare: (Word, Word) -> int, s: seq<Word>, lo: nat, hi: nat)
    requires hi <= |s|
    ensures SortedFrom(compare, s, lo, hi, hi)
  {
  }
}
