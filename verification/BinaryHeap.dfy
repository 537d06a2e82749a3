/** A binary heap in an array: values sift up when added and down when the least is removed. */
module BinaryHeap {
  import opened Bits
  import opened Prelude

  /** How values compare: as pointers, or by a callback whose result 1 means greater. */
  datatype Ordering = Pointers | Callback(compare: (Word, Word) -> int) {
    predicate Greater(a: Word, b: Word) {
      match this
      case Pointers => a > b
      case Callback(compare) => compare(a, b) == 1
    }

    /** Nothing is greater than something greater, and not being greater is transitive. */
    ghost predicate Total() {
      && (forall a, b :: Greater(a, b) ==> !Greater(b, a))
      && (forall a, b, c :: !Greater(a, b) && !Greater(b, c) ==> !Greater(a, c))
    }
  }

  lemma PointersTotal()
    ensures Pointers.Total()
  {
  }

  /** What it takes of a callback: a 1 is never answered by a 1, and what is not answered by a 1 is
      transitive. */
  lemma CallbackTotal(compare: (Word, Word) -> int)
    ensures Callback(compare).Total() <==>
      && (forall a, b :: compare(a, b) == 1 ==> compare(b, a) != 1)
      && (forall a, b, c :: compare(a, b) != 1 && compare(b, c) != 1 ==> compare(a, c) != 1)
  {
    var o := Callback(compare);
    assert forall a, b :: o.Greater(a, b) <==> compare(a, b) == 1;
  }

  /** `v` is no greater than `w`: as a pointer, or because the callback does not answer 1. */
  ghost predicate NoGreater(o: Ordering, v: Word, w: Word) {
    (o.Pointers? && v <= w) || (o.Callback? && o.compare(v, w) != 1)
  }

  function Parent(i: nat): (p: nat)
    requires i > 0
    ensures p < i
  {
    (i - 1) / 2
  }

  /** No value is greater than a child of its. */
  ghost predicate HeapOrdered(o: Ordering, s: seq<Word>) {
    forall i :: 0 < i < |s| ==> !o.Greater(s[Parent(i)], s[i])
  }

  /** The same, but for the value in the hole and its parent. */
  ghost predicate OrderedBelow(o: Ordering, s: seq<Word>, hole: nat)
    requires hole < |s|
  {
    && (forall i :: 0 < i < |s| && i != hole ==> !o.Greater(s[Parent(i)], s[i]))
    && (forall i :: 0 < i < |s| && 0 < hole == Parent(i) ==> !o.Greater(s[Parent(hole)], s[i]))
  }

  /** The same, but for the value in the hole and its children. */
  ghost predicate OrderedAbove(o: Ordering, s: seq<Word>, hole: nat)
    requires hole < |s|
  {
    && (forall i :: 0 < i < |s| && Parent(i) != hole ==> !o.Greater(s[Parent(i)], s[i]))
    && (forall i :: 0 < i < |s| && 0 < hole == Parent(i) ==> !o.Greater(s[Parent(hole)], s[i]))
  }

  function Exchanged(s: seq<Word>, i: nat, j: nat): (t: seq<Word>)
    requires i < |s| && j < |s|
    ensures |t| == |s|
  {
    s[i := s[j]][j := s[i]]
  }

  ghost predicate SameValues(s: seq<Word>, t: seq<Word>) {
    multiset(s) == multiset(t)
  }

  lemma StartSame(s: seq<Word>)
    ensures SameValues(s, s)
  {
  }

  lemma SameWithOneMore(s: seq<Word>, value: Word, t: seq<Word>)
    requires SameValues(s + [value], t)
    ensures multiset(t) == multiset(s) + multiset{value}
  {
  }

  lemma SameStep(s: seq<Word>, t: seq<Word>, value: Word, t': seq<Word>)
    requires SameValues(s, t) && multiset(t') == multiset(t) + multiset{value}
    ensures SameValues(s + [value], t')
  {
  }

  lemma SameMeans(s: seq<Word>, t: seq<Word>)
    requires SameValues(s, t)
    ensures multiset(s) == multiset(t)
  {
  }

  lemma ExchangedSame(s: seq<Word>, t: seq<Word>, i: nat, j: nat)
    requires i < |t| && j < |t| && SameValues(s, t)
    ensures SameValues(s, Exchanged(t, i, j))
  {
  }

  /** A value less than its parent changes places with it. */
  lemma SiftUp(o: Ordering, s: seq<Word>, hole: nat)
    requires o.Total() && 0 < hole < |s| && OrderedBelow(o, s, hole) && o.Greater(s[Parent(hole)], s[hole])
    ensures OrderedBelow(o, Exchanged(s, hole, Parent(hole)), Parent(hole))
  {
    var p, t := Parent(hole), Exchanged(s, hole, Parent(hole));
    forall i | 0 < i < |t| && i != p
      ensures !o.Greater(t[Parent(i)], t[i])
    {
      assert i != hole ==> !o.Greater(s[Parent(i)], s[i]);
    }
    forall i | 0 < i < |t| && 0 < p == Parent(i)
      ensures !o.Greater(t[Parent(p)], t[i])
    {
      assert !o.Greater(s[Parent(p)], s[p]);
      assert i != hole ==> !o.Greater(s[p], s[i]);
    }
  }

  /** A value that is not less than its least child changes places with it. */
  lemma SiftDown(o: Ordering, s: seq<Word>, hole: nat, c: nat)
    requires o.Total() && hole < |s| && 0 < c < |s| && Parent(c) == hole && OrderedAbove(o, s, hole)
    requires forall i :: 0 < i < |s| && Parent(i) == hole ==> !o.Greater(s[c], s[i])
    requires !o.Greater(s[c], s[hole])
    ensures OrderedAbove(o, Exchanged(s, hole, c), c)
  {
    var t := Exchanged(s, hole, c);
    forall i | 0 < i < |t| && Parent(i) != c
      ensures !o.Greater(t[Parent(i)], t[i])
    {
      assert Parent(i) != hole ==> !o.Greater(s[Parent(i)], s[i]);
    }
    forall i | 0 < i < |t| && Parent(i) == c
      ensures !o.Greater(t[hole], t[i])
    {
      assert !o.Greater(s[Parent(i)], s[i]);
    }
  }

  /** When every child is greater than the value in the hole, nothing is out of order. */
  lemma SiftedDown(o: Ordering, s: seq<Word>, hole: nat)
    requires hole < |s| && OrderedAbove(o, s, hole)
    requires forall i :: 0 < i < |s| && Parent(i) == hole ==> !o.Greater(s[hole], s[i])
    ensures HeapOrdered(o, s)
  {
  }

  /** The root of a heap is a least value of it. */
  lemma {:induction false} RootLeast(o: Ordering, s: seq<Word>, i: nat)
    requires o.Total() && HeapOrdered(o, s) && i < |s|
    ensures !o.Greater(s[0], s[i])
  {
    if i > 0 {
      RootLeast(o, s, Parent(i));
    }
  }

  lemma RootIsLeast(o: Ordering, s: seq<Word>)
    requires o.Total() && HeapOrdered(o, s)
    ensures o.Pointers? ==> forall v :: v in s ==> s[0] <= v
    ensures o.Callback? ==> forall v :: v in s ==> o.compare(s[0], v) != 1
  {
    forall i | 0 <= i < |s|
      ensures !o.Greater(s[0], s[i])
    {
      RootLeast(o, s, i);
    }
  }

  ghost predicate Ascending(o: Ordering, s: seq<Word>) {
    forall i, j :: 0 <= i < j < |s| ==> !o.Greater(s[i], s[j])
  }

  class Heap {
    const order: Ordering
    var count: nat
    var buckets: array<Word>

    ghost predicate Valid()
      reads this, buckets
    {
      order.Total() && count <= buckets.Length <= MAX_CAPACITY && HeapOrdered(order, Values())
    }

    ghost function Values(): (s: seq<Word>)
      requires count <= buckets.Length
      reads this, buckets
      ensures |s| == count
    {
      buckets[..count]
    }

    /** A heap of the given values, added in turn. Values that are in heap order already, like
        the buckets of another heap, stay where they are. */
    constructor (order: Ordering, values: seq<Word>)
      requires order.Total() && |values| < MAX_CAPACITY
      ensures Valid() && fresh(buckets) && this.order == order
      ensures multiset(Values()) == multiset(values)
      ensures HeapOrdered(order, values) ==> Values() == values
    {
      this.order, count, buckets := order, 0, new Word[RoundUpCapacity(1)];
      new;
      EmptyOrdered(order);
      AddAll(values);
    }

    /** Adds values in turn to an empty heap. */
    method AddAll(values: seq<Word>)
      requires Valid() && Values() == [] && |values| < MAX_CAPACITY
      modifies this, buckets
      ensures Valid() && (buckets == old(buckets) || fresh(buckets))
      ensures multiset(Values()) == multiset(values)
      ensures HeapOrdered(order, values) ==> Values() == values
    {
      hide Values, HeapOrdered, Parent, SameValues, Ordering.Total, Ordering.Greater;
      StartSame([]);
      ghost var done: seq<Word> := [];
      for idx := 0 to |values|
        invariant Valid() && count == idx == |done| && (buckets == old(buckets) || fresh(buckets))
        invariant done == values[..idx] && SameValues(done, Values())
        invariant HeapOrdered(order, values) ==> Values() == done
      {
        if HeapOrdered(order, values) && 0 < idx { ParentNotGreater(order, values, idx); }
        ghost var before := Values();
        AddValue(values[idx]);
        SameStep(done, before, values[idx], Values());
        done := done + [values[idx]];
      }
      assert done == values;
      SameMeans(values, Values());
    }

    /** More buckets. */
    method Grow(numNewValues: nat)
      requires count == buckets.Length && count + numNewValues < MAX_CAPACITY
      modifies this`buckets
      ensures fresh(buckets) && count + numNewValues < buckets.Length <= MAX_CAPACITY
      ensures Values() == old(Values())
    {
      hide RoundUpCapacity;
      RoundUpCapacityIs(count + numNewValues);
      var capacity := RoundUpCapacity(count + numNewValues);
      var grown := new Word[capacity];
      forall i | 0 <= i < buckets.Length {
        grown[i] := buckets[i];
      }
      buckets := grown;
    }

    /** The loop of an addition: parents greater than the value move down. */
    method SiftUpFrom(value: Word, ghost s: seq<Word>)
      requires 0 < count <= buckets.Length && order.Total()
      requires s == buckets[..count][count - 1 := value] && OrderedBelow(order, s, count - 1)
      modifies buckets
      ensures HeapOrdered(order, Values()) && SameValues(s, Values())
      ensures count == 1 || !order.Greater(s[Parent(count - 1)], value) ==> Values() == s
    {
      hide HeapOrdered, OrderedBelow, Exchanged, SameValues, Ordering.Total, Ordering.Greater;
      var idx: nat := count - 1;
      ghost var t := s;
      StartSame(s);
      while 0 < idx
        invariant idx < count && t == buckets[..count][idx := value]
        invariant OrderedBelow(order, t, idx) && SameValues(s, t)
        invariant if idx + 1 == count then t == s else order.Greater(s[Parent(count - 1)], value)
      {
        var pidx := Parent(idx);
        var item := buckets[pidx];
        if !order.Greater(item, value) {
          break;
        }
        SiftUp(order, t, idx);
        ExchangedSame(s, t, idx, pidx);
        HoleMoves(buckets[..count], idx, pidx, value);
        t := Exchanged(t, idx, pidx);
        buckets[idx] := item;
        idx := pidx;
      }
      buckets[idx] := value;
      HoleFits(order, t, idx);
    }

    /** Adds a value. It stays at the end if the parent there is not greater. */
    method AddValue(value: Word)
      requires Valid() && count + 1 < MAX_CAPACITY
      modifies this, buckets
      ensures Valid() && (buckets == old(buckets) || fresh(buckets))
      ensures multiset(Values()) == multiset(old(Values())) + multiset{value}
      ensures old(count) == 0 || !order.Greater(old(Values()[Parent(count)]), value) ==>
        Values() == old(Values()) + [value]
    {
      hide HeapOrdered, OrderedBelow, SameValues, Parent, Ordering.Total, Ordering.Greater;
      ghost var v := Values();
      if count == buckets.Length {
        Grow(1);
      }
      assert buckets[..count] == v;
      EndIsHole(order, v, value);
      EndIs(buckets[..], count, value);
      count := count + 1;
      SiftUpFrom(value, v + [value]);
      SameWithOneMore(v, value, Values());
    }

    method GetMinimumIfPresent() returns (present: bool, value: Word)
      requires Valid()
      ensures present <==> Values() != []
      ensures present ==> value == Values()[0] && forall v :: v in Values() ==> !order.Greater(value, v)
      ensures present && order.Pointers? ==> forall v :: v in Values() ==> value <= v
      ensures present && order.Callback? ==> forall v :: v in Values() ==> order.compare(value, v) != 1
    {
      if count == 0 {
        return false, 0;
      }
      present, value := true, buckets[0];
      forall i | 0 <= i < count
        ensures !order.Greater(value, Values()[i])
      {
        RootLeast(order, Values(), i);
      }
    }

    /** The loop of a removal: children that are not greater than the value move up. */
    method SiftDownFrom(val: Word, ghost s: seq<Word>)
      requires 0 < count <= buckets.Length && order.Total()
      requires s == buckets[..count][0 := val] && OrderedAbove(order, s, 0)
      modifies buckets
      ensures HeapOrdered(order, Values()) && SameValues(s, Values())
    {
      hide HeapOrdered, OrderedAbove, Exchanged, SameValues, Ordering.Total, Ordering.Greater;
      var idx: nat := 0;
      ghost var t := s;
      StartSame(s);
      while 2 * idx + 1 < count
        invariant idx < count && t == buckets[..count][idx := val]
        invariant OrderedAbove(order, t, idx) && SameValues(s, t)
        decreases count - idx
      {
        var cidx, item := LesserChild(idx, val);
        if order.Greater(item, val) {
          LesserGreater(order, t, idx, item);
          break;
        }
        SiftDown(order, t, idx, cidx);
        ExchangedSame(s, t, idx, cidx);
        HoleMoves(buckets[..count], idx, cidx, val);
        t := Exchanged(t, idx, cidx);
        buckets[idx] := item;
        idx := cidx;
      }
      buckets[idx] := val;
      SiftedDown(order, t, idx);
    }

    /** Removes the value at the root: the last value goes there and sifts down. */
    method RemoveMinimumValue()
      requires Valid()
      modifies this`count, buckets
      ensures Valid()
      ensures if old(Values()) == [] then Values() == []
        else multiset(Values()) == multiset(old(Values())) - multiset{old(Values()[0])}
      ensures order.Pointers? ==> forall v :: v in old(Values()) ==> old(Values())[0] <= v
      ensures order.Callback? ==> forall v :: v in old(Values()) ==> order.compare(old(Values())[0], v) != 1
    {
      hide HeapOrdered, OrderedAbove, Ordering.Total, Ordering.Greater;
      RootIsLeast(order, Values());
      if count == 0 {
        return;
      }
      ghost var s := Values();
      LastIsHole(order, s);
      ShrunkValues(s);
      count := count - 1;
      var val := buckets[count];
      if count == 0 {
        EmptyOrdered(order);
        return;
      }
      SiftDownFrom(val, Shrunk(s));
    }

    /** A child that is no greater than the other. */
    method LesserChild(idx: nat, ghost val: Word) returns (cidx: nat, item: Word)
      requires order.Total() && 2 * idx + 1 < count <= buckets.Length
      ensures cidx < count && cidx > 0 && Parent(cidx) == idx && item == buckets[cidx]
      ensures forall i :: 0 < i < count && Parent(i) == idx ==> !order.Greater(item, buckets[..count][idx := val][i])
    {
      cidx := 2 * idx + 1;
      item := buckets[cidx];
      if cidx + 1 < count {
        var item2 := buckets[cidx + 1];
        if order.Greater(item, item2) {
          cidx, item := cidx + 1, item2;
        }
      }
    }

    /** All values in ascending order, taken from a copy. */
    method GetValues() returns (values: seq<Word>)
      requires Valid() && count < MAX_CAPACITY
      ensures multiset(values) == multiset(Values()) && Ascending(order, values)
      ensures order.Pointers? ==> forall i, j :: 0 <= i < j < |values| ==> values[i] <= values[j]
      ensures order.Callback? ==> forall i, j :: 0 <= i < j < |values| ==> order.compare(values[i], values[j]) != 1
    {
      hide Values, HeapOrdered, Ascending, Taken, Ordering.Total, Ordering.Greater;
      ghost var s := Values();
      ValuesAre();
      var heapCopy := new Heap(order, buckets[..count]);
      values := [];
      NothingTaken(order, heapCopy.Values());
      while 0 < heapCopy.count
        invariant heapCopy.Valid() && heapCopy.order == order && fresh(heapCopy) && fresh(heapCopy.buckets)
        invariant multiset(values) + multiset(heapCopy.Values()) == multiset(s)
        invariant Taken(order, values, multiset(heapCopy.Values()))
        decreases heapCopy.count
      {
        var _, value := heapCopy.GetMinimumIfPresent();
        TakeLeast(order, values, heapCopy.Values());
        heapCopy.RemoveMinimumValue();
        values := values + [value];
      }
      TakenAll(order, values, multiset(heapCopy.Values()));
      AscendingMeans(order, values);
    }

    lemma ValuesAre()
      requires Valid()
      ensures Values() == buckets[..count]
    {
    }
  }

  /** The values taken so far are in order, and none is greater than one that is left. */
  ghost predicate Taken(o: Ordering, values: seq<Word>, left: multiset<Word>) {
    Ascending(o, values) && forall v, w :: v in values && w in left ==> !o.Greater(v, w)
  }

  lemma NothingTaken(o: Ordering, s: seq<Word>)
    ensures Taken(o, [], multiset(s)) && Ascending(o, [])
  {
  }

  lemma AscendingMeans(o: Ordering, s: seq<Word>)
    requires Ascending(o, s)
    ensures o.Pointers? ==> forall i, j :: 0 <= i < j < |s| ==> s[i] <= s[j]
    ensures o.Callback? ==> forall i, j :: 0 <= i < j < |s| ==> o.compare(s[i], s[j]) != 1
  {
  }

  lemma TakenAll(o: Ordering, values: seq<Word>, left: multiset<Word>)
    requires Taken(o, values, left)
    ensures Ascending(o, values)
  {
  }

  lemma TakeLeast(o: Ordering, values: seq<Word>, s: seq<Word>)
    requires s != [] && Taken(o, values, multiset(s)) && forall v :: v in s ==> !o.Greater(s[0], v)
    ensures Taken(o, values + [s[0]], multiset(s) - multiset{s[0]})
  {
    var t, left := values + [s[0]], multiset(s) - multiset{s[0]};
    forall v, w | v in t && w in left
      ensures !o.Greater(v, w)
    {
      assert w in multiset(s);
    }
  }

  /** A heap without its root, the last value at the root instead. */
  function Shrunk(s: seq<Word>): (t: seq<Word>)
    requires s != []
    ensures |t| == |s| - 1
  {
    if |s| == 1 then [] else s[..|s| - 1][0 := s[|s| - 1]]
  }

  lemma ShrunkValues(s: seq<Word>)
    requires s != []
    ensures multiset(Shrunk(s)) == multiset(s) - multiset{s[0]}
  {
    if |s| > 1 {
      var a, m, z := s[0], s[1..|s| - 1], s[|s| - 1];
      assert s == [a] + m + [z] && Shrunk(s) == [z] + m;
      MovedToFront(a, m, z);
    } else {
      assert s == [s[0]];
    }
  }

  lemma MovedToFront(a: Word, m: seq<Word>, z: Word)
    ensures multiset([z] + m) == multiset([a] + m + [z]) - multiset{a}
  {
  }

  lemma LastIsHole(o: Ordering, s: seq<Word>)
    requires s != [] && HeapOrdered(o, s)
    ensures |s| > 1 ==> OrderedAbove(o, Shrunk(s), 0)
  {
  }

  lemma ParentNotGreater(o: Ordering, s: seq<Word>, i: nat)
    requires HeapOrdered(o, s) && 0 < i < |s|
    ensures !o.Greater(s[Parent(i)], s[i])
  {
  }

  lemma EmptyOrdered(o: Ordering)
    ensures HeapOrdered(o, [])
  {
  }

  /** Moving a value into the hole moves the hole. */
  lemma HoleMoves(b: seq<Word>, i: nat, j: nat, value: Word)
    requires i < |b| && j < |b| && i != j
    ensures b[i := b[j]][j := value] == Exchanged(b[i := value], i, j)
  {
  }

  lemma LesserGreater(o: Ordering, s: seq<Word>, hole: nat, item: Word)
    requires o.Total() && hole < |s| && o.Greater(item, s[hole])
    requires forall i :: 0 < i < |s| && Parent(i) == hole ==> !o.Greater(item, s[i])
    ensures forall i :: 0 < i < |s| && Parent(i) == hole ==> !o.Greater(s[hole], s[i])
  {
  }

  lemma EndIs(b: seq<Word>, n: nat, value: Word)
    requires n < |b|
    ensures b[..n + 1][n := value] == b[..n] + [value]
  {
  }

  /** A value put at the end may be out of order only there. */
  lemma EndIsHole(o: Ordering, s: seq<Word>, value: Word)
    requires HeapOrdered(o, s)
    ensures OrderedBelow(o, s + [value], |s|)
  {
  }

  lemma HoleFits(o: Ordering, s: seq<Word>, hole: nat)
    requires hole < |s| && OrderedBelow(o, s, hole)
    requires hole == 0 || !o.Greater(s[Parent(hole)], s[hole])
    ensures HeapOrdered(o, s)
  {
  }

  /** What a caller does to a heap. */
  datatype Operation = Add(value: Word) | RemoveMinimum

  /** How many values there are after some operations. */
  function SizeAfter(n: nat, ops: seq<Operation>): nat {
    if ops == [] then n
    else
      var m := SizeAfter(n, ops[..|ops| - 1]);
      if ops[|ops| - 1].Add? then m + 1 else if m == 0 then 0 else m - 1
  }

  /** A step of a priority queue: a value is added, or a least value is taken if there is one. */
  ghost predicate QueueStep(o: Ordering, bag: multiset<Word>, op: Operation, taken: Option<Word>,
                            bag': multiset<Word>) {
    if op.Add? then bag' == bag + multiset{op.value} && taken == None
    else if |bag| == 0 then bag' == bag && taken == None
    else
      && taken.Some? && taken.value in bag && bag' == bag - multiset{taken.value}
      && forall v :: v in bag ==> NoGreater(o, taken.value, v)
  }

  /** What is taken and what is left, from step to step. */
  ghost predicate QueueRun(o: Ordering, bags: seq<multiset<Word>>, ops: seq<Operation>, taken: seq<Option<Word>>) {
    && |taken| == |ops| && |bags| == |ops| + 1
    && forall i :: 0 <= i < |ops| ==> QueueStep(o, bags[i], ops[i], taken[i], bags[i + 1])
  }

  /** Any sequence of additions and removals makes of a heap what it makes of a priority queue. */
  method Run(h: Heap, ops: seq<Operation>) returns (taken: seq<Option<Word>>, ghost bags: seq<multiset<Word>>)
    requires h.Valid()
    requires forall i :: 0 <= i < |ops| && ops[i].Add? ==> SizeAfter(h.count, ops[..i]) + 1 < MAX_CAPACITY
    modifies h, h.buckets
    ensures h.Valid() && QueueRun(h.order, bags, ops, taken)
    ensures bags[0] == multiset(old(h.Values())) && bags[|ops|] == multiset(h.Values())
  {
    hide HeapOrdered, QueueStep, Ordering.Total, Ordering.Greater;
    taken, bags := [], [multiset(h.Values())];
    ghost var n := h.count;
    assert ops[..0] == [];
    for i := 0 to |ops|
      invariant h.Valid() && (h.buckets == old(h.buckets) || fresh(h.buckets))
      invariant h.count == SizeAfter(n, ops[..i])
      invariant QueueRun(h.order, bags, ops[..i], taken) && bags[0] == multiset(old(h.Values()))
      invariant bags[i] == multiset(h.Values())
    {
      assert ops[..i + 1] == ops[..i] + [ops[i]];
      ghost var size := h.count;
      var value := Perform(h, ops[i]);
      RunGrows(h.order, bags, ops[..i], taken, ops[i], value, multiset(h.Values()));
      SizeStep(n, ops, i, size, h.count);
      taken, bags := taken + [value], bags + [multiset(h.Values())];
    }
    assert ops[..|ops|] == ops;
  }

  /** One operation, and the value it takes. */
  method Perform(h: Heap, op: Operation) returns (taken: Option<Word>)
    requires h.Valid() && (op.Add? ==> h.count + 1 < MAX_CAPACITY)
    modifies h, h.buckets
    ensures h.Valid() && (h.buckets == old(h.buckets) || fresh(h.buckets))
    ensures QueueStep(h.order, multiset(old(h.Values())), op, taken, multiset(h.Values()))
    ensures h.count == if op.Add? then old(h.count) + 1 else if old(h.count) == 0 then 0 else old(h.count) - 1
  {
    hide HeapOrdered, Ordering.Total, Ordering.Greater;
    ghost var s := h.Values();
    ValuesLeft(h);
    taken := None;
    match op {
      case Add(value) => h.AddValue(value);
      case RemoveMinimum =>
        var present, value := h.GetMinimumIfPresent();
        h.RemoveMinimumValue();
        if present {
          taken := Some(value);
          assert value in multiset(s);
          forall v | v in multiset(s)
            ensures NoGreater(h.order, value, v)
          {
            assert v in s;
          }
        }
    }
    ValuesLeft(h);
  }

  lemma ValuesLeft(h: Heap)
    requires h.Valid()
    ensures h.count == |multiset(h.Values())|
  {
    BagSize(h.Values());
  }

  lemma BagSize(s: seq<Word>)
    ensures |multiset(s)| == |s|
  {
  }

  lemma RunGrows(o: Ordering, bags: seq<multiset<Word>>, ops: seq<Operation>, taken: seq<Option<Word>>, op: Operation,
                 value: Option<Word>, bag: multiset<Word>)
    requires QueueRun(o, bags, ops, taken) && QueueStep(o, bags[|ops|], op, value, bag)
    ensures QueueRun(o, bags + [bag], ops + [op], taken + [value])
  {
    hide QueueStep;
  }

  lemma SizeStep(n: nat, ops: seq<Operation>, i: nat, size: nat, size': nat)
    requires i < |ops| && size == SizeAfter(n, ops[..i])
    requires size' == if ops[i].Add? then size + 1 else if size == 0 then 0 else size - 1
    ensures size' == SizeAfter(n, ops[..i + 1])
  {
    assert ops[..i + 1][..i] == ops[..i];
  }

  /** A run is a shorter run and a last step. */
  lemma LastStep(o: Ordering, bags: seq<multiset<Word>>, ops: seq<Operation>, taken: seq<Option<Word>>)
    requires QueueRun(o, bags, ops, taken) && ops != []
    ensures var n := |ops| - 1;
      && QueueRun(o, bags[..n + 1], ops[..n], taken[..n]) && QueueStep(o, bags[n], ops[n], taken[n], bags[n + 1])
      && bags[..n + 1][n] == bags[n] && bags[..n + 1][0] == bags[0]
      && taken == taken[..n] + [taken[n]] && bags == bags[..n + 1] + [bags[n + 1]]
  {
    hide QueueStep;
  }

  /** The value an operation adds, and the value it takes, as multisets. */
  function AddedBy(op: Operation): multiset<Word> {
    if op.Add? then multiset{op.value} else multiset{}
  }

  function Removed(taken: Option<Word>): multiset<Word> {
    if taken.Some? then multiset{taken.value} else multiset{}
  }

  /** All values added, and all values taken. */
  function AllAdded(ops: seq<Operation>): multiset<Word> {
    if ops == [] then multiset{} else AllAdded(ops[..|ops| - 1]) + AddedBy(ops[|ops| - 1])
  }

  function AllRemoved(taken: seq<Option<Word>>): multiset<Word> {
    if taken == [] then multiset{} else AllRemoved(taken[..|taken| - 1]) + Removed(taken[|taken| - 1])
  }

  lemma StepKeeps(o: Ordering, bag: multiset<Word>, op: Operation, taken: Option<Word>, bag': multiset<Word>)
    requires QueueStep(o, bag, op, taken, bag')
    ensures bag + AddedBy(op) == Removed(taken) + bag'
  {
  }

  lemma Joined(a: multiset<Word>, b: multiset<Word>, c: multiset<Word>, d: multiset<Word>,
               e: multiset<Word>, f: multiset<Word>, g: multiset<Word>)
    requires a + b == c + d && d + e == f + g
    ensures a + (b + e) == (c + f) + g
  {
    forall v
      ensures (a + (b + e))[v] == ((c + f) + g)[v]
    {
      assert (a + b)[v] == (c + d)[v] && (d + e)[v] == (f + g)[v];
    }
  }

  /** No value is lost and none made: what was there and what was added is what was taken and what
      is left. */
  lemma {:induction false} NothingLost(o: Ordering, bags: seq<multiset<Word>>, ops: seq<Operation>,
                                       taken: seq<Option<Word>>)
    requires QueueRun(o, bags, ops, taken)
    ensures bags[0] + AllAdded(ops) == AllRemoved(taken) + bags[|ops|]
  {
    hide QueueStep, QueueRun, AddedBy, Removed;
    RunLengths(o, bags, ops, taken);
    if ops != [] {
      var n := |ops| - 1;
      LastStep(o, bags, ops, taken);
      NothingLost(o, bags[..n + 1], ops[..n], taken[..n]);
      StepKeeps(o, bags[n], ops[n], taken[n], bags[n + 1]);
      Joined(bags[0], AllAdded(ops[..n]), AllRemoved(taken[..n]), bags[n],
        AddedBy(ops[n]), Removed(taken[n]), bags[n + 1]);
    }
  }

  lemma RunLengths(o: Ordering, bags: seq<multiset<Word>>, ops: seq<Operation>, taken: seq<Option<Word>>)
    requires QueueRun(o, bags, ops, taken)
    ensures |taken| == |ops| && |bags| == |ops| + 1
  {
  }

  lemma StepOnce(bag: multiset<Word>, op: Operation, taken: Option<Word>, taken': Option<Word>,
                 left: multiset<Word>, left': multiset<Word>)
    requires QueueStep(Pointers, bag, op, taken, left) && QueueStep(Pointers, bag, op, taken', left')
    ensures taken == taken' && left == left'
  {
  }

  /** In the order of pointers what is taken is determined by the operations. */
  lemma {:induction false} TakenOnce(bags: seq<multiset<Word>>, bags': seq<multiset<Word>>, ops: seq<Operation>,
                                     taken: seq<Option<Word>>, taken': seq<Option<Word>>)
    requires QueueRun(Pointers, bags, ops, taken) && QueueRun(Pointers, bags', ops, taken')
    requires |bags| > 0 && |bags'| > 0 && bags[0] == bags'[0]
    ensures taken == taken' && bags == bags'
  {
    hide QueueStep, QueueRun;
    RunLengths(Pointers, bags, ops, taken);
    RunLengths(Pointers, bags', ops, taken');
    if ops != [] {
      var n := |ops| - 1;
      LastStep(Pointers, bags, ops, taken);
      LastStep(Pointers, bags', ops, taken');
      TakenOnce(bags[..n + 1], bags'[..n + 1], ops[..n], taken[..n], taken'[..n]);
      StepOnce(bags[n], ops[n], taken[n], taken'[n], bags[n + 1], bags'[n + 1]);
    } else {
      assert bags == [bags[0]] && bags' == [bags'[0]];
    }
  }

  /** A heap of pointers gives them back sorted. */
  method SortPointers(values: seq<Word>) returns (sorted: seq<Word>)
    requires |values| < MAX_CAPACITY
    ensures multiset(sorted) == multiset(values)
    ensures forall i, j :: 0 <= i < j < |sorted| ==> sorted[i] <= sorted[j]
  {
    PointersTotal();
    var h := new Heap(Pointers, values);
    BagSize(values);
    BagSize(h.Values());
    sorted := h.GetValues();
  }

  /** A heap with a callback that compares ranks gives its values back by ascending rank. */
  method SortByRank(values: seq<Word>, compare: (Word, Word) -> int, ghost rank: Word -> int)
      returns (sorted: seq<Word>)
    requires |values| < MAX_CAPACITY && forall a, b :: compare(a, b) == 1 <==> rank(a) > rank(b)
    ensures multiset(sorted) == multiset(values)
    ensures forall i, j :: 0 <= i < j < |sorted| ==> rank(sorted[i]) <= rank(sorted[j])
  {
    CallbackTotal(compare);
    var h := new Heap(Callback(compare), values);
    BagSize(values);
    BagSize(h.Values());
    sorted := h.GetValues();
  }
}
