/** Whole runs of a table: any sequence of calls leaves it standing for the map that the same
    sequence makes of the map it stood for. */
module HashRuns {
  import opened HashMarks
  import opened HashSizes
  import opened HashSlots
  import opened HashTable
  import opened Prelude

  datatype Call =
    | Add(key: Word, value: Word)
    | Put(key: Word, value: Word)
    | Replace(key: Word, value: Word)
    | Remove(key: Word)
    | RemoveAll
    | SetCapacity(capacity: nat)

  /** The map after a call. In a table with counts adding and removing change the count of a key
      that is there, up to the largest count, which stays. */
  function After(k: Keys, hasCounts: bool, m: map<int, Entry>, call: Call): map<int, Entry> {
    match call
    case Add(key, value) =>
      var r := k.ident(key);
      if r !in m then m[r := Entry(key, value, 1)]
      else if hasCounts && m[r].count < LONG_MAX then m[r := m[r].(count := m[r].count + 1)]
      else m
    case Put(key, value) =>
      var r := k.ident(key);
      m[r := Entry(key, value, if r in m then m[r].count else 1)]
    case Replace(key, value) =>
      var r := k.ident(key);
      if r in m then m[r := Entry(key, value, m[r].count)] else m
    case Remove(key) =>
      var r := k.ident(key);
      if !Storable(key) || r !in m || m[r].count == LONG_MAX then m
      else if m[r].count == 1 then m - {r}
      else if m[r].count > 1 then m[r := m[r].(count := m[r].count - 1)]
      else m
    case RemoveAll => map[]
    case SetCapacity(_) => m
  }

  function AfterAll(k: Keys, hasCounts: bool, m: map<int, Entry>, calls: seq<Call>): map<int, Entry> {
    if calls == [] then m
    else After(k, hasCounts, AfterAll(k, hasCounts, m, calls[..|calls| - 1]), calls[|calls| - 1])
  }

  /** The number of occurrences a map says a key has. */
  function Occurrences(m: map<int, Entry>, r: int): nat {
    if r in m then m[r].count else 0
  }

  /** What the same changes make of a multiset of keys. */
  function BagStep(k: Keys, bag: multiset<int>, call: Call): multiset<int> {
    match call
    case Add(key, _) => bag + multiset{k.ident(key)}
    case Put(key, _) => if k.ident(key) in bag then bag else bag + multiset{k.ident(key)}
    case Remove(key) => if Storable(key) then bag - multiset{k.ident(key)} else bag
    case RemoveAll => multiset{}
    case _ => bag
  }

  function BagAfter(k: Keys, bag: multiset<int>, calls: seq<Call>): multiset<int> {
    if calls == [] then bag else BagStep(k, BagAfter(k, bag, calls[..|calls| - 1]), calls[|calls| - 1])
  }

  /** No count is as large as a count can be. */
  ghost predicate BelowLimit(bag: multiset<int>) {
    forall r :: bag[r] < LONG_MAX
  }

  /** Counts are positive and are those of the multiset. */
  ghost predicate CountsAre(m: map<int, Entry>, bag: multiset<int>) {
    (forall r :: r in m ==> m[r].count > 0) && forall r :: bag[r] == Occurrences(m, r)
  }

  lemma CountsStep(k: Keys, m: map<int, Entry>, bag: multiset<int>, call: Call)
    requires CountsAre(m, bag) && BelowLimit(bag)
    ensures CountsAre(After(k, true, m, call), BagStep(k, bag, call))
  {
    var m', bag' := After(k, true, m, call), BagStep(k, bag, call);
    forall r
      ensures bag'[r] == Occurrences(m', r)
    {
      assert bag[r] == Occurrences(m, r) && bag[r] < LONG_MAX;
      assert !call.RemoveAll? && !call.SetCapacity? ==>
        bag[k.ident(call.key)] == Occurrences(m, k.ident(call.key)) && bag[k.ident(call.key)] < LONG_MAX;
    }
    forall r | r in m'
      ensures m'[r].count > 0
    {
      assert r in m ==> m[r].count > 0;
    }
  }

  /** With multiplicities below the limit the counts follow the multiset through any run. */
  lemma {:induction false} RunKeepsBag(k: Keys, m: map<int, Entry>, bag: multiset<int>, calls: seq<Call>)
    requires CountsAre(m, bag)
    requires forall i :: 0 <= i <= |calls| ==> BelowLimit(BagAfter(k, bag, calls[..i]))
    ensures CountsAre(AfterAll(k, true, m, calls), BagAfter(k, bag, calls))
  {
    hide After, BagStep, CountsAre, BelowLimit;
    if calls != [] {
      var before := calls[..|calls| - 1];
      forall i | 0 <= i <= |before|
        ensures BelowLimit(BagAfter(k, bag, before[..i]))
      {
        assert before[..i] == calls[..i];
      }
      RunKeepsBag(k, m, bag, before);
      assert calls[..|before|] == before;
      CountsStep(k, AfterAll(k, true, m, before), BagAfter(k, bag, before), calls[|calls| - 1]);
    }
  }

  /** What a caller may ask for: acceptable words. */
  predicate Allowed(call: Call, hasKeys: bool) {
    match call
    case Add(key, value) => Storable(key) && Storable(value) && (!hasKeys ==> key == value)
    case Put(key, value) => Storable(key) && Storable(value) && (!hasKeys ==> key == value)
    case Replace(key, value) => Storable(key) && Storable(value) && (!hasKeys ==> key == value)
    case _ => true
  }

  /** Some table has room for `n` entries; fast growth by one takes the size after the first
      that has. */
  predicate Admits(n: nat, byOne: bool, fastGrow: bool) {
    n <= if byOne && fastGrow then TableCapacity(NUM_SIZES - 2) else MAX_CAPACITY
  }

  /** A call that needs more room asks for no more than there is. */
  predicate Fits(k: Keys, m: map<int, Entry>, call: Call, fastGrow: bool) {
    match call
    case Add(key, _) => k.ident(key) !in m ==> Admits(|m| + 1, true, fastGrow)
    case Put(key, _) => k.ident(key) !in m ==> Admits(|m| + 1, true, fastGrow)
    case SetCapacity(capacity) => |m| < capacity ==> Admits(capacity, capacity == |m| + 1, fastGrow)
    case _ => true
  }

  /** One call of a table. */
  method Perform(t: Table, call: Call)
    requires t.Valid() && Allowed(call, t.hasKeys) && Fits(t.k, t.model, call, t.fastGrow)
    modifies t, t.values, t.keys, t.counts
    ensures t.Valid() && t.Reallocated() && t.model == After(t.k, t.hasCounts, old(t.model), call)
  {
    hide Holds, TableSize, TableCapacity, Used, Tombs;
    UsedIsModel(t);
    match call {
      case Add(key, value) =>
        var _ := t.AddValue(key, value);
      case Put(key, value) =>
        t.PutValue(key, value);
      case Replace(key, value) =>
        t.ReplaceValue(key, value);
      case Remove(key) =>
        var count := t.RemoveValue(key);
      case RemoveAll =>
        t.RemoveAllValues();
      case SetCapacity(capacity) =>
        t.SetCapacity(capacity);
    }
  }

  lemma UsedIsModel(t: Table)
    requires t.Valid()
    ensures t.usedBuckets == |t.model| <= MAX_CAPACITY
  {
    hide TableCapacity;
    UsedIsSize(t.k, t.Slots(), t.model);
    SizeFacts(t.numBucketsIdx);
  }

  /** Any run in which no call asks for more room than a table can have: bookkeeping, placement
      and contents are right after every call, through every growth, shrinking and cleaning. */
  method Run(t: Table, calls: seq<Call>)
    requires t.Valid() && forall i :: 0 <= i < |calls| ==> Allowed(calls[i], t.hasKeys)
    requires forall i :: 0 <= i < |calls| ==>
      Fits(t.k, AfterAll(t.k, t.hasCounts, t.model, calls[..i]), calls[i], t.fastGrow)
    modifies t, t.values, t.keys, t.counts
    ensures t.Valid() && t.model == AfterAll(t.k, t.hasCounts, old(t.model), calls)
  {
    hide Table.Valid, TableCapacity, After, Allowed, Fits;
    ghost var m := t.model;
    assert calls[..0] == [];
    for i := 0 to |calls|
      invariant t.Valid() && t.Reallocated() && t.model == AfterAll(t.k, t.hasCounts, m, calls[..i])
    {
      assert calls[..i + 1][..i] == calls[..i];
      Perform(t, calls[i]);
    }
    assert calls[..|calls|] == calls;
  }

  /** The multiset a table stands for has the counts of its entries. */
  lemma TableCounts(t: Table)
    requires t.Valid()
    ensures CountsAre(t.model, Bag(t.k, t.Slots(), t.values.Length))
  {
    hide TableSize, TableCapacity, Used, Tombs, Findable, Abstracts;
    t.CountsPositive();
    forall r
      ensures Bag(t.k, t.Slots(), t.values.Length)[r] == Occurrences(t.model, r)
    {
      BagOfModel(t.k, t.Slots(), t.model, r);
    }
  }

  /** Any run on a bag: the table ends with the multiset the calls make of the one it had. */
  method RunBag(t: Table, calls: seq<Call>)
    requires t.Valid() && t.hasCounts && forall i :: 0 <= i < |calls| ==> Allowed(calls[i], t.hasKeys)
    requires forall i :: 0 <= i < |calls| ==>
      Fits(t.k, AfterAll(t.k, t.hasCounts, t.model, calls[..i]), calls[i], t.fastGrow)
    requires forall i :: 0 <= i <= |calls| ==>
      BelowLimit(BagAfter(t.k, Bag(t.k, t.Slots(), t.values.Length), calls[..i]))
    modifies t, t.values, t.keys, t.counts
    ensures t.Valid()
    ensures Bag(t.k, t.Slots(), t.values.Length) ==
      BagAfter(t.k, old(Bag(t.k, t.Slots(), t.values.Length)), calls)
  {
    hide Holds, Table.ArraysAgree, TableCapacity, TableSize, Bag, BagAfter, Allowed, Fits, BelowLimit, Used, Tombs;
    ghost var m, bag := t.model, Bag(t.k, t.Slots(), t.values.Length);
    TableCounts(t);
    RunKeepsBag(t.k, m, bag, calls);
    Run(t, calls);
    TableCounts(t);
    SameCounts(t.model, Bag(t.k, t.Slots(), t.values.Length), BagAfter(t.k, bag, calls));
  }

  lemma SameCounts(m: map<int, Entry>, a: multiset<int>, b: multiset<int>)
    requires CountsAre(m, a) && CountsAre(m, b)
    ensures a == b
  {
    forall r
      ensures a[r] == b[r]
    {
      assert a[r] == Occurrences(m, r);
    }
  }
}
