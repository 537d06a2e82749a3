/** Open addressing with linear probing, on sequences of slots: what a search may assume about
    the places of the keys, and why every change of a slot keeps it. */
module HashSlots {
  import opened Prelude

  /** A bucket: never used, freed, or holding an entry. */
  datatype Slot = Empty | Deleted | Live(key: Word, value: Word, count: nat)

  /** How a table tells keys apart: equal keys have one identity, and the hash depends on it
      alone. */
  datatype Keys = Keys(ident: Word -> int, hash: int -> nat) {
    /** The bucket at which the search for a key starts. */
    function Home(key: Word, size: nat): (h: nat)
      requires size > 0
      ensures h < size
    {
      hash(ident(key)) % size
    }

    predicate Same(a: Word, b: Word) {
      ident(a) == ident(b)
    }
  }

  /** No bucket that a search from `home` meets before `i` is empty. */
  ghost predicate Unbroken(s: seq<Slot>, home: nat, i: nat)
    requires home < |s| && i < |s|
  {
    if home <= i then forall j :: home <= j < i ==> !s[j].Empty?
    else (forall j :: home <= j < |s| ==> !s[j].Empty?) && (forall j :: 0 <= j < i ==> !s[j].Empty?)
  }

  /** The first free bucket that a search from `home` meets. */
  ghost predicate FirstFree(s: seq<Slot>, home: nat, i: nat)
    requires home < |s| && i < |s|
  {
    && !s[i].Live?
    && if home <= i then forall j :: home <= j < i ==> s[j].Live?
       else (forall j :: home <= j < |s| ==> s[j].Live?) && (forall j :: 0 <= j < i ==> s[j].Live?)
  }

  /** Every entry can be found from its home. */
  ghost predicate Findable(k: Keys, s: seq<Slot>) {
    forall i :: 0 <= i < |s| && s[i].Live? ==> Unbroken(s, k.Home(s[i].key, |s|), i)
  }

  /** No key is stored twice. */
  ghost predicate Distinct(k: Keys, s: seq<Slot>) {
    forall i, j :: 0 <= i < |s| && 0 <= j < |s| && s[i].Live? && s[j].Live? && k.Same(s[i].key, s[j].key) ==> i == j
  }

  ghost predicate Absent(k: Keys, s: seq<Slot>, key: Word) {
    forall i :: 0 <= i < |s| && s[i].Live? ==> !k.Same(s[i].key, key)
  }

  /** The buckets a search from `home` meets in its first `steps` steps. */
  predicate Met(size: nat, home: nat, steps: nat, i: nat) {
    if home + steps <= size then home <= i < home + steps
    else (home <= i < size) || i < home + steps - size
  }

  /** The bucket met after `steps` steps. */
  function ProbeAt(size: nat, home: nat, steps: nat): (p: nat)
    requires home < size && steps < size
    ensures p < size
  {
    if home + steps < size then home + steps else home + steps - size
  }

  lemma Wrapped(n: nat, size: nat)
    requires n < size
    ensures (n + size) % size == n
  {
    assert n + size == 1 * size + n;
  }

  /** The probe is linear. */
  lemma ProbeIsLinear(size: nat, home: nat, steps: nat)
    requires home < size && steps < size
    ensures ProbeAt(size, home, steps) == (home + steps) % size
  {
    var n := home + steps;
    if size <= n { Wrapped(n - size, size); } else { assert n % size == n; }
  }

  lemma MetStep(size: nat, home: nat, steps: nat, i: nat)
    requires home < size && steps < size && i < size
    ensures Met(size, home, steps + 1, i) <==> Met(size, home, steps, i) || i == ProbeAt(size, home, steps)
    ensures !Met(size, home, steps, ProbeAt(size, home, steps))
    ensures Met(size, home, size, i)
  {
  }

  /** An unbroken path ends before the first empty bucket on it. */
  lemma MetOnPath(s: seq<Slot>, home: nat, steps: nat, i: nat)
    requires home < |s| && steps < |s| && i < |s|
    requires s[ProbeAt(|s|, home, steps)].Empty? && !s[i].Empty?
    ensures Unbroken(s, home, i) ==> Met(|s|, home, steps, i)
  {
  }

  /** An entry not met before an empty bucket would lie behind it, where no entry of that home can. */
  lemma EmptyEndsSearch(k: Keys, s: seq<Slot>, key: Word, steps: nat)
    requires steps < |s| && Findable(k, s)
    requires var h := k.Home(key, |s|); s[ProbeAt(|s|, h, steps)].Empty?
    requires forall i :: 0 <= i < |s| && Met(|s|, k.Home(key, |s|), steps, i) && s[i].Live? ==> !k.Same(s[i].key, key)
    ensures Absent(k, s, key)
  {
    hide Unbroken, Met;
    var h := k.Home(key, |s|);
    forall i | 0 <= i < |s| && s[i].Live?
      ensures !k.Same(s[i].key, key)
    {
      MetOnPath(s, h, steps, i);
    }
  }

  /** Filling a free bucket that a search for an absent key reaches keeps the table searchable. */
  lemma FillKeeps(k: Keys, s: seq<Slot>, i: nat, e: Slot)
    requires i < |s| && e.Live? && !s[i].Live?
    requires Findable(k, s) && Distinct(k, s) && Absent(k, s, e.key)
    requires Unbroken(s, k.Home(e.key, |s|), i)
    ensures Findable(k, s[i := e]) && Distinct(k, s[i := e])
  {
    var t := s[i := e];
    forall j | 0 <= j < |t| && t[j].Live?
      ensures Unbroken(t, k.Home(t[j].key, |t|), j)
    {
      if j != i { assert Unbroken(s, k.Home(s[j].key, |s|), j); }
    }
  }

  /** So does changing an entry for one with an equal key. */
  lemma ChangeKeeps(k: Keys, s: seq<Slot>, i: nat, e: Slot)
    requires i < |s| && e.Live? && s[i].Live? && k.Same(s[i].key, e.key)
    requires Findable(k, s) && Distinct(k, s)
    ensures Findable(k, s[i := e]) && Distinct(k, s[i := e])
  {
    var t := s[i := e];
    forall j | 0 <= j < |t| && t[j].Live?
      ensures Unbroken(t, k.Home(t[j].key, |t|), j)
    {
      assert Unbroken(s, k.Home(s[j].key, |s|), j);
    }
  }

  /** And marking an entry deleted rather than emptying its bucket. */
  lemma DeleteKeeps(k: Keys, s: seq<Slot>, i: nat)
    requires i < |s| && s[i].Live?
    requires Findable(k, s) && Distinct(k, s)
    ensures Findable(k, s[i := Deleted]) && Distinct(k, s[i := Deleted])
    ensures Absent(k, s[i := Deleted], s[i].key)
  {
    var t := s[i := Deleted];
    forall j | 0 <= j < |t| && t[j].Live?
      ensures Unbroken(t, k.Home(t[j].key, |t|), j)
    {
      assert Unbroken(s, k.Home(s[j].key, |s|), j);
    }
  }

  /** Emptying the bucket instead could hide another entry: with three buckets and two keys of
      one home, the second key is no longer found. */
  lemma EmptyingBreaks(k: Keys, a: Word, b: Word)
    requires k.Home(a, 3) == 0 && k.Home(b, 3) == 0 && !k.Same(a, b)
    ensures var s := [Live(a, a, 1), Live(b, b, 1), Empty];
      Findable(k, s) && Distinct(k, s) && !Findable(k, s[0 := Empty])
  {
    var s := [Live(a, a, 1), Live(b, b, 1), Empty];
    var t := s[0 := Empty];
    assert t[0].Empty? && t[1].Live?;
  }

  /** The number of entries among the first `n` buckets. */
  function Used(s: seq<Slot>, n: nat): (c: nat)
    requires n <= |s|
    ensures c <= n
  {
    if n == 0 then 0 else Used(s, n - 1) + (if s[n - 1].Live? then 1 else 0)
  }

  /** The number of freed buckets among the first `n`. */
  function Tombs(s: seq<Slot>, n: nat): (c: nat)
    requires n <= |s|
    ensures c + Used(s, n) <= n
  {
    if n == 0 then 0 else Tombs(s, n - 1) + (if s[n - 1].Deleted? then 1 else 0)
  }

  lemma {:induction false} CountsAfterUpdate(s: seq<Slot>, i: nat, e: Slot, n: nat)
    requires i < |s| && n <= |s|
    ensures Used(s[i := e], n) ==
      Used(s, n) + (if i < n then (if e.Live? then 1 else 0) - (if s[i].Live? then 1 else 0) else 0)
    ensures Tombs(s[i := e], n) ==
      Tombs(s, n) + (if i < n then (if e.Deleted? then 1 else 0) - (if s[i].Deleted? then 1 else 0) else 0)
  {
    if n > 0 {
      CountsAfterUpdate(s, i, e, n - 1);
    }
  }

  /** A table with fewer entries than buckets has a bucket to spare. */
  lemma {:induction false} SpareBucket(s: seq<Slot>, n: nat) returns (i: nat)
    requires n <= |s| && Used(s, n) < n
    ensures i < n && !s[i].Live?
  {
    if s[n - 1].Live? {
      i := SpareBucket(s, n - 1);
    } else {
      i := n - 1;
    }
  }

  /** A free bucket met after entries only is the first. */
  lemma FirstMet(s: seq<Slot>, home: nat, steps: nat)
    requires home < |s| && steps < |s| && !s[ProbeAt(|s|, home, steps)].Live?
    requires forall j :: 0 <= j < |s| && Met(|s|, home, steps, j) ==> s[j].Live?
    ensures FirstFree(s, home, ProbeAt(|s|, home, steps))
  {
  }

  /** The first free bucket is free, and as many steps from home as there are entries before it. */
  lemma FirstFreeMeans(s: seq<Slot>, home: nat, i: nat)
    requires home < |s| && i < |s|
    ensures FirstFree(s, home, i) <==>
      exists steps ::
        && 0 <= steps < |s| && ProbeAt(|s|, home, steps) == i && (s[i].Empty? || s[i].Deleted?)
        && forall before :: 0 <= before < steps ==> s[ProbeAt(|s|, home, before)].Live?
  {
    var steps := if home <= i then i - home else i + |s| - home;
    assert ProbeAt(|s|, home, steps) == i;
    if FirstFree(s, home, i) {
      assert forall before :: 0 <= before < steps ==> s[ProbeAt(|s|, home, before)].Live?;
    }
    if forall before :: 0 <= before < steps ==> s[ProbeAt(|s|, home, before)].Live? {
      forall j | 0 <= j < |s| && (if home <= i then home <= j < i else home <= j || j < i)
        ensures s[j].Live?
      {
        var before := if home <= j then j - home else j + |s| - home;
        assert ProbeAt(|s|, home, before) == j && 0 <= before < steps;
      }
    }
  }

  /** The path to the first free bucket is unbroken. */
  lemma FirstUnbroken(s: seq<Slot>, home: nat, i: nat)
    requires home < |s| && i < |s| && FirstFree(s, home, i)
    ensures Unbroken(s, home, i)
  {
  }

  /** What a table holds for one key. */
  datatype Entry = Entry(key: Word, value: Word, count: nat)

  function EntryOf(e: Slot): Entry
    requires e.Live?
  {
    Entry(e.key, e.value, e.count)
  }

  /** The table holds exactly the entries of the map, which is indexed by key identity. */
  ghost predicate Abstracts(k: Keys, s: seq<Slot>, m: map<int, Entry>) {
    && (forall i :: 0 <= i < |s| && s[i].Live? ==> k.ident(s[i].key) in m && m[k.ident(s[i].key)] == EntryOf(s[i]))
    && (forall r :: r in m ==> exists i :: 0 <= i < |s| && s[i].Live? && k.ident(s[i].key) == r)
  }

  lemma PutAbstracts(k: Keys, s: seq<Slot>, m: map<int, Entry>, i: nat, e: Slot)
    requires i < |s| && e.Live? && Abstracts(k, s, m) && Distinct(k, s)
    requires if s[i].Live? then k.Same(s[i].key, e.key) else Absent(k, s, e.key)
    ensures Abstracts(k, s[i := e], m[k.ident(e.key) := EntryOf(e)])
  {
    var t, m' := s[i := e], m[k.ident(e.key) := EntryOf(e)];
    forall r | r in m'
      ensures exists j :: 0 <= j < |t| && t[j].Live? && k.ident(t[j].key) == r
    {
      if r == k.ident(e.key) {
        assert t[i].Live?;
      } else {
        var j :| 0 <= j < |s| && s[j].Live? && k.ident(s[j].key) == r;
        assert t[j].Live?;
      }
    }
  }

  lemma DeleteAbstracts(k: Keys, s: seq<Slot>, m: map<int, Entry>, i: nat)
    requires i < |s| && s[i].Live? && Abstracts(k, s, m) && Distinct(k, s)
    ensures Abstracts(k, s[i := Deleted], m - {k.ident(s[i].key)})
  {
    var t, m' := s[i := Deleted], m - {k.ident(s[i].key)};
    forall r | r in m'
      ensures exists j :: 0 <= j < |t| && t[j].Live? && k.ident(t[j].key) == r
    {
      var j :| 0 <= j < |s| && s[j].Live? && k.ident(s[j].key) == r;
      assert t[j].Live?;
    }
  }

  /** A key is absent from the table exactly when the map has no entry for it. */
  lemma AbsentIffUnmapped(k: Keys, s: seq<Slot>, m: map<int, Entry>, key: Word)
    requires Abstracts(k, s, m)
    ensures Absent(k, s, key) <==> k.ident(key) !in m
  {
    if k.ident(key) in m {
      var i :| 0 <= i < |s| && s[i].Live? && k.ident(s[i].key) == k.ident(key);
    }
  }

  /** The multiset of key identities among the first `n` buckets. */
  ghost function Bag(k: Keys, s: seq<Slot>, n: nat): multiset<int>
    requires n <= |s|
  {
    if n == 0 then multiset{}
    else Bag(k, s, n - 1) + (if s[n - 1].Live? then multiset{}[k.ident(s[n - 1].key) := s[n - 1].count] else multiset{})
  }

  /** The sum of the counts of the first `n` buckets. */
  function Total(s: seq<Slot>, n: nat): nat
    requires n <= |s|
  {
    if n == 0 then 0 else Total(s, n - 1) + (if s[n - 1].Live? then s[n - 1].count else 0)
  }

  lemma {:induction false} TotalIsBagSize(k: Keys, s: seq<Slot>, n: nat)
    requires n <= |s|
    ensures |Bag(k, s, n)| == Total(s, n)
  {
    if n > 0 {
      TotalIsBagSize(k, s, n - 1);
    }
  }

  lemma {:induction false} BagAt(k: Keys, s: seq<Slot>, n: nat, r: int)
    requires n <= |s| && Distinct(k, s)
    ensures forall i :: 0 <= i < n && s[i].Live? && k.ident(s[i].key) == r ==> Bag(k, s, n)[r] == s[i].count
    ensures (forall i :: 0 <= i < n && s[i].Live? ==> k.ident(s[i].key) != r) ==> Bag(k, s, n)[r] == 0
  {
    if n > 0 {
      BagAt(k, s, n - 1, r);
    }
  }

  /** The multiset a table stands for is the one the counts of its map describe. */
  lemma BagOfModel(k: Keys, s: seq<Slot>, m: map<int, Entry>, r: int)
    requires Abstracts(k, s, m) && Distinct(k, s)
    ensures Bag(k, s, |s|)[r] == if r in m then m[r].count else 0
  {
    BagAt(k, s, |s|, r);
  }

  /** With every count 1 the total is the number of entries. */
  lemma {:induction false} TotalOfOnes(s: seq<Slot>, n: nat)
    requires n <= |s| && forall i :: 0 <= i < |s| && s[i].Live? ==> s[i].count == 1
    ensures Total(s, n) == Used(s, n)
  {
    if n > 0 {
      TotalOfOnes(s, n - 1);
    }
  }

  /** The identities of the keys in the first `n` buckets. */
  ghost function Idents(k: Keys, s: seq<Slot>, n: nat): set<int>
    requires n <= |s|
  {
    if n == 0 then {} else Idents(k, s, n - 1) + (if s[n - 1].Live? then {k.ident(s[n - 1].key)} else {})
  }

  lemma {:induction false} IdentsAre(k: Keys, s: seq<Slot>, n: nat)
    requires n <= |s|
    ensures forall i :: 0 <= i < n && s[i].Live? ==> k.ident(s[i].key) in Idents(k, s, n)
    ensures forall r :: r in Idents(k, s, n) ==> exists i :: 0 <= i < n && s[i].Live? && k.ident(s[i].key) == r
  {
    if n > 0 {
      IdentsAre(k, s, n - 1);
    }
  }

  lemma {:induction false} NewIdent(k: Keys, s: seq<Slot>, n: nat, r: int)
    requires n <= |s| && forall i :: 0 <= i < n && s[i].Live? ==> k.ident(s[i].key) != r
    ensures r !in Idents(k, s, n)
  {
    if n > 0 {
      NewIdent(k, s, n - 1, r);
    }
  }

  lemma {:induction false} UsedIsIdents(k: Keys, s: seq<Slot>, n: nat)
    requires n <= |s| && Distinct(k, s)
    ensures |Idents(k, s, n)| == Used(s, n)
  {
    if n > 0 {
      UsedIsIdents(k, s, n - 1);
      if s[n - 1].Live? {
        NewIdent(k, s, n - 1, k.ident(s[n - 1].key));
      }
    }
  }

  /** The map has as many entries as the table has live buckets. */
  lemma UsedIsSize(k: Keys, s: seq<Slot>, m: map<int, Entry>)
    requires Abstracts(k, s, m) && Distinct(k, s)
    ensures Used(s, |s|) == |m|
  {
    IdentsAre(k, s, |s|);
    UsedIsIdents(k, s, |s|);
    hide Distinct, Idents;
    forall r
      ensures r in m <==> r in Idents(k, s, |s|)
    {
      if r in m {
        var i :| 0 <= i < |s| && s[i].Live? && k.ident(s[i].key) == r;
      }
    }
    assert m.Keys == Idents(k, s, |s|);
  }

  /** Part of the way through a rehash: the first `n` buckets of the old table have been moved. */
  ghost predicate Moved(k: Keys, from: seq<Slot>, n: nat, s: seq<Slot>, part: map<int, Entry>)
    requires n <= |from|
  {
    && Findable(k, s) && Distinct(k, s) && Abstracts(k, s, part)
    && Abstracts(k, from[..n], part)
    && Used(s, |s|) == Used(from, n) && Tombs(s, |s|) == 0
  }

  lemma {:induction false} FreshTable(s: seq<Slot>, n: nat)
    requires n <= |s| && forall i :: 0 <= i < |s| ==> s[i].Empty?
    ensures Used(s, n) == 0 && Tombs(s, n) == 0
  {
    if n > 0 {
      FreshTable(s, n - 1);
    }
  }

  lemma MoveStart(k: Keys, from: seq<Slot>, s: seq<Slot>)
    requires forall i :: 0 <= i < |s| ==> s[i].Empty?
    ensures Moved(k, from, 0, s, map[])
  {
    FreshTable(s, |s|);
  }

  /** The key of the next entry is not in the new table yet. */
  lemma MoveAbsent(k: Keys, from: seq<Slot>, n: nat, s: seq<Slot>, part: map<int, Entry>)
    requires n < |from| && Moved(k, from, n, s, part) && Distinct(k, from) && from[n].Live?
    ensures Absent(k, s, from[n].key)
    ensures k.ident(from[n].key) !in part
  {
    AbsentIffUnmapped(k, s, part, from[n].key);
    AbsentIffUnmapped(k, from[..n], part, from[n].key);
    assert forall i :: 0 <= i < n && from[i].Live? ==> !k.Same(from[i].key, from[n].key);
  }

  lemma PrefixAbstracts(k: Keys, from: seq<Slot>, n: nat, part: map<int, Entry>)
    requires n < |from| && Abstracts(k, from[..n], part)
    requires from[n].Live? ==> k.ident(from[n].key) !in part
    ensures Abstracts(k, from[..n + 1],
              if from[n].Live? then part[k.ident(from[n].key) := EntryOf(from[n])] else part)
  {
    var a, b := from[..n], from[..n + 1];
    assert forall i :: 0 <= i < n ==> a[i] == b[i];
    assert b[n] == from[n];
    forall r | r in part
      ensures exists i :: 0 <= i < |b| && b[i].Live? && k.ident(b[i].key) == r
    {
      var i :| 0 <= i < |a| && a[i].Live? && k.ident(a[i].key) == r;
      assert b[i].Live?;
    }
  }

  lemma MoveEntry(k: Keys, from: seq<Slot>, n: nat, s: seq<Slot>, part: map<int, Entry>, i: nat)
    requires n < |from| && Moved(k, from, n, s, part) && Distinct(k, from) && from[n].Live?
    requires i < |s| && FirstFree(s, k.Home(from[n].key, |s|), i)
    ensures Moved(k, from, n + 1, s[i := from[n]], part[k.ident(from[n].key) := EntryOf(from[n])])
  {
    MoveAbsent(k, from, n, s, part);
    FirstUnbroken(s, k.Home(from[n].key, |s|), i);
    hide Unbroken, Findable, Distinct, Abstracts, Absent;
    FillKeeps(k, s, i, from[n]);
    PutAbstracts(k, s, part, i, from[n]);
    PrefixAbstracts(k, from, n, part);
    CountsAfterUpdate(s, i, from[n], |s|);
  }

  lemma MoveNothing(k: Keys, from: seq<Slot>, n: nat, s: seq<Slot>, part: map<int, Entry>)
    requires n < |from| && Moved(k, from, n, s, part) && !from[n].Live?
    ensures Moved(k, from, n + 1, s, part)
  {
    PrefixAbstracts(k, from, n, part);
  }

  lemma {:induction false} UsedGrows(s: seq<Slot>, a: nat, b: nat)
    requires a <= b <= |s|
    ensures Used(s, a) <= Used(s, b)
  {
    if a < b {
      UsedGrows(s, a, b - 1);
    }
  }

  lemma AbstractsWithin(k: Keys, s: seq<Slot>, a: map<int, Entry>, b: map<int, Entry>)
    requires Abstracts(k, s, a) && Abstracts(k, s, b)
    ensures a.Keys <= b.Keys
    ensures forall r :: r in a.Keys ==> r in b.Keys && a[r] == b[r]
  {
    forall r | r in a.Keys
      ensures r in b.Keys && a[r] == b[r]
    {
      var i :| 0 <= i < |s| && s[i].Live? && k.ident(s[i].key) == r;
    }
  }

  /** A table stands for one map only. */
  lemma AbstractsUnique(k: Keys, s: seq<Slot>, a: map<int, Entry>, b: map<int, Entry>)
    requires Abstracts(k, s, a) && Abstracts(k, s, b)
    ensures a == b
  {
    AbstractsWithin(k, s, a, b);
    AbstractsWithin(k, s, b, a);
    hide Abstracts;
    assert a.Keys == b.Keys;
    assert forall r :: r in a ==> a[r] == b[r];
  }

  lemma MovedAll(k: Keys, from: seq<Slot>, s: seq<Slot>, part: map<int, Entry>, m: map<int, Entry>)
    requires Moved(k, from, |from|, s, part) && Abstracts(k, from, m)
    ensures part == m
  {
    assert from[..|from|] == from;
    AbstractsUnique(k, from, part, m);
  }

  /** A searchable table without duplicates that holds exactly the entries of the map. */
  ghost predicate Holds(k: Keys, s: seq<Slot>, m: map<int, Entry>) {
    Findable(k, s) && Distinct(k, s) && Abstracts(k, s, m)
  }

  lemma HoldsFilled(k: Keys, s: seq<Slot>, m: map<int, Entry>, i: nat, e: Slot)
    requires i < |s| && e.Live? && Holds(k, s, m) && Absent(k, s, e.key)
    requires FirstFree(s, k.Home(e.key, |s|), i)
    ensures k.ident(e.key) !in m && Holds(k, s[i := e], m[k.ident(e.key) := EntryOf(e)])
    ensures Used(s[i := e], |s|) == Used(s, |s|) + 1
    ensures Tombs(s[i := e], |s|) == Tombs(s, |s|) - (if s[i].Deleted? then 1 else 0)
  {
    AbsentIffUnmapped(k, s, m, e.key);
    FirstUnbroken(s, k.Home(e.key, |s|), i);
    FillKeeps(k, s, i, e);
    PutAbstracts(k, s, m, i, e);
    CountsAfterUpdate(s, i, e, |s|);
  }

  lemma HoldsChanged(k: Keys, s: seq<Slot>, m: map<int, Entry>, i: nat, e: Slot)
    requires i < |s| && e.Live? && s[i].Live? && k.Same(s[i].key, e.key) && Holds(k, s, m)
    ensures k.ident(e.key) in m && m[k.ident(e.key)] == EntryOf(s[i])
    ensures Holds(k, s[i := e], m[k.ident(e.key) := EntryOf(e)])
    ensures Used(s[i := e], |s|) == Used(s, |s|) && Tombs(s[i := e], |s|) == Tombs(s, |s|)
  {
    ChangeKeeps(k, s, i, e);
    PutAbstracts(k, s, m, i, e);
    CountsAfterUpdate(s, i, e, |s|);
  }

  lemma HoldsDeleted(k: Keys, s: seq<Slot>, m: map<int, Entry>, i: nat)
    requires i < |s| && s[i].Live? && Holds(k, s, m)
    ensures k.ident(s[i].key) in m && m[k.ident(s[i].key)] == EntryOf(s[i])
    ensures Holds(k, s[i := Deleted], m - {k.ident(s[i].key)})
    ensures Used(s[i := Deleted], |s|) == Used(s, |s|) - 1
    ensures Tombs(s[i := Deleted], |s|) == Tombs(s, |s|) + 1
  {
    DeleteKeeps(k, s, i);
    DeleteAbstracts(k, s, m, i);
    CountsAfterUpdate(s, i, Deleted, |s|);
  }

  /** Two tables of equal total, the first of whose entries all have equal counts in the second,
      have the same keys: nothing is left over for another key of the second. */
  lemma EqualTotals(k: Keys, s: seq<Slot>, m: map<int, Entry>, s': seq<Slot>, m': map<int, Entry>)
    requires Holds(k, s, m) && Holds(k, s', m')
    requires |Bag(k, s, |s|)| == |Bag(k, s', |s'|)|
    requires forall r :: r in m ==> r in m' && m'[r].count == m[r].count
    requires forall r :: r in m' ==> m'[r].count > 0
    ensures m.Keys == m'.Keys
  {
    var a, b := Bag(k, s, |s|), Bag(k, s', |s'|);
    forall r
      ensures a[r] == (if r in m then m[r].count else 0) && b[r] == if r in m' then m'[r].count else 0
    {
      BagOfModel(k, s, m, r);
      BagOfModel(k, s', m', r);
    }
    assert a <= b by {
      forall r
        ensures a[r] <= b[r]
      {
        assert r in m ==> m'[r].count == m[r].count;
      }
    }
    var extra := b - a;
    assert b == a + extra;
    assert |extra| == 0;
    assert m'.Keys <= m.Keys by {
      forall r | r in m'.Keys
        ensures r in m.Keys
      {
        assert b[r] == a[r];
      }
    }
    assert m.Keys <= m'.Keys by {
      forall r | r in m.Keys
        ensures r in m'.Keys
      {
        assert r in m;
      }
    }
  }

  /** Two maps hold the same keys with the same counts and, where values matter, values that
      are the same word or equal to the caller. */
  ghost predicate EqualEntries(m: map<int, Entry>, m': map<int, Entry>, hasKeys: bool,
                               sameValue: (Word, Word) -> bool)
  {
    m.Keys == m'.Keys && AllMatched(m, m', hasKeys, sameValue)
  }

  /** Every entry of the first map has an equal one in the second, which may hold more. */
  ghost predicate AllMatched(m: map<int, Entry>, m': map<int, Entry>, hasKeys: bool, sameValue: (Word, Word) -> bool) {
    forall r :: r in m ==> EntryMatches(m[r], r, m', hasKeys, sameValue)
  }

  ghost predicate EntryMatches(e: Entry, r: int, m': map<int, Entry>, hasKeys: bool, sameValue: (Word, Word) -> bool) {
    && r in m' && e.count == m'[r].count
    && (hasKeys ==> e.value == m'[r].value || sameValue(e.value, m'[r].value))
  }

  /** Once as many entries have been met as there are, no bucket is left that holds one. */
  lemma {:induction false} AllMet(s: seq<Slot>, n: nat, i: nat)
    requires n <= i < |s| && Used(s, n) == Used(s, |s|)
    ensures !s[i].Live?
  {
    UsedGrows(s, n, i);
    UsedGrows(s, i + 1, |s|);
  }

  /** No occurrence means no entry. */
  lemma EmptyBag(k: Keys, s: seq<Slot>, m: map<int, Entry>)
    requires Holds(k, s, m) && |Bag(k, s, |s|)| == 0 && forall r :: r in m ==> m[r].count > 0
    ensures m == map[]
  {
    forall r | r in m
      ensures false
    {
      BagOfModel(k, s, m, r);
    }
  }

  /** Equality decided from one side: equal totals, and every entry of the first table matched
      in the second. */
  lemma MatchedFromOneSide(k: Keys, s: seq<Slot>, m: map<int, Entry>, s': seq<Slot>, m': map<int, Entry>,
                           hasKeys: bool, sameValue: (Word, Word) -> bool)
    requires Holds(k, s, m) && Holds(k, s', m') && forall r :: r in m' ==> m'[r].count > 0
    ensures EqualEntries(m, m', hasKeys, sameValue) <==>
      |Bag(k, s, |s|)| == |Bag(k, s', |s'|)| && AllMatched(m, m', hasKeys, sameValue)
  {
    hide Holds, Bag;
    if EqualEntries(m, m', hasKeys, sameValue) {
      assert forall r :: r in m ==> EntryMatches(m[r], r, m', hasKeys, sameValue);
      EqualMapsEqualBags(k, s, m, s', m');
    }
    if |Bag(k, s, |s|)| == |Bag(k, s', |s'|)| && AllMatched(m, m', hasKeys, sameValue) {
      assert forall r :: r in m ==> EntryMatches(m[r], r, m', hasKeys, sameValue);
      EqualTotals(k, s, m, s', m');
    }
  }

  /** A sum in a signed 64-bit word. */
  function AsIndex(n: int): (i: int)
    ensures 0 <= n < TWO_63 ==> i == n
  {
    (n + TWO_63) % TWO_64 - TWO_63
  }

  lemma AsIndexAdd(n: int, d: int)
    ensures AsIndex(AsIndex(n) + d) == AsIndex(n + d)
  {
    var q := (n + TWO_63) / TWO_64;
    assert AsIndex(n) == n - q * TWO_64;
    assert (n + d + TWO_63 - q * TWO_64) % TWO_64 == (n + d + TWO_63) % TWO_64;
  }

  /** What comparing two tables says: their totals agree as words, and they are 0 or every entry
      of the first is matched. */
  ghost predicate SaidEqual(n: nat, n': nat, matched: bool) {
    AsIndex(n) == AsIndex(n') && (AsIndex(n) == 0 || matched)
  }

  /** Tables that differ, and are said to be equal, because the total of the second wraps around. */
  lemma TotalsWrap(k: Keys, a: Word, b: Word, c: Word, d: Word, sameValue: (Word, Word) -> bool)
    requires k.ident(a) != k.ident(b) && k.ident(a) != k.ident(c) && k.ident(a) != k.ident(d)
    requires k.ident(b) != k.ident(c) && k.ident(b) != k.ident(d) && k.ident(c) != k.ident(d)
    ensures var s := [Live(a, a, 1)];
      var s' := [Live(a, a, 1), Live(b, b, TWO_63 - 1), Live(c, c, TWO_63 - 1), Live(d, d, 2)];
      var m := map[k.ident(a) := Entry(a, a, 1)];
      var m' := map[k.ident(a) := Entry(a, a, 1), k.ident(b) := Entry(b, b, TWO_63 - 1),
                    k.ident(c) := Entry(c, c, TWO_63 - 1), k.ident(d) := Entry(d, d, 2)];
      && Abstracts(k, s, m) && Distinct(k, s) && Abstracts(k, s', m') && Distinct(k, s')
      && SaidEqual(|Bag(k, s, 1)|, |Bag(k, s', 4)|, AllMatched(m, m', false, sameValue))
      && !EqualEntries(m, m', false, sameValue)
  {
    hide Bag;
    var s, s' := [Live(a, a, 1)], [Live(a, a, 1), Live(b, b, TWO_63 - 1), Live(c, c, TWO_63 - 1), Live(d, d, 2)];
    TotalIsBagSize(k, s, 1);
    TotalIsBagSize(k, s', 4);
    assert Total(s', 1) == 1 && Total(s', 2) == TWO_63 && Total(s', 3) == TWO_64 - 1 && Total(s', 4) == TWO_64 + 1;
    assert Total(s, 1) == 1;
    var m := map[k.ident(a) := Entry(a, a, 1)];
    var m' := map[k.ident(a) := Entry(a, a, 1), k.ident(b) := Entry(b, b, TWO_63 - 1),
                  k.ident(c) := Entry(c, c, TWO_63 - 1), k.ident(d) := Entry(d, d, 2)];
    assert k.ident(b) in m'.Keys && k.ident(b) !in m.Keys;
    assert s[0].Live? && s'[0].Live? && s'[1].Live? && s'[2].Live? && s'[3].Live?;
  }

  /** Unequal totals mean unequal maps. */
  lemma EqualMapsEqualBags(k: Keys, s: seq<Slot>, m: map<int, Entry>, s': seq<Slot>, m': map<int, Entry>)
    requires Holds(k, s, m) && Holds(k, s', m') && m.Keys == m'.Keys
    requires forall r :: r in m ==> m[r].count == m'[r].count
    ensures Bag(k, s, |s|) == Bag(k, s', |s'|)
  {
    forall r
      ensures Bag(k, s, |s|)[r] == Bag(k, s', |s'|)[r]
    {
      BagOfModel(k, s, m, r);
      BagOfModel(k, s', m', r);
    }
  }
}
