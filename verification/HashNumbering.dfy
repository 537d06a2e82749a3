/** Dictionaries whose values number their keys: inserting a key at a position and taking the
    key at a position away. */
module HashNumbering {
  import opened Prelude
  import opened HashMarks
  import opened HashSlots

  /** The values of the map are the positions of its keys in `order`. */
  ghost predicate Ordered(m: map<int, Entry>, order: seq<int>) {
    && (forall i :: 0 <= i < |order| ==> order[i] in m && m[order[i]].value == i)
    && (forall r :: r in m ==> m[r].value < |order| && order[m[r].value] == r)
  }

  /** What renumbering is to make of a number: from `pivot` on one more, or above it one less. */
  function Intended(v: Word, pivot: Word, up: bool): int {
    if up && pivot <= v then v + 1 else if !up && pivot < v then v - 1 else v
  }

  /** What it makes of one: the word wraps around, is stored, and is read back. */
  function Shifted(v: Word, pivot: Word, up: bool): Word {
    if Intended(v, pivot, up) == v then v else Fetched(Stored(Intended(v, pivot, up) % TWO_64))
  }

  ghost function Renumbered(m: map<int, Entry>, pivot: Word, up: bool): map<int, Entry> {
    map r | r in m :: m[r].(value := Shifted(m[r].value, pivot, up))
  }

  /** No number that moves becomes one of the two stand-ins or passes the largest word. */
  ghost predicate Renumberable(m: map<int, Entry>, pivot: Word, up: bool) {
    forall r :: r in m ==>
      var v := Intended(m[r].value, pivot, up);
      v != m[r].value ==> v < TWO_64 && Storable(v)
  }

  /** Exactly then every number becomes what it should. */
  lemma RenumberedRight(m: map<int, Entry>, pivot: Word, up: bool)
    ensures Renumberable(m, pivot, up) <==>
      forall r :: r in m ==> Renumbered(m, pivot, up)[r].value == Intended(m[r].value, pivot, up)
  {
    forall r | r in m
      ensures var v := m[r].value;
        Shifted(v, pivot, up) == Intended(v, pivot, up) <==>
        (Intended(v, pivot, up) != v ==> Intended(v, pivot, up) < TWO_64 && Storable(Intended(v, pivot, up)))
    {
      StoredFetched(Intended(m[r].value, pivot, up) % TWO_64);
    }
  }

  /** A number that moves onto a stand-in is lost: the next one after 0xa7baadb0 reads back as 0. */
  lemma StandInLost(a: int, key: Word)
    ensures var m := map[a := Entry(key, SUB_ZERO - 1, 1)];
      Renumbered(m, 0, true) == map[a := Entry(key, 0, 1)] && !Renumberable(m, 0, true)
  {
    var m := map[a := Entry(key, SUB_ZERO - 1, 1)];
    assert a in m;
  }

  /** No value of the map is a stand-in. */
  ghost predicate Readable(m: map<int, Entry>) {
    forall r :: r in m ==> Storable(m[r].value)
  }

  /** A dictionary read from a table can number as many keys as the smaller stand-in says. */
  lemma OrderedBound(m: map<int, Entry>, order: seq<int>)
    requires Ordered(m, order)
    ensures Readable(m) ==> |order| <= SUB_ONE
  {
    if |order| > SUB_ONE {
      var r := order[SUB_ONE];
      assert r in m && !Storable(m[r].value);
    }
  }

  /** With fewer there is room for one more number. */
  lemma OrderedRenumberable(m: map<int, Entry>, order: seq<int>, pivot: Word)
    requires Ordered(m, order) && Readable(m) && pivot <= |order| && Storable(pivot)
    ensures Renumberable(m, pivot, true) <==> |order| < SUB_ONE
  {
    OrderedBound(m, order);
    if |order| == SUB_ONE {
      var r := order[SUB_ONE - 1];
      assert r in m && Intended(m[r].value, pivot, true) == SUB_ONE;
    }
  }

  /** Taking one away is always possible. */
  lemma OrderedLowers(m: map<int, Entry>, order: seq<int>, pivot: Word)
    requires Ordered(m, order) && Readable(m)
    ensures Renumberable(m, pivot, false)
  {
    OrderedBound(m, order);
  }

  /** Making room at a position and putting a new key there inserts it in the order, exactly
      when every number that moves can be kept. */
  lemma InsertOrders(m: map<int, Entry>, order: seq<int>, r: int, e: Entry)
    requires Ordered(m, order) && r !in m && e.value <= |order|
    ensures Ordered(Renumbered(m, e.value, true)[r := e], order[..e.value] + [r] + order[e.value..])
      <==> Renumberable(m, e.value, true)
  {
    RenumberedRight(m, e.value, true);
    var m', order' := Renumbered(m, e.value, true)[r := e], order[..e.value] + [r] + order[e.value..];
    hide Renumberable, Shifted;
    forall q | q in m
      ensures q in m' && m'[q] == Renumbered(m, e.value, true)[q]
      ensures 0 <= Intended(m[q].value, e.value, true) < |order'|
      ensures order'[Intended(m[q].value, e.value, true)] == q
    {
    }
    if Ordered(m', order') {
      forall q | q in m
        ensures m'[q].value == Intended(m[q].value, e.value, true)
      {
        assert order'[Intended(m[q].value, e.value, true)] in m';
      }
    }
  }

  /** Taking the key at a position away and closing the gap removes it from the order. */
  lemma RemoveOrders(m: map<int, Entry>, order: seq<int>, at: Word)
    requires Ordered(m, order) && at < |order| && Renumberable(m, at, false)
    ensures Ordered(Renumbered(m, at, false) - {order[at]}, order[..at] + order[at + 1..])
  {
    RenumberedRight(m, at, false);
    var m', order' := Renumbered(m, at, false) - {order[at]}, order[..at] + order[at + 1..];
    hide Renumberable, Shifted;
    forall q | q in m'
      ensures m'[q].value == Intended(m[q].value, at, false) < |order'| && order'[m'[q].value] == q
    {
      assert q in m && q != order[at];
    }
    forall i | 0 <= i < |order'|
      ensures order'[i] in m' && m'[order'[i]].value == i
    {
      var q := order[if i < at then i else i + 1];
      assert q in m && order'[i] == q;
    }
  }

  /** Closing the gap and taking a key just inserted away restores every entry, exactly when
      every number that moved was kept. */
  lemma RemoveUndoesInsert(m: map<int, Entry>, r: int, e: Entry)
    requires r !in m && Readable(m)
    ensures Renumbered(Renumbered(m, e.value, true)[r := e], e.value, false) - {r} == m
      <==> Renumberable(m, e.value, true)
  {
    var back := Renumbered(Renumbered(m, e.value, true)[r := e], e.value, false) - {r};
    RenumberedRight(m, e.value, true);
    hide Renumberable, Shifted, Intended, Storable;
    assert back.Keys == m.Keys;
    forall q | q in m
      ensures back[q] == m[q] <==> Renumbered(m, e.value, true)[q].value == Intended(m[q].value, e.value, true)
    {
      ThereAndBack(m[q].value, e.value);
      assert back[q] == m[q].(value := back[q].value);
    }
    if Renumberable(m, e.value, true) {
      assert forall q :: q in m ==> back[q] == m[q];
    }
  }

  /** Then the number of that key was its own. */
  lemma NumberIsOwn(m: map<int, Entry>, r: int, e: Entry)
    requires r !in m && Renumberable(m, e.value, true)
    ensures var m' := Renumbered(m, e.value, true)[r := e];
      forall q :: q in m' && m'[q].value == e.value ==> q == r
  {
    RenumberedRight(m, e.value, true);
    hide Renumberable, Shifted;
  }

  lemma ThereAndBack(v: Word, pivot: Word)
    requires Storable(v)
    ensures Shifted(Shifted(v, pivot, true), pivot, false) == v <==>
      Shifted(v, pivot, true) == Intended(v, pivot, true)
  {
  }

  /** A bucket whose value is renumbered. */
  function ShiftedSlot(e: Slot, pivot: Word, up: bool): Slot {
    if e.Live? then e.(value := Shifted(e.value, pivot, up)) else e
  }

  /** The first `n` buckets are renumbered, the others are as before. */
  ghost predicate ShiftedFirst(from: seq<Slot>, s: seq<Slot>, n: nat, pivot: Word, up: bool) {
    && |s| == |from|
    && forall i :: 0 <= i < |s| ==> s[i] == if i < n then ShiftedSlot(from[i], pivot, up) else from[i]
  }

  lemma StillFirst(from: seq<Slot>, s: seq<Slot>, home: nat, i: nat)
    requires |s| == |from| && home < |s| && i < |s| && FirstFree(from, home, i)
    requires forall j :: 0 <= j < |s| ==> (s[j].Live? <==> from[j].Live?)
    ensures FirstFree(s, home, i)
  {
  }

  lemma SlotInModel(k: Keys, s: seq<Slot>, m: map<int, Entry>, i: nat)
    requires Holds(k, s, m) && i < |s| && s[i].Live?
    ensures k.ident(s[i].key) in m && m[k.ident(s[i].key)] == EntryOf(s[i])
  {
  }

  lemma ValueStored(k: Keys, s: seq<Slot>, m: map<int, Entry>, v: Word)
    requires Holds(k, s, m) && exists r :: r in m && m[r].value == v
    ensures exists i :: 0 <= i < |s| && s[i].Live? && s[i].value == v
  {
    var r :| r in m && m[r].value == v;
    var i :| 0 <= i < |s| && s[i].Live? && k.ident(s[i].key) == r;
    assert m[r] == EntryOf(s[i]);
  }

  lemma {:induction false} SameLiveness(from: seq<Slot>, s: seq<Slot>, n: nat)
    requires n <= |s| == |from|
    requires forall i :: 0 <= i < |s| ==> (s[i].Live? <==> from[i].Live?) && (s[i].Deleted? <==> from[i].Deleted?)
    ensures Used(s, n) == Used(from, n) && Tombs(s, n) == Tombs(from, n)
  {
    if n > 0 {
      SameLiveness(from, s, n - 1);
    }
  }

  lemma RenumberedFindable(k: Keys, from: seq<Slot>, s: seq<Slot>)
    requires |s| == |from| && Findable(k, from) && Distinct(k, from)
    requires forall i :: 0 <= i < |s| ==>
      if from[i].Live? then s[i].Live? && s[i].key == from[i].key else s[i] == from[i]
    ensures Findable(k, s) && Distinct(k, s)
  {
    forall i | 0 <= i < |s| && s[i].Live?
      ensures Unbroken(s, k.Home(s[i].key, |s|), i)
    {
      assert Unbroken(from, k.Home(from[i].key, |from|), i);
    }
  }

  lemma RenumberedAbstracts(k: Keys, from: seq<Slot>, s: seq<Slot>, m: map<int, Entry>, pivot: Word, up: bool)
    requires Abstracts(k, from, m) && ShiftedFirst(from, s, |from|, pivot, up)
    ensures Abstracts(k, s, Renumbered(m, pivot, up))
  {
    hide Shifted;
    forall i | 0 <= i < |s| && s[i].Live?
      ensures var r := k.ident(s[i].key);
        r in Renumbered(m, pivot, up) && Renumbered(m, pivot, up)[r] == EntryOf(s[i])
    {
      assert from[i].Live?;
    }
    forall r | r in m
      ensures exists i :: 0 <= i < |s| && s[i].Live? && k.ident(s[i].key) == r
    {
      var i :| 0 <= i < |from| && from[i].Live? && k.ident(from[i].key) == r;
      assert s[i].Live?;
    }
  }

  /** Renumbering every bucket renumbers the map and moves nothing. */
  lemma HoldsRenumbered(k: Keys, from: seq<Slot>, s: seq<Slot>, m: map<int, Entry>, pivot: Word, up: bool)
    requires Holds(k, from, m) && ShiftedFirst(from, s, |from|, pivot, up)
    ensures Holds(k, s, Renumbered(m, pivot, up))
    ensures Used(s, |s|) == Used(from, |from|) && Tombs(s, |s|) == Tombs(from, |from|)
  {
    hide Findable, Distinct, Abstracts, Renumbered, Used, Tombs, Shifted;
    SameLiveness(from, s, |s|);
    RenumberedFindable(k, from, s);
    RenumberedAbstracts(k, from, s, m, pivot, up);
  }
}
