/** Dictionaries that number their keys, as tables: inserting, removing, and undoing an insertion. */
module HashOrders {
  import opened HashMarks
  import opened HashNumbering
  import opened HashSlots
  import opened HashTable
  import opened Prelude

  /** A key inserted at a position of the order has it afterwards, and every later key has the
      next one, exactly while the order is shorter than the smaller stand-in. */
  method InsertKey(t: Table, ghost order: seq<int>, key: Word, at: Word) returns (added: bool)
    requires t.Valid() && t.hasKeys && t.Acceptable(key, at) && (t.k.ident(key) !in t.model ==> t.HasRoom(1))
    requires Ordered(t.model, order) && at <= |order|
    modifies t, t.values, t.keys, t.counts
    ensures t.Valid() && t.Reallocated()
    ensures added <==> t.k.ident(key) !in old(t.model)
    ensures !added ==> t.model == old(t.model)
    ensures added ==>
      (Ordered(t.model, order[..at] + [t.k.ident(key)] + order[at..]) <==> |order| < SUB_ONE)
  {
    hide Table.Sound, Ordered, Renumberable, Renumbered, Readable;
    ghost var m, r := t.model, t.k.ident(key);
    t.ModelReadable();
    OrderedRenumberable(m, order, at);
    added := t.AddIntValueAndInc(key, at);
    if added {
      InsertOrders(m, order, r, Entry(key, at, 1));
    }
  }

  /** The key at a position of the order is taken away and every later key moves up. */
  method RemoveKeyAt(t: Table, ghost order: seq<int>, at: Word)
    requires t.Valid() && t.hasKeys && Ordered(t.model, order) && at < |order|
    requires t.model[order[at]].count == 1
    modifies t, t.values, t.keys, t.counts
    ensures t.Valid() && t.Reallocated() && Ordered(t.model, order[..at] + order[at + 1..])
  {
    hide Table.Sound, Renumberable, Renumbered, Readable;
    ghost var m := t.model;
    t.ModelReadable();
    OrderedLowers(m, order, at);
    RemoveOrders(m, order, at);
    assert exists q :: q in t.model && t.model[q].value == at by {
      var q := order[at];
      assert q in t.model && t.model[q].value == at;
    }
    ghost var r := t.RemoveIntValueAndDec(at);
  }

  /** Inserting an absent key and removing its number again leaves the table standing for the map
      it stood for, exactly when no number that moved became a stand-in or passed the largest
      word. */
  method InsertAndRemove(t: Table, key: Word, at: Word)
    requires t.Valid() && t.hasKeys && t.Acceptable(key, at) && t.k.ident(key) !in t.model && t.HasRoom(1)
    requires t.hasCounts ==>
      forall q :: q in t.model && Shifted(t.model[q].value, at, true) == at ==> t.model[q].count == 1
    modifies t, t.values, t.keys, t.counts
    ensures t.Valid() && t.Reallocated()
    ensures t.model == old(t.model) <==> Renumberable(old(t.model), at, true)
  {
    hide Table.Sound, Renumberable, Readable, Shifted;
    ghost var m, r := t.model, t.k.ident(key);
    t.ModelReadable();
    RemoveUndoesInsert(m, r, Entry(key, at, 1));
    var _ := t.AddIntValueAndInc(key, at);
    if Renumberable(m, at, true) {
      NumberIsOwn(m, r, Entry(key, at, 1));
    }
    t.ModelReadable();
    assert t.model[r].value == at;
    ghost var q := t.RemoveIntValueAndDec(at);
    assert q != r ==> r in t.model;
  }
}
