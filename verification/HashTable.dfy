/** The hash table behind sets, dictionaries and bags: arrays of values, keys and counts whose
    free buckets are marked in band, searched by linear probing, grown, shrunk and cleaned by
    rehashing. */
module HashTable {
  import Bits
  import opened Prelude
  import opened HashMarks
  import opened HashNumbering
  import opened HashSizes
  import opened HashSlots

  /** The largest count a count array of the given width class may hold. */
  function MaxCount(width: nat): nat {
    if width == 0 then 0x7F
    else if width == 1 then 0x7FFF
    else if width == 2 then 0x7FFF_FFFF
    else 0x7FFF_FFFF_FFFF_FFFF
  }

  /** Counts take 1, 2, 4 or 8 bytes, and all of their bits but one. */
  lemma MaxCountIs(width: nat)
    requires width < 4
    ensures Bits.Pow2(width) > 0 && MaxCount(width) == Bits.Pow2(8 * Bits.Pow2(width) - 1) - 1
  {
    assert Bits.Pow2(1) == 2 && Bits.Pow2(2) == 4 && Bits.Pow2(3) == 8;
    assert Bits.Pow2(7) == 0x80;
    assert Bits.Pow2(15) == 0x8000;
    assert Bits.Pow2(23) == 0x80_0000;
    assert Bits.Pow2(31) == 0x8000_0000;
    assert Bits.Pow2(39) == 0x80_0000_0000;
    assert Bits.Pow2(47) == 0x8000_0000_0000;
    assert Bits.Pow2(55) == 0x80_0000_0000_0000;
    assert Bits.Pow2(63) == 0x8000_0000_0000_0000;
  }

  const LONG_MAX: int := 0x7FFF_FFFF_FFFF_FFFF

  /** What a bucket says whose stored value, stored key and count are given. */
  function SlotOf(value: Word, key: Word, count: nat): Slot {
    if value == MARK_EMPTY then Empty
    else if value == MARK_DELETED then Deleted
    else Live(Fetched(key), Fetched(value), count)
  }

  /** What the arrays say together; without keys the value is the key, and without counts
      every entry counts once. */
  ghost function SlotsOf(vs: seq<Word>, ks: seq<Word>, cs: seq<nat>, hasKeys: bool, hasCounts: bool): (s: seq<Slot>)
    requires (hasKeys ==> |ks| == |vs|) && (hasCounts ==> |cs| == |vs|)
    ensures |s| == |vs|
  {
    seq(|vs|, i requires 0 <= i < |vs| =>
      SlotOf(vs[i], if hasKeys then ks[i] else vs[i], if hasCounts then cs[i] else 1))
  }

  class Table {
    const k: Keys
    const hasKeys: bool
    const hasCounts: bool
    const fastGrow: bool

    var numBucketsIdx: nat
    var usedBuckets: nat
    /** Sixteen bits. */
    var deleted: nat
    /** Two bits: counts of 1, 2, 4 or 8 bytes. */
    var countsWidth: nat
    var values: array<Word>
    var keys: array<Word>
    var counts: array<nat>

    /** The entries, by key identity. */
    ghost var model: map<int, Entry>

    /** The arrays belong together. */
    ghost predicate Shape()
      reads this
    {
      && numBucketsIdx < NUM_SIZES && values.Length == TableSize(numBucketsIdx)
      && values != keys
      && (hasKeys ==> keys.Length == values.Length)
      && (hasCounts ==> counts.Length == values.Length)
      && countsWidth < 4
    }

    function SlotAt(i: nat): Slot
      requires i < values.Length && (hasKeys ==> keys.Length == values.Length)
      requires hasCounts ==> counts.Length == values.Length
      reads this, values, keys, counts
    {
      SlotOf(values[i], if hasKeys then keys[i] else values[i], if hasCounts then counts[i] else 1)
    }

    ghost function Slots(): (s: seq<Slot>)
      requires Shape()
      reads this, values, keys, counts
      ensures |s| == values.Length
      ensures forall i :: 0 <= i < |s| ==> s[i] == SlotAt(i)
    {
      SlotsOf(values[..], keys[..], counts[..], hasKeys, hasCounts)
    }

    /** Free buckets are marked alike in values and keys; counts of entries are positive and fit
        their width, and free buckets have none. */
    ghost predicate ArraysAgree()
      requires Shape()
      reads this, values, keys, counts
    {
      && (hasKeys ==> forall i :: 0 <= i < values.Length ==> SameMark(keys[i], values[i]))
      && (hasCounts ==> forall i :: 0 <= i < counts.Length ==>
            && counts[i] <= MaxCount(countsWidth)
            && (counts[i] > 0 <==> SlotAt(i).Live?))
    }

    /** Everything but the number of freed buckets, which a removal may overrun for a moment. */
    ghost predicate Sound()
      reads this, values, keys, counts
    {
      && Shape() && ArraysAgree()
      && Holds(k, Slots(), model)
      && usedBuckets == Used(Slots(), values.Length)
      && usedBuckets <= TableCapacity(numBucketsIdx)
    }

    ghost predicate Valid()
      reads this, values, keys, counts
    {
      && Sound()
      && deleted == Tombs(Slots(), values.Length) < 0x1_0000
      && FewFreed()
    }

    /** Less than a quarter of the buckets are freed, in a table of 20 or more. */
    predicate FewFreed()
      reads this
    {
      20 <= values.Length ==> deleted < values.Length / 4
    }

    /** From 71 buckets on at least one was never used, so every search ends at the key or at an
        empty bucket: cleaning keeps freed buckets from filling the table. */
    lemma EmptyLeft(key: Word)
      requires Valid() && 71 <= values.Length
      ensures exists steps ::
        && 0 <= steps < values.Length
        && SlotAt(ProbeAt(values.Length, k.Home(key, values.Length), steps)).Empty?
    {
      RoomForFreed(numBucketsIdx);
      hide TableSize, TableCapacity, Holds;
      if forall i :: 0 <= i < values.Length ==> !Slots()[i].Empty? {
        NoneEmpty(Slots(), values.Length);
      }
      var i :| 0 <= i < values.Length && Slots()[i].Empty?;
      var home := k.Home(key, values.Length);
      var steps := if home <= i then i - home else i + values.Length - home;
      assert SlotAt(ProbeAt(values.Length, home, steps)).Empty?;
    }

    /** The arrays are the old ones or new ones. */
    twostate predicate Reallocated()
      reads this
    {
      && (values == old(values) || fresh(values))
      && (keys == old(keys) || fresh(keys))
      && (counts == old(counts) || fresh(counts))
    }

    constructor (k: Keys, hasKeys: bool, hasCounts: bool, fastGrow: bool)
      ensures Valid() && model == map[] && fresh(values) && fresh(keys) && fresh(counts)
      ensures this.k == k && this.hasKeys == hasKeys && this.hasCounts == hasCounts && this.fastGrow == fastGrow
    {
      this.k, this.hasKeys, this.hasCounts, this.fastGrow := k, hasKeys, hasCounts, fastGrow;
      numBucketsIdx, usedBuckets, deleted, countsWidth := 0, 0, 0, 0;
      values, keys, counts := new Word[0], new Word[0], new nat[0];
      model := map[];
      new;
      assert Slots() == [];
    }

    /** What a search returns: the bucket of the key with its count, or the bucket an addition
        should fill with count 0, or no bucket when the table has none to spare. */
    ghost predicate Located(key: Word, idx: int, count: nat)
      requires Shape()
      reads this, values, keys, counts
    {
      if count > 0 then
        0 <= idx < values.Length && SlotAt(idx).Live? && k.Same(SlotAt(idx).key, key) && count == SlotAt(idx).count
      else
        && Absent(k, Slots(), key)
        && (0 <= idx ==> Fillable(key, idx))
        && (usedBuckets < values.Length ==> 0 <= idx)
    }

    /** The first free bucket from the home of the key. */
    ghost predicate Fillable(key: Word, idx: int)
      requires Shape()
      reads this, values, keys, counts
    {
      0 <= idx < values.Length && FirstFree(Slots(), k.Home(key, values.Length), idx)
    }

    /** None of the first `steps` buckets from the home of the key is empty, and `freed` is the
        first freed one among them if there is one. */
    ghost predicate Probed(key: Word, steps: nat, freed: int)
      requires Shape() && values.Length > 0
      reads this, values, keys, counts
    {
      var s, h := Slots(), k.Home(key, values.Length);
      && (forall i :: 0 <= i < |s| && Met(|s|, h, steps, i) ==> !s[i].Empty? && (freed < 0 ==> s[i].Live?))
      && (0 <= freed ==> Fillable(key, freed) && s[freed].Deleted?)
    }

    /** What a bucket says can be told from its key, its count and the marks of the keys. */
    lemma KeyTells(i: nat)
      requires Shape() && ArraysAgree() && i < values.Length
      ensures var currKey := if hasKeys then keys[i] else values[i];
        && (currKey == MARK_EMPTY <==> SlotAt(i).Empty?)
        && (currKey == MARK_DELETED <==> SlotAt(i).Deleted?)
        && (SlotAt(i).Live? ==> SlotAt(i).key == Fetched(currKey) && SlotAt(i).count > 0)
    {
    }

    lemma AllLiveIsFull(key: Word)
      requires Shape() && values.Length > 0 && Probed(key, values.Length, -1)
      ensures Used(Slots(), values.Length) >= values.Length
    {
      if Used(Slots(), values.Length) < values.Length {
        var i := SpareBucket(Slots(), values.Length);
        MetStep(values.Length, k.Home(key, values.Length), 0, i);
      }
    }

    lemma ProbedStep(key: Word, steps: nat, freed: int, freed': int)
      requires Shape() && values.Length > 0 && steps < values.Length && Probed(key, steps, freed)
      requires var p := ProbeAt(values.Length, k.Home(key, values.Length), steps);
        !SlotAt(p).Empty? && freed' == if SlotAt(p).Deleted? && freed < 0 then p else freed
      ensures Probed(key, steps + 1, freed')
    {
      var s, h := Slots(), k.Home(key, values.Length);
      if freed < 0 && !s[ProbeAt(|s|, h, steps)].Live? {
        FirstMet(s, h, steps);
      }
      hide FirstFree;
      forall i | 0 <= i < |s|
        ensures Met(|s|, h, steps + 1, i) <==> Met(|s|, h, steps, i) || i == ProbeAt(|s|, h, steps)
      {
        MetStep(|s|, h, steps, i);
      }
    }

    /** None of the buckets met so far holds the key. */
    ghost predicate Unseen(key: Word, steps: nat)
      requires Shape() && values.Length > 0
      reads this, values, keys, counts
    {
      var s, h := Slots(), k.Home(key, values.Length);
      forall i :: 0 <= i < |s| && Met(|s|, h, steps, i) && s[i].Live? ==> !k.Same(s[i].key, key)
    }

    lemma UnseenStep(key: Word, steps: nat)
      requires Shape() && values.Length > 0 && steps < values.Length && Unseen(key, steps)
      requires var e := SlotAt(ProbeAt(values.Length, k.Home(key, values.Length), steps));
        e.Live? ==> !k.Same(e.key, key)
      ensures Unseen(key, steps + 1)
      ensures steps + 1 == values.Length ==> Absent(k, Slots(), key)
    {
      var s, h := Slots(), k.Home(key, values.Length);
      forall i | 0 <= i < |s|
        ensures Met(|s|, h, steps + 1, i) <==> Met(|s|, h, steps, i) || i == ProbeAt(|s|, h, steps)
        ensures Met(|s|, h, |s|, i)
      {
        MetStep(|s|, h, steps, i);
      }
    }

    /** The linear probe of a search for a key, which looks at the keys where there are some. */
    method FindBucket(key: Word) returns (idx: int, count: nat)
      requires Sound()
      ensures Located(key, idx, count)
    {
      hide Unbroken, FirstFree, Fillable, Probed, Unseen, Findable, Distinct, Abstracts, Absent;
      hide TableSize, TableCapacity;
      idx, count := -1, 0;
      if numBucketsIdx == 0 {
        SizeFacts(0);
        NoBuckets(key);
        return;
      }
      SizeFacts(numBucketsIdx);
      var n := values.Length;
      var probe := k.Home(key, n);
      StartOfProbe(key);
      var freed := -1;
      for steps := 0 to n
        invariant steps < n ==> probe == ProbeAt(n, k.Home(key, n), steps)
        invariant Probed(key, steps, freed) && Unseen(key, steps)
        invariant steps == n ==> Absent(k, Slots(), key)
        invariant freed >= -1
      {
        KeyTells(probe);
        var currKey := if hasKeys then keys[probe] else values[probe];
        if currKey == MARK_EMPTY {
          EmptyBucketFound(key, steps, freed);
          return (if freed == -1 then probe else freed), 0;
        } else if currKey == MARK_DELETED {
          ProbedStep(key, steps, freed, if freed == -1 then probe else freed);
          if freed == -1 {
            freed := probe;
          }
        } else {
          currKey := Fetched(currKey);
          if currKey == key || k.Same(currKey, key) {
            return probe, if hasCounts then counts[probe] else 1;
          }
          ProbedStep(key, steps, freed, freed);
        }
        UnseenStep(key, steps);
        probe := probe + 1;
        if n <= probe {
          probe := probe - n;
        }
      }
      idx := freed;
      if freed == -1 { AllLiveIsFull(key); } else { FreedFillable(key, n, freed); }
    }

    lemma NoBuckets(key: Word)
      requires Shape() && values.Length == 0
      ensures Absent(k, Slots(), key)
    {
    }

    lemma StartOfProbe(key: Word)
      requires Shape() && values.Length > 0
      ensures Probed(key, 0, -1) && Unseen(key, 0)
    {
    }

    lemma LiveCounts(i: nat)
      requires Shape() && ArraysAgree() && i < values.Length && SlotAt(i).Live?
      ensures SlotAt(i).count > 0
    {
    }

    lemma EmptyBucketFound(key: Word, steps: nat, freed: int)
      requires Shape() && Findable(k, Slots()) && values.Length > 0 && steps < values.Length
      requires Probed(key, steps, freed) && Unseen(key, steps)
      requires SlotAt(ProbeAt(values.Length, k.Home(key, values.Length), steps)).Empty?
      ensures Absent(k, Slots(), key)
      ensures Fillable(key, if freed < 0 then ProbeAt(values.Length, k.Home(key, values.Length), steps) else freed)
    {
      EmptyEndsSearch(k, Slots(), key, steps);
      if freed < 0 {
        FirstMet(Slots(), k.Home(key, values.Length), steps);
      }
    }

    lemma FreedFillable(key: Word, steps: nat, freed: int)
      requires Shape() && values.Length > 0 && Probed(key, steps, freed) && 0 <= freed
      ensures Fillable(key, freed)
    {
    }

    /** The search when the key is known to be absent and no bucket is freed: the first empty
        bucket. */
    method FindBucketNoCollision(key: Word) returns (idx: nat)
      requires Shape() && ArraysAgree()
      requires Used(Slots(), values.Length) < values.Length && Tombs(Slots(), values.Length) == 0
      ensures Fillable(key, idx) && SlotAt(idx).Empty?
    {
      hide Unbroken, FirstFree, Probed, TableSize, Used, Tombs, Holds;
      var n := values.Length;
      var probe := k.Home(key, n);
      StartOfProbe(key);
      for steps := 0 to n
        invariant steps < n ==> probe == ProbeAt(n, k.Home(key, n), steps)
        invariant Probed(key, steps, -1)
      {
        KeyTells(probe);
        var currKey := if hasKeys then keys[probe] else values[probe];
        if currKey == MARK_EMPTY {
          EmptyReached(key, steps);
          return probe;
        }
        assert !SlotAt(probe).Deleted? by {
          if SlotAt(probe).Deleted? { TombCounted(probe); }
        }
        ProbedStep(key, steps, -1, -1);
        probe := probe + 1;
        if n <= probe {
          probe := probe - n;
        }
      }
      AllLiveIsFull(key);
      assert false;
    }

    lemma EmptyReached(key: Word, steps: nat)
      requires Shape() && values.Length > 0 && steps < values.Length && Probed(key, steps, -1)
      requires SlotAt(ProbeAt(values.Length, k.Home(key, values.Length), steps)).Empty?
      ensures Fillable(key, ProbeAt(values.Length, k.Home(key, values.Length), steps))
    {
      FirstMet(Slots(), k.Home(key, values.Length), steps);
    }

    /** Stores a word in the values, as a mark when `literal`. */
    method SetValue(idx: nat, stackValue: Word, literal: bool)
      requires idx < values.Length
      modifies values
      ensures values[..] == old(values[..])[idx := if literal then stackValue else Stored(stackValue)]
    {
      values[idx] := if literal then stackValue else Stored(stackValue);
    }

    method SetKey(idx: nat, stackKey: Word, literal: bool)
      requires idx < keys.Length
      modifies keys
      ensures keys[..] == old(keys[..])[idx := if literal then stackKey else Stored(stackKey)]
    {
      keys[idx] := if literal then stackKey else Stored(stackKey);
    }

    ghost predicate CountsInWidth()
      reads this, counts
    {
      countsWidth < 4 && forall i :: 0 <= i < counts.Length ==> counts[i] <= MaxCount(countsWidth)
    }

    /** Moves the counts to an array of the next width. */
    method BumpCounts()
      requires CountsInWidth() && countsWidth < 3
      modifies this`counts, this`countsWidth
      ensures countsWidth == old(countsWidth) + 1 && CountsInWidth()
      ensures fresh(counts) && counts[..] == old(counts[..])
    {
      var wider := new nat[counts.Length];
      for idx2 := 0 to counts.Length
        modifies wider
        invariant wider[..idx2] == counts[..idx2]
      {
        wider[idx2] := counts[idx2];
      }
      countsWidth := countsWidth + 1;
      counts := wider;
    }

    /** Adds one to a count, widening the array first as often as that takes. */
    method IncSlotCount(idx: nat)
      requires CountsInWidth() && idx < counts.Length && counts[idx] < LONG_MAX
      modifies this`counts, this`countsWidth, counts
      ensures CountsInWidth() && (counts == old(counts) || fresh(counts))
      ensures counts[..] == old(counts[..])[idx := old(counts[idx]) + 1]
      decreases 4 - countsWidth
    {
      if counts[idx] < MaxCount(countsWidth) {
        counts[idx] := counts[idx] + 1;
        return;
      }
      BumpCounts();
      IncSlotCount(idx);
    }

    method DecSlotCount(idx: nat)
      requires idx < counts.Length && counts[idx] > 0
      modifies counts
      ensures counts[..] == old(counts[..])[idx := old(counts[idx]) - 1]
    {
      counts[idx] := counts[idx] - 1;
    }

    /** Writes value and key of a bucket, as the marks they are when `literal`. */
    method SetEntry(idx: nat, key: Word, value: Word, literal: bool)
      requires Shape() && idx < values.Length
      modifies values, keys
      ensures values[..] == old(values[..])[idx := if literal then value else Stored(value)]
      ensures hasKeys ==> keys[..] == old(keys[..])[idx := if literal then key else Stored(key)]
    {
      SetValue(idx, value, literal);
      if hasKeys {
        SetKey(idx, key, literal);
      }
    }

    /** Puts an entry into a free bucket and copies its count. */
    method Reinsert(idx: nat, key: Word, value: Word, count: nat)
      requires Shape() && ArraysAgree() && idx < values.Length && !SlotAt(idx).Live?
      requires Storable(key) && Storable(value) && (!hasKeys ==> key == value)
      requires 0 < count <= MaxCount(countsWidth) && (!hasCounts ==> count == 1)
      modifies values, keys, counts
      ensures Shape() && ArraysAgree()
      ensures Slots() == old(Slots())[idx := Live(key, value, count)]
    {
      hide Stored, Fetched, Storable, TableSize;
      StoredFetched(key);
      StoredFetched(value);
      SetEntry(idx, key, value, false);
      if hasCounts {
        counts[idx] := count;
      }
      assert forall i :: 0 <= i < values.Length && i != idx ==> SlotAt(i) == old(SlotAt(i));
    }

    /** Puts a new entry into a free bucket and raises its count from 0. */
    method StoreNew(idx: nat, key: Word, value: Word)
      requires Shape() && ArraysAgree() && idx < values.Length && !SlotAt(idx).Live?
      requires Storable(key) && Storable(value) && (!hasKeys ==> key == value)
      modifies this`counts, this`countsWidth, values, keys, counts
      ensures Shape() && ArraysAgree() && (counts == old(counts) || fresh(counts))
      ensures Slots() == old(Slots())[idx := Live(key, value, 1)]
    {
      hide Stored, Fetched, Storable, TableSize;
      StoredFetched(key);
      StoredFetched(value);
      SetEntry(idx, key, value, false);
      if hasCounts {
        IncSlotCount(idx);
      }
      assert forall i :: 0 <= i < values.Length && i != idx ==> SlotAt(i) == old(SlotAt(i));
    }

    /** The table index a rehash for `newItemCount` more entries chooses. */
    method NewBucketsIndex(newItemCount: int) returns (idx: nat)
      requires numBucketsIdx < NUM_SIZES && usedBuckets <= TableCapacity(numBucketsIdx)
      requires HasRoom(newItemCount)
      ensures idx < NUM_SIZES && usedBuckets <= TableCapacity(idx)
      ensures newItemCount > 0 ==> usedBuckets + newItemCount <= TableCapacity(idx)
      ensures newItemCount == 0 ==> idx == numBucketsIdx
    {
      hide TableCapacity, TableSize;
      idx := numBucketsIdx;
      if newItemCount != 0 {
        var newItems := if newItemCount < 0 then 0 else newItemCount;
        SizeFacts(NUM_SIZES - 2);
        SizeFacts(numBucketsIdx);
        idx := GetNumBucketsIndexForCapacity(usedBuckets + newItems);
        if newItemCount == 1 && fastGrow {
          SizeFacts(idx);
          idx := idx + 1;
        }
      }
    }

    /** Some table admits `newItemCount` more entries, and one more when growing fast. */
    predicate HasRoom(newItemCount: int)
      reads this
    {
      usedBuckets + newItemCount <=
        if newItemCount == 1 && fastGrow then TableCapacity(NUM_SIZES - 2) else MAX_CAPACITY
    }

    /** New arrays of the size with index `newIdx`, all buckets never used. */
    method AllocateBuckets(newIdx: nat)
      requires newIdx < NUM_SIZES && countsWidth < 4
      modifies this`numBucketsIdx, this`deleted, this`values, this`keys, this`counts
      ensures Shape() && ArraysAgree() && numBucketsIdx == newIdx && deleted == 0
      ensures fresh(values) && fresh(keys) && fresh(counts)
      ensures forall i :: 0 <= i < values.Length ==> Slots()[i].Empty?
    {
      hide TableSize;
      var newNumBuckets := TableSize(newIdx);
      values := new Word[newNumBuckets](_ => MARK_EMPTY);
      keys := new Word[newNumBuckets](_ => MARK_EMPTY);
      counts := new nat[newNumBuckets](_ => 0);
      numBucketsIdx := newIdx;
      deleted := 0;
    }

    /** The loop of a rehash: each live bucket of the old arrays goes to the first free bucket
        from its home. */
    method MoveBuckets(oldValues: array<Word>, oldKeys: array<Word>, oldCounts: array<nat>, ghost from: seq<Slot>)
      returns (ghost part: map<int, Entry>)
      requires Shape() && ArraysAgree() && forall i :: 0 <= i < values.Length ==> Slots()[i].Empty?
      requires oldValues != values && oldValues != keys && oldKeys != values && oldKeys != keys && oldCounts != counts
      requires (hasKeys ==> oldKeys.Length == oldValues.Length) && (hasCounts ==> oldCounts.Length == oldValues.Length)
      requires from == SlotsOf(oldValues[..], oldKeys[..], oldCounts[..], hasKeys, hasCounts)
      requires Distinct(k, from) && Used(from, |from|) <= values.Length
      requires hasCounts ==> forall i :: 0 <= i < |from| && from[i].Live? ==> 0 < from[i].count <= MaxCount(countsWidth)
      modifies values, keys, counts
      ensures Shape() && ArraysAgree()
      ensures Moved(k, from, |from|, Slots(), part)
    {
      hide Moved, Distinct, FirstFree, TableSize, Used;
      part := map[];
      MoveStart(k, from, Slots());
      for idx := 0 to oldValues.Length
        invariant Shape() && ArraysAgree()
        invariant Moved(k, from, idx, Slots(), part)
        invariant from == SlotsOf(oldValues[..], oldKeys[..], oldCounts[..], hasKeys, hasCounts)
      {
        var slot := SlotOf(oldValues[idx], if hasKeys then oldKeys[idx] else oldValues[idx],
                           if hasCounts then oldCounts[idx] else 1);
        assert slot == from[idx];
        match slot {
          case Live(key, value, count) =>
            MoveHasRoom(k, from, idx, Slots(), part);
            var bktIdx := FindBucketNoCollision(key);
            MoveEntry(k, from, idx, Slots(), part, bktIdx);
            Reinsert(bktIdx, key, value, count);
            part := part[k.ident(key) := Entry(key, value, count)];
          case Empty => MoveNothing(k, from, idx, Slots(), part);
          case Deleted => MoveNothing(k, from, idx, Slots(), part);
        }
      }
    }

    /** Moves all entries to new arrays. The old ones may hold any number of freed buckets. */
    method Rehash(newItemCount: int)
      requires Sound() && HasRoom(newItemCount)
      modifies this`numBucketsIdx, this`deleted, this`values, this`keys, this`counts
      ensures Valid() && deleted == 0
      ensures fresh(values) && fresh(keys) && fresh(counts)
      ensures newItemCount > 0 ==> usedBuckets + newItemCount <= TableCapacity(numBucketsIdx)
      ensures newItemCount == 0 ==> numBucketsIdx == old(numBucketsIdx)
    {
      hide TableSize, TableCapacity, Distinct, Findable, Abstracts, Used;
      var newIdx := NewBucketsIndex(newItemCount);
      SizeFacts(newIdx);
      var oldValues, oldKeys, oldCounts := values, keys, counts;
      ghost var from := Slots();
      AllocateBuckets(newIdx);
      ghost var part := MoveBuckets(oldValues, oldKeys, oldCounts, from);
      MovedAll(k, from, Slots(), part, model);
    }

    /** A bucket for an absent key: after growing the table when it is at capacity, otherwise
        the one its search returned. Freed buckets are counted as if it were filled already. */
    method MakeRoom(bktIdx: int, key: Word) returns (idx: nat)
      requires Valid() && HasRoom(1) && Absent(k, Slots(), key)
      requires usedBuckets < TableCapacity(numBucketsIdx) ==> Fillable(key, bktIdx)
      modifies this`numBucketsIdx, this`deleted, this`values, this`keys, this`counts
      ensures Sound() && Reallocated() && FewFreed()
      ensures Absent(k, Slots(), key) && Fillable(key, idx)
      ensures usedBuckets < TableCapacity(numBucketsIdx)
      ensures deleted + (if SlotAt(idx).Deleted? then 1 else 0) == Tombs(Slots(), values.Length) < 0x1_0000
    {
      hide Holds, Absent, Unbroken, TableSize, TableCapacity, Used, Tombs;
      if TableCapacity(numBucketsIdx) < usedBuckets + 1 {
        StillAbsent(key);
        Rehash(1);
        SizeFacts(numBucketsIdx);
        NowAbsent(key);
        idx := FindBucketNoCollision(key);
        if SlotAt(idx).Deleted? {
          TombCounted(idx);
        }
      } else {
        idx := bktIdx;
        if SlotAt(idx).Deleted? {
          TombCounted(idx);
          deleted := deleted - 1;
        }
      }
    }

    /** Adds an entry for an absent key in the bucket a search for it returned. */
    method AddAt(bktIdx: int, key: Word, value: Word)
      requires Valid() && HasRoom(1)
      requires Storable(key) && Storable(value) && (!hasKeys ==> key == value)
      requires Absent(k, Slots(), key)
      requires usedBuckets < TableCapacity(numBucketsIdx) ==> Fillable(key, bktIdx)
      modifies this, values, keys, counts
      ensures Valid() && Reallocated()
      ensures model == old(model)[k.ident(key) := Entry(key, value, 1)]
    {
      hide SameMark, Stored, Fetched, MaxCount, Holds, Absent, Unbroken, TableSize, TableCapacity, Used, Tombs;
      var idx := MakeRoom(bktIdx, key);
      HoldsFilled(k, Slots(), model, idx, Live(key, value, 1));
      StoreNew(idx, key, value);
      usedBuckets := usedBuckets + 1;
      model := model[k.ident(key) := Entry(key, value, 1)];
    }

    lemma StillAbsent(key: Word)
      requires Sound() && Absent(k, Slots(), key)
      ensures k.ident(key) !in model
    {
      AbsentIffUnmapped(k, Slots(), model, key);
    }

    lemma NowAbsent(key: Word)
      requires Sound() && k.ident(key) !in model
      ensures Absent(k, Slots(), key)
    {
      AbsentIffUnmapped(k, Slots(), model, key);
    }

    lemma TombCounted(i: nat)
      requires Shape() && i < values.Length && SlotAt(i).Deleted?
      ensures Tombs(Slots(), values.Length) > 0
    {
      TombAt(Slots(), i, values.Length);
    }

    /** Marks the bucket of an entry with count 1 as freed. */
    method FreeBucket(idx: nat)
      requires Shape() && ArraysAgree() && idx < values.Length && SlotAt(idx).Live? && SlotAt(idx).count == 1
      modifies values, keys, counts
      ensures Shape() && ArraysAgree() && Slots() == old(Slots())[idx := Deleted]
    {
      hide Fetched, TableSize;
      SetEntry(idx, MARK_DELETED, MARK_DELETED, true);
      if hasCounts {
        DecSlotCount(idx);
      }
      assert forall i :: 0 <= i < values.Length && i != idx ==> SlotAt(i) == old(SlotAt(i));
    }

    /** Whether a removal leaves the table so empty that it should shrink. */
    predicate TooEmpty()
      requires numBucketsIdx < NUM_SIZES
      reads this
    {
      if fastGrow then 5 < numBucketsIdx && usedBuckets < TableCapacity(numBucketsIdx - 5)
      else 2 < numBucketsIdx && usedBuckets < TableCapacity(numBucketsIdx - 2)
    }

    /** Removes the entry in a bucket, whose count is 1, and counts the freed bucket in sixteen
        bits. */
    method DropEntry(bktIdx: nat)
      requires Valid() && bktIdx < values.Length && SlotAt(bktIdx).Live? && SlotAt(bktIdx).count == 1
      modifies this`usedBuckets, this`deleted, this`model, values, keys, counts
      ensures Sound() && usedBuckets < old(usedBuckets)
      ensures model == old(model) - {k.ident(old(SlotAt(bktIdx).key))}
      ensures deleted == (old(deleted) + 1) % 0x1_0000 && Tombs(Slots(), values.Length) == old(deleted) + 1
    {
      hide SameMark, Stored, Holds, TableSize, TableCapacity, Used, Tombs;
      HoldsDeleted(k, Slots(), model, bktIdx);
      model := model - {k.ident(SlotAt(bktIdx).key)};
      FreeBucket(bktIdx);
      usedBuckets := usedBuckets - 1;
      deleted := (deleted + 1) % 0x1_0000;
    }

    /** Removes the entry in a bucket; the table then shrinks when it is too empty, and is
        cleaned when the sixteen-bit number of freed buckets overruns or a quarter of the buckets
        are freed. */
    method RemoveAt(bktIdx: nat)
      requires Valid() && bktIdx < values.Length && SlotAt(bktIdx).Live? && SlotAt(bktIdx).count == 1
      modifies this, values, keys, counts
      ensures Valid() && Reallocated()
      ensures model == old(model) - {k.ident(old(SlotAt(bktIdx).key))}
    {
      hide Holds, ArraysAgree, TableSize, TableCapacity, Used, Tombs;
      SizeFacts(numBucketsIdx);
      DropEntry(bktIdx);
      var doShrink := TooEmpty();
      if doShrink {
        Rehash(-1);
        return;
      }
      doShrink := deleted == 0;
      var numBuckets := TableSize(numBucketsIdx);
      doShrink := doShrink || (20 <= numBuckets && numBuckets / 4 <= deleted);
      if doShrink {
        Rehash(0);
      }
    }

    /** Overwrites the entry of an equal key. */
    method ReplaceAt(bktIdx: nat, key: Word, value: Word)
      requires Valid() && bktIdx < values.Length && SlotAt(bktIdx).Live? && k.Same(SlotAt(bktIdx).key, key)
      requires Storable(key) && Storable(value) && (!hasKeys ==> key == value)
      modifies this`model, values, keys
      ensures Valid()
      ensures model == old(model)[k.ident(key) := Entry(key, value, old(SlotAt(bktIdx).count))]
    {
      hide Holds, TableSize, TableCapacity, Used, Tombs;
      var e := Live(key, value, SlotAt(bktIdx).count);
      HoldsChanged(k, Slots(), model, bktIdx, e);
      OverwriteBucket(bktIdx, key, value);
      model := model[k.ident(key) := EntryOf(e)];
    }

    method OverwriteBucket(idx: nat, key: Word, value: Word)
      requires Shape() && ArraysAgree() && idx < values.Length && SlotAt(idx).Live?
      requires Storable(key) && Storable(value) && (!hasKeys ==> key == value)
      modifies values, keys
      ensures Shape() && ArraysAgree()
      ensures Slots() == old(Slots())[idx := Live(key, value, old(SlotAt(idx).count))]
    {
      hide Stored, Fetched, Storable, TableSize;
      StoredFetched(key);
      StoredFetched(value);
      SetEntry(idx, key, value, false);
      assert forall i :: 0 <= i < values.Length && i != idx ==> SlotAt(i) == old(SlotAt(i));
    }

    /** Raises or lowers the count of an entry that keeps a positive count. */
    method Recount(idx: nat, up: bool)
      requires Valid() && hasCounts && idx < values.Length && SlotAt(idx).Live?
      requires if up then SlotAt(idx).count < LONG_MAX else 1 < SlotAt(idx).count
      modifies this`counts, this`countsWidth, this`model, counts
      ensures Valid() && (counts == old(counts) || fresh(counts))
      ensures var e := old(EntryOf(SlotAt(idx)));
        model == old(model)[k.ident(e.key) := e.(count := if up then e.count + 1 else e.count - 1)]
    {
      hide Holds, TableSize, TableCapacity, Used, Tombs;
      var slot := SlotAt(idx);
      var e := Live(slot.key, slot.value, if up then slot.count + 1 else slot.count - 1);
      HoldsChanged(k, Slots(), model, idx, e);
      RecountBucket(idx, up);
      model := model[k.ident(e.key) := EntryOf(e)];
    }

    method RecountBucket(idx: nat, up: bool)
      requires Shape() && ArraysAgree() && hasCounts && idx < values.Length && SlotAt(idx).Live?
      requires if up then SlotAt(idx).count < LONG_MAX else 1 < SlotAt(idx).count
      modifies this`counts, this`countsWidth, counts
      ensures Shape() && ArraysAgree() && (counts == old(counts) || fresh(counts))
      ensures var slot := old(SlotAt(idx));
        Slots() == old(Slots())[idx := slot.(count := if up then slot.count + 1 else slot.count - 1)]
    {
      hide Fetched, TableSize;
      if up {
        IncSlotCount(idx);
      } else {
        DecSlotCount(idx);
      }
      assert forall i :: 0 <= i < values.Length && i != idx ==> SlotAt(i) == old(SlotAt(i));
    }

    /** Stores a new value in a bucket in use. */
    method Renumber(idx: nat, value: Word)
      requires Shape() && ArraysAgree() && hasKeys && idx < values.Length && SlotAt(idx).Live?
      modifies values
      ensures Shape() && ArraysAgree()
      ensures Slots() == old(Slots())[idx := old(SlotAt(idx)).(value := Fetched(Stored(value)))]
    {
      hide Fetched, Stored, TableSize;
      StoredFetched(value);
      SetValue(idx, value, false);
      assert forall i :: 0 <= i < values.Length && i != idx ==> SlotAt(i) == old(SlotAt(i));
    }

    /** The renumbering loop of AddIntValueAndInc: values from `pivot` on move up by one, and the
        largest word wraps around. */
    method RaiseValues(pivot: Word)
      requires Valid() && hasKeys
      modifies this`model, values
      ensures Valid() && model == Renumbered(old(model), pivot, true)
      ensures forall key, i :: old(Fillable(key, i)) ==> Fillable(key, i)
    {
      hide Fetched, Stored, SameMark, Holds, TableSize, TableCapacity, Used, Tombs, FirstFree;
      ghost var from := Slots();
      for idx := 0 to values.Length
        modifies values
        invariant Shape() && ArraysAgree() && ShiftedFirst(from, Slots(), idx, pivot, true)
      {
        match SlotAt(idx) {
          case Live(_, value, _) =>
            if pivot <= value {
              Renumber(idx, (value + 1) % TWO_64);
            }
          case Empty =>
          case Deleted =>
        }
      }
      HoldsRenumbered(k, from, Slots(), model, pivot, true);
      forall key, i | old(Fillable(key, i))
        ensures Fillable(key, i)
      {
        StillFirst(from, Slots(), k.Home(key, values.Length), i);
      }
      model := Renumbered(model, pivot, true);
    }

    /** What a caller may pass as a key and a value. */
    predicate Acceptable(key: Word, value: Word) {
      Storable(key) && Storable(value) && (!hasKeys ==> key == value)
    }

    /** The search tells whether the map has an entry for the key. */
    lemma LocatedInModel(key: Word, idx: int, count: nat)
      requires Sound() && Located(key, idx, count)
      ensures count > 0 <==> k.ident(key) in model
      ensures count > 0 ==> model[k.ident(key)] == EntryOf(SlotAt(idx))
      ensures count > 0 ==> model[k.ident(key)].count == count && (!hasCounts ==> count == 1)
      ensures count == 0 && usedBuckets < TableCapacity(numBucketsIdx) ==> Fillable(key, idx)
    {
      hide TableSize, TableCapacity, Unbroken;
      SizeFacts(numBucketsIdx);
      AbsentIffUnmapped(k, Slots(), model, key);
    }

    /** Adds an entry; for a key that is there, a table with counts counts it once more, up to
        the largest count, and a table without keeps what it has. */
    method AddValue(key: Word, value: Word) returns (added: bool)
      requires Valid() && Acceptable(key, value) && (k.ident(key) !in model ==> HasRoom(1))
      modifies this, values, keys, counts
      ensures Valid() && Reallocated()
      ensures k.ident(key) !in old(model) ==>
        added && model == old(model)[k.ident(key) := Entry(key, value, 1)]
      ensures k.ident(key) in old(model) ==>
        var e := old(model)[k.ident(key)];
        && added == (hasCounts && e.count < LONG_MAX)
        && model == if added then old(model)[k.ident(key) := e.(count := e.count + 1)] else old(model)
    {
      hide Holds, TableSize, TableCapacity, Used, Tombs, Fillable, Absent;
      var idx, count := FindBucket(key);
      LocatedInModel(key, idx, count);
      if 0 < count {
        if hasCounts && count < LONG_MAX {
          Recount(idx, true);
          return true;
        }
        return false;
      }
      AddAt(idx, key, value);
      added := true;
    }

    /** Replaces the entry of a key that is there. */
    method ReplaceValue(key: Word, value: Word)
      requires Valid() && Acceptable(key, value)
      modifies this`model, values, keys
      ensures Valid()
      ensures model == if k.ident(key) in old(model)
        then old(model)[k.ident(key) := Entry(key, value, old(model)[k.ident(key)].count)] else old(model)
    {
      hide Holds, TableSize, TableCapacity, Used, Tombs, Fillable, Absent;
      var idx, count := FindBucket(key);
      LocatedInModel(key, idx, count);
      if 0 < count {
        ReplaceAt(idx, key, value);
      }
    }

    /** Replaces the entry of a key that is there, and adds one otherwise. */
    method PutValue(key: Word, value: Word)
      requires Valid() && Acceptable(key, value) && (k.ident(key) !in model ==> HasRoom(1))
      modifies this, values, keys, counts
      ensures Valid() && Reallocated()
      ensures model == old(model)[k.ident(key) :=
        Entry(key, value, if k.ident(key) in old(model) then old(model)[k.ident(key)].count else 1)]
    {
      hide Holds, TableSize, TableCapacity, Used, Tombs, Fillable, Absent;
      var idx, count := FindBucket(key);
      LocatedInModel(key, idx, count);
      if 0 < count {
        ReplaceAt(idx, key, value);
      } else {
        AddAt(idx, key, value);
      }
    }

    /** Takes one occurrence of a key away, and its entry with the last; a count at its
        largest stays. The result is the count before. */
    method RemoveValue(key: Word) returns (count: nat)
      requires Valid()
      modifies this, values, keys, counts
      ensures Valid() && Reallocated()
      ensures count == if Storable(key) && k.ident(key) in old(model) then old(model)[k.ident(key)].count else 0
      ensures model ==
        if count == 0 || count == LONG_MAX then old(model)
        else if count == 1 then old(model) - {k.ident(key)}
        else old(model)[k.ident(key) := old(model)[k.ident(key)].(count := count - 1)]
    {
      hide Holds, TableSize, TableCapacity, Used, Tombs, Fillable, Absent;
      if key == SUB_ZERO || key == SUB_ONE {
        return 0;
      }
      var idx;
      idx, count := FindBucket(key);
      LocatedInModel(key, idx, count);
      if 1 < count {
        if hasCounts && count < LONG_MAX {
          Recount(idx, false);
        }
      } else if 0 < count {
        RemoveAt(idx);
      }
      if count >= LONG_MAX { CountBound(idx); }
    }

    lemma CountBound(i: nat)
      requires Shape() && ArraysAgree() && i < values.Length
      ensures SlotAt(i).Live? ==> SlotAt(i).count <= LONG_MAX
    {
    }

    /** Adds a key with a number, first making room for it among the numbers already given. A
        table at capacity is rehashed before anything is renumbered. */
    method AddIntValueAndInc(key: Word, intValue: Word) returns (added: bool)
      requires Valid() && hasKeys && Acceptable(key, intValue)
      requires k.ident(key) !in model ==> HasRoom(1)
      modifies this, values, keys, counts
      ensures Valid() && Reallocated()
      ensures added <==> k.ident(key) !in old(model)
      ensures model ==
        if added then Renumbered(old(model), intValue, true)[k.ident(key) := Entry(key, intValue, 1)] else old(model)
    {
      hide Holds, TableSize, TableCapacity, Used, Tombs, Fillable, Absent, Shifted;
      var idx, count := FindBucket(key);
      LocatedInModel(key, idx, count);
      if 0 < count {
        return false;
      }
      if TableCapacity(numBucketsIdx) < usedBuckets + 1 {
        Rehash(1);
        SizeFacts(numBucketsIdx);
        idx := FindBucketNoCollision(key);
      }
      RaiseValues(intValue);
      NowAbsent(key);
      AddAt(idx, key, intValue);
      added := true;
    }

    /** The renumbering loop of RemoveIntValueAndDec: values above `pivot` move down by one. The
        last bucket that holds `pivot` itself is returned. */
    method LowerValues(pivot: Word) returns (bktIdx: nat)
      requires Valid() && hasKeys
      requires exists r :: r in model && model[r].value == pivot
      modifies this`model, values
      ensures Valid() && model == Renumbered(old(model), pivot, false)
      ensures bktIdx < values.Length && SlotAt(bktIdx).Live?
      ensures var r := k.ident(SlotAt(bktIdx).key);
        r in old(model) && old(model)[r].value == pivot && old(model)[r].count == SlotAt(bktIdx).count
    {
      hide Fetched, Stored, SameMark, Holds, TableSize, TableCapacity, Used, Tombs;
      ghost var from := Slots();
      var found := -1;
      for idx := 0 to values.Length
        modifies values
        invariant Shape() && ArraysAgree() && ShiftedFirst(from, Slots(), idx, pivot, false)
        invariant -1 <= found < idx
        invariant 0 <= found ==> from[found].Live? && from[found].value == pivot
        invariant found < 0 ==> forall i :: 0 <= i < idx && from[i].Live? ==> from[i].value != pivot
      {
        match SlotAt(idx) {
          case Live(_, value, _) =>
            if pivot == value {
              found := idx;
            }
            if pivot < value {
              Renumber(idx, value - 1);
            }
          case Empty =>
          case Deleted =>
        }
      }
      ValueStored(k, from, model, pivot);
      HoldsRenumbered(k, from, Slots(), model, pivot, false);
      SlotInModel(k, from, model, found);
      model := Renumbered(model, pivot, false);
      bktIdx := found;
    }

    /** Takes the key with a number away and closes the gap it leaves. */
    method RemoveIntValueAndDec(intValue: Word) returns (ghost r: int)
      requires Valid() && hasKeys
      requires exists q :: q in model && model[q].value == intValue
      requires forall q :: q in model && model[q].value == intValue ==> model[q].count == 1
      modifies this, values, keys, counts
      ensures Valid() && Reallocated()
      ensures r in old(model) && old(model)[r].value == intValue
      ensures model == Renumbered(old(model), intValue, false) - {r}
    {
      hide Holds, TableSize, TableCapacity, Used, Tombs, Shifted;
      var bktIdx := LowerValues(intValue);
      r := k.ident(SlotAt(bktIdx).key);
      RemoveAt(bktIdx);
    }

    /** No value of a table is a stand-in, and without counts every entry counts once. */
    lemma ModelReadable()
      requires Sound()
      ensures Readable(model)
      ensures !hasCounts ==> forall r :: r in model ==> model[r].count == 1
    {
      forall r | r in model
        ensures Storable(model[r].value) && (!hasCounts ==> model[r].count == 1)
      {
        var i :| 0 <= i < values.Length && Slots()[i].Live? && k.ident(Slots()[i].key) == r;
      }
    }

    /** Lets go of all buckets. */
    method RemoveAllValues()
      requires Valid()
      modifies this
      ensures Valid() && Reallocated() && model == map[]
    {
      hide TableSize, TableCapacity;
      SizeFacts(0);
      if numBucketsIdx == 0 {
        NoEntries();
        return;
      }
      AllocateBuckets(0);
      usedBuckets := 0;
      model := map[];
      MoveStart(k, Slots(), Slots());
    }

    lemma NoEntries()
      requires Sound() && values.Length == 0
      ensures model == map[]
    {
      UsedIsSize(k, Slots(), model);
    }

    /** Makes room for `capacity` entries in all; it may also leave fewer buckets than before. */
    method SetCapacity(capacity: nat)
      requires Valid() && HasRoom(capacity - usedBuckets)
      modifies this`numBucketsIdx, this`deleted, this`values, this`keys, this`counts
      ensures Valid() && Reallocated()
      ensures usedBuckets < capacity ==> capacity <= TableCapacity(numBucketsIdx) && deleted == 0
    {
      if usedBuckets < capacity {
        Rehash(capacity - usedBuckets);
      }
    }

    /** The number of entries, or the sum of their counts in a signed 64-bit word. */
    method GetCount() returns (total: int)
      requires Valid()
      ensures total == AsIndex(|Bag(k, Slots(), values.Length)|)
      ensures total == |Bag(k, Slots(), values.Length)| <==> |Bag(k, Slots(), values.Length)| < TWO_63
      ensures !hasCounts ==> total == |model| == |Bag(k, Slots(), values.Length)|
    {
      hide TableSize, TableCapacity, Findable, Abstracts, Unbroken, AsIndex;
      TotalIsBagSize(k, Slots(), values.Length);
      IndexRight(|Bag(k, Slots(), values.Length)|);
      UsedIsSize(k, Slots(), model);
      if hasCounts {
        total := 0;
        for idx := 0 to values.Length
          invariant total == AsIndex(Total(Slots(), idx))
        {
          AsIndexAdd(Total(Slots(), idx), counts[idx]);
          total := AsIndex(total + counts[idx]);
        }
      } else {
        SizeFacts(numBucketsIdx);
        TotalOfOnes(Slots(), values.Length);
        total := usedBuckets;
      }
    }

    lemma IndexRight(n: nat)
      ensures AsIndex(n) == n <==> n < TWO_63
    {
    }

    lemma CountsPositive()
      requires Valid()
      ensures forall r :: r in model ==> model[r].count > 0
    {
      forall r | r in model
        ensures model[r].count > 0
      {
        var i :| 0 <= i < values.Length && Slots()[i].Live? && k.ident(Slots()[i].key) == r;
        LiveCounts(i);
      }
    }

    method ValueAt(idx: nat) returns (value: Word)
      requires Shape() && idx < values.Length && SlotAt(idx).Live?
      ensures value == SlotAt(idx).value
    {
      value := Fetched(values[idx]);
    }

    /** The entry in a bucket has an equal one in the other table. */
    ghost predicate Matched(other: Table, i: nat, sameValue: (Word, Word) -> bool)
      requires Shape() && i < values.Length && SlotAt(i).Live?
      reads this, values, keys, counts, other
    {
      EntryMatches(EntryOf(SlotAt(i)), k.ident(SlotAt(i).key), other.model, hasKeys, sameValue)
    }

    lemma MatchedMeans(other: Table, i: nat, sameValue: (Word, Word) -> bool)
      requires Sound() && i < values.Length && SlotAt(i).Live?
      ensures var e, r := EntryOf(SlotAt(i)), k.ident(SlotAt(i).key);
        Matched(other, i, sameValue) <==>
        && r in other.model && e.count == other.model[r].count
        && (hasKeys ==> e.value == other.model[r].value || sameValue(e.value, other.model[r].value))
    {
      SlotInModel(k, Slots(), model, i);
    }

    /** The number of occurrences in a table. */
    ghost function Occurrences(): nat
      requires Shape()
      reads this, values, keys, counts
    {
      |Bag(k, Slots(), values.Length)|
    }

    /** The entries of the map are matched exactly when those of all buckets are. */
    lemma BucketsMatched(other: Table, sameValue: (Word, Word) -> bool)
      requires Sound()
      ensures AllMatched(model, other.model, hasKeys, sameValue) <==>
        forall i :: 0 <= i < values.Length && SlotAt(i).Live? ==> Matched(other, i, sameValue)
    {
      hide TableSize, TableCapacity, Used, Tombs, Findable, EntryMatches;
      forall i | 0 <= i < values.Length && SlotAt(i).Live?
        ensures k.ident(SlotAt(i).key) in model && model[k.ident(SlotAt(i).key)] == EntryOf(SlotAt(i))
      {
        SlotInModel(k, Slots(), model, i);
      }
      if forall i :: 0 <= i < values.Length && SlotAt(i).Live? ==> Matched(other, i, sameValue) {
        forall r | r in model
          ensures EntryMatches(model[r], r, other.model, hasKeys, sameValue)
        {
          var i :| 0 <= i < values.Length && Slots()[i].Live? && k.ident(Slots()[i].key) == r;
          assert Matched(other, i, sameValue);
        }
      }
    }

    /** Two tables are equal exactly when the true totals are and every entry is matched. */
    lemma EqualMeans(other: Table, sameValue: (Word, Word) -> bool)
      requires Valid() && other.Valid() && k == other.k
      ensures EqualEntries(model, other.model, hasKeys, sameValue) <==>
        Occurrences() == other.Occurrences() && AllMatched(model, other.model, hasKeys, sameValue)
      ensures Occurrences() == 0 ==> AllMatched(model, other.model, hasKeys, sameValue)
    {
      hide Holds, TableSize, TableCapacity, Used, Tombs, Bag, EqualEntries;
      CountsPositive();
      other.CountsPositive();
      MatchedFromOneSide(k, Slots(), model, other.Slots(), other.model, hasKeys, sameValue);
      if Occurrences() == 0 { EmptyBag(k, Slots(), model); }
    }

    /** The step applied to each entry: look its key up in the other table and compare. */
    method MatchesIn(other: Table, idx: nat, sameValue: (Word, Word) -> bool) returns (matched: bool)
      requires Valid() && other.Valid() && k == other.k && idx < values.Length && SlotAt(idx).Live?
      ensures matched <==> Matched(other, idx, sameValue)
    {
      hide Holds, TableSize, TableCapacity, Used, Tombs, EqualEntries, EntryMatches;
      var slot := SlotAt(idx);
      var idx2, count2 := other.FindBucket(slot.key);
      other.LocatedInModel(slot.key, idx2, count2);
      LiveCounts(idx);
      MatchedMeans(other, idx, sameValue);
      if slot.count != count2 {
        return false;
      }
      if hasKeys {
        var value2 := other.ValueAt(idx2);
        if slot.value != value2 && !sameValue(slot.value, value2) {
          return false;
        }
      }
      matched := true;
    }

    /** Applies the step to each entry until one fails or as many as there are have been met. */
    method ApplyMatches(other: Table, sameValue: (Word, Word) -> bool) returns (all: bool)
      requires Valid() && other.Valid() && k == other.k
      ensures all <==> forall i :: 0 <= i < values.Length && SlotAt(i).Live? ==> Matched(other, i, sameValue)
    {
      hide Holds, TableSize, TableCapacity, Used, Tombs, Matched, ArraysAgree;
      var used, idx := usedBuckets, 0;
      while 0 < used && idx < values.Length
        invariant idx <= values.Length && used + Used(Slots(), idx) == usedBuckets
        invariant forall i :: 0 <= i < idx && SlotAt(i).Live? ==> Matched(other, i, sameValue)
      {
        UsedStep(Slots(), idx);
        match SlotAt(idx) {
          case Live(_, _, _) =>
            var matched := MatchesIn(other, idx, sameValue);
            if !matched {
              return false;
            }
            used := used - 1;
          case Empty =>
          case Deleted =>
        }
        idx := idx + 1;
      }
      UsedGrows(Slots(), idx, values.Length);
      forall i | idx <= i < values.Length
        ensures !SlotAt(i).Live?
      {
        AllMet(Slots(), idx, i);
      }
      all := true;
    }

    /** Whether two tables are equal: the totals are compared, and then only the buckets of the
        first table are looked up in the second. The answer is right for totals that are told
        apart by their words, as all below 2^63 are. */
    method AreEqual(other: Table, sameValue: (Word, Word) -> bool) returns (equal: bool)
      requires Valid() && other.Valid() && k == other.k
      ensures equal <==>
        SaidEqual(Occurrences(), other.Occurrences(), AllMatched(model, other.model, hasKeys, sameValue))
      ensures ToldApart(Occurrences(), other.Occurrences()) ==>
        (equal <==> EqualEntries(model, other.model, hasKeys, sameValue))
    {
      hide Holds, TableSize, TableCapacity, Used, Tombs, EqualEntries, Matched, ArraysAgree, AllMatched, AsIndex, Bag;
      EqualMeans(other, sameValue);
      BucketsMatched(other, sameValue);
      var cnt1 := GetCount();
      var cnt2 := other.GetCount();
      if cnt1 != cnt2 {
        return false;
      }
      if cnt1 == 0 {
        return true;
      }
      equal := ApplyMatches(other, sameValue);
    }
  }

  /** Totals whose words are equal only if they are, and 0 only if they are. */
  predicate ToldApart(n: nat, n': nat): (b: bool)
    ensures n < TWO_63 && n' < TWO_63 ==> b
  {
    (AsIndex(n) == AsIndex(n') ==> n == n') && (AsIndex(n) == 0 ==> n == 0)
  }

  /** Entries and freed buckets are all there is without an empty one. */
  lemma {:induction false} NoneEmpty(s: seq<Slot>, n: nat)
    requires n <= |s| && forall i :: 0 <= i < n ==> !s[i].Empty?
    ensures Used(s, n) + Tombs(s, n) == n
  {
    if n > 0 {
      NoneEmpty(s, n - 1);
    }
  }

  lemma UsedStep(s: seq<Slot>, n: nat)
    requires n < |s|
    ensures Used(s, n + 1) == Used(s, n) + (if s[n].Live? then 1 else 0)
  {
  }

  lemma {:induction false} TombAt(s: seq<Slot>, i: nat, n: nat)
    requires i < n <= |s| && s[i].Deleted?
    ensures Tombs(s, n) > 0
  {
    if i < n - 1 {
      TombAt(s, i, n - 1);
    }
  }

  /** There is room for the next entry, and no freed bucket. */
  lemma MoveHasRoom(k: Keys, from: seq<Slot>, n: nat, s: seq<Slot>, part: map<int, Entry>)
    requires n < |from| && from[n].Live? && Moved(k, from, n, s, part)
    requires Used(from, |from|) <= |s|
    ensures Used(s, |s|) < |s| && Tombs(s, |s|) == 0
  {
    UsedGrows(from, n + 1, |from|);
  }
}
