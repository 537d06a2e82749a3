/** The store of a mutable array: a deque of buckets with free room at both ends, whose middle is
    replaced in place by moving the shorter side, or everything, into the room there is. */
module ArrayDeque {
  import opened Bits
  import opened Prelude

  /** The largest number of values whose rounded capacity, with room to spare, is in range. */
  const MAX_COUNT: nat := 0x3FFF_DFFF

  /** A store after `n` buckets of `from` were moved into it. */
  function Moved(to: seq<Word>, dst: nat, from: seq<Word>, src: nat, n: nat): (r: seq<Word>)
    requires dst + n <= |to| && src + n <= |from|
    ensures |r| == |to|
  {
    to[..dst] + from[src..src + n] + to[dst + n..]
  }

  /** A store after `n` buckets were cleared. */
  function Zeroed(to: seq<Word>, dst: nat, n: nat): (r: seq<Word>)
    requires dst + n <= |to|
    ensures |r| == |to|
  {
    to[..dst] + seq(n, _ => 0) + to[dst + n..]
  }

  lemma MovedAt(to: seq<Word>, dst: nat, from: seq<Word>, src: nat, n: nat, j: nat)
    requires dst + n <= |to| && src + n <= |from| && j < |to|
    ensures Moved(to, dst, from, src, n)[j] == if dst <= j < dst + n then from[j - dst + src] else to[j]
  {
  }

  lemma ZeroedAt(to: seq<Word>, dst: nat, n: nat, j: nat)
    requires dst + n <= |to| && j < |to|
    ensures Zeroed(to, dst, n)[j] == if dst <= j < dst + n then 0 else to[j]
  {
  }

  lemma ZeroedNothing(to: seq<Word>, dst: nat)
    requires dst <= |to|
    ensures Zeroed(to, dst, 0) == to
  {
    assert to[..dst] + to[dst..] == to;
  }

  /** A memory move between stores, or within one when its ranges may overlap. */
  method Move(to: array<Word>, dst: nat, from: array<Word>, src: nat, n: nat)
    requires dst + n <= to.Length && src + n <= from.Length
    modifies to
    ensures to[..] == Moved(old(to[..]), dst, old(from[..]), src, n)
  {
    forall j | dst <= j < dst + n {
      to[j] := from[j - dst + src];
    }
  }

  method Zero(to: array<Word>, dst: nat, n: nat)
    requires dst + n <= to.Length
    modifies to
    ensures to[..] == Zeroed(old(to[..]), dst, n)
  {
    forall j | dst <= j < dst + n {
      to[j] := 0;
    }
  }

  /** The values `a` and `c` lie in a store from `left` on, with `gap` buckets between them. */
  ghost predicate Spread(s: seq<Word>, left: nat, a: seq<Word>, gap: nat, c: seq<Word>) {
    && left + |a| + gap + |c| <= |s|
    && s[left..left + |a|] == a
    && s[left + |a| + gap..left + |a| + gap + |c|] == c
  }

  lemma SpreadFits(s: seq<Word>, left: nat, a: seq<Word>, gap: nat, c: seq<Word>)
    requires Spread(s, left, a, gap, c)
    ensures left + |a| + gap + |c| <= |s|
  {
  }

  lemma SpreadWhen(s: seq<Word>, left: nat, a: seq<Word>, gap: nat, c: seq<Word>)
    requires left + |a| + gap + |c| <= |s|
    requires forall j :: left <= j < left + |a| ==> s[j] == a[j - left]
    requires var c0 := left + |a| + gap; forall j :: c0 <= j < c0 + |c| ==> s[j] == c[j - c0]
    ensures Spread(s, left, a, gap, c)
  {
  }

  /** Outside the `m` values at `right` the store `t` is zero, or as `s` was outside the `n`
      values at `left`: nothing is left of a value that was moved or removed. */
  ghost predicate NothingLeft(s: seq<Word>, left: nat, n: nat, t: seq<Word>, right: nat, m: nat) {
    && |t| == |s|
    && forall i :: 0 <= i < |t| && !(right <= i < right + m) ==> t[i] == 0 || (!(left <= i < left + n) && t[i] == s[i])
  }

  /** The regions of a store: `left` free buckets, then `a` values, `b` cleared ones, and `c`
      values; the cleared ones are to become a gap of another width. */
  datatype Regions = Regions(left: nat, a: nat, b: nat, c: nat, gap: nat) {
    ghost predicate In(s: seq<Word>) {
      left + a + b + c <= |s| && forall j :: left + a <= j < left + a + b ==> s[j] == 0
    }

    ghost function LeftOf(s: seq<Word>): (v: seq<Word>)
      requires left + a + b + c <= |s|
      ensures |v| == a
    {
      s[left..left + a]
    }

    ghost function RightOf(s: seq<Word>): (v: seq<Word>)
      requires left + a + b + c <= |s|
      ensures |v| == c
    {
      s[left + a + b..left + a + b + c]
    }

    /** A store with the gap of the new width, its values starting at `newLeft`. */
    ghost predicate Opened(s: seq<Word>, t: seq<Word>, newLeft: nat)
      requires left + a + b + c <= |s|
    {
      && Spread(t, newLeft, LeftOf(s), gap, RightOf(s))
      && NothingLeft(s, left, a + b + c, t, newLeft, a + gap + c)
    }

    /** What a store holds at `j` once the gap has its new width. */
    ghost predicate OpenedAt(s: seq<Word>, t: seq<Word>, newLeft: nat, j: nat)
      requires In(s) && newLeft + a + gap + c <= |s| == |t| && j < |t|
    {
      var c0 := newLeft + a + gap;
      if newLeft <= j < newLeft + a then t[j] == s[j - newLeft + left]
      else if c0 <= j < c0 + c then t[j] == s[j - c0 + left + a + b]
      else if newLeft <= j < c0 then true
      else t[j] == 0 || (!(left <= j < left + a + b + c) && t[j] == s[j])
    }

    lemma OpenedEverywhere(s: seq<Word>, t: seq<Word>, newLeft: nat)
      requires In(s) && newLeft + a + gap + c <= |s| == |t|
      requires forall j :: 0 <= j < |t| ==> OpenedAt(s, t, newLeft, j)
      ensures Opened(s, t, newLeft)
    {
      var c0 := newLeft + a + gap;
      forall j | newLeft <= j < newLeft + a ensures t[j] == s[j - newLeft + left] { assert OpenedAt(s, t, newLeft, j); }
      forall j | c0 <= j < c0 + c ensures t[j] == s[j - c0 + left + a + b] { assert OpenedAt(s, t, newLeft, j); }
      forall j | 0 <= j < |t| && !(newLeft <= j < c0 + c)
        ensures t[j] == 0 || (!(left <= j < left + a + b + c) && t[j] == s[j])
      {
        assert OpenedAt(s, t, newLeft, j);
      }
      SpreadWhen(t, newLeft, LeftOf(s), gap, RightOf(s));
    }

    /** A range that is cleared before its gap is opened, and what is put into the gap after,
        leave nothing behind either. */
    lemma NothingLeftOver(s: seq<Word>, t: seq<Word>, newLeft: nat, v: seq<Word>)
      requires left + a + b + c <= |s| && gap == |v|
      requires Opened(Zeroed(s, left + a, b), t, newLeft)
      ensures NothingLeft(s, left, a + b + c, Moved(t, newLeft + a, v, 0, |v|), newLeft, a + gap + c)
    {
      hide Moved, Zeroed, Spread;
      var z := Zeroed(s, left + a, b);
      SpreadFits(t, newLeft, LeftOf(z), gap, RightOf(z));
      var u := Moved(t, newLeft + a, v, 0, |v|);
      forall j | 0 <= j < |u| && !(newLeft <= j < newLeft + a + gap + c)
        ensures u[j] == 0 || (!(left <= j < left + a + b + c) && u[j] == s[j])
      {
        MovedAt(t, newLeft + a, v, 0, |v|, j);
        ZeroedAt(s, left + a, b, j);
        assert t[j] == 0 || (!(left <= j < left + a + b + c) && t[j] == z[j]);
      }
    }

    /** Clearing the range leaves the sides as they are. */
    lemma ClearedIn(s: seq<Word>)
      requires left + a + b + c <= |s|
      ensures var z := Zeroed(s, left + a, b); In(z) && LeftOf(z) == LeftOf(s) && RightOf(z) == RightOf(s)
    {
      hide Zeroed;
      var z := Zeroed(s, left + a, b);
      forall j | 0 <= j < |s|
        ensures z[j] == if left + a <= j < left + a + b then 0 else s[j]
      {
        ZeroedAt(s, left + a, b, j);
      }
    }

    /** A gap that has its width already. */
    lemma AlreadyOpened(s: seq<Word>)
      requires left + a + b + c <= |s|
      ensures gap == b ==> Opened(s, s, left) && Spread(s, left, LeftOf(s), gap, RightOf(s))
    {
      if gap == b { SpreadWhen(s, left, LeftOf(s), gap, RightOf(s)); }
    }

    /** Copying both sides to another store. */
    lemma CopiedApart(s: seq<Word>, s': seq<Word>, newLeft: nat)
      requires left + a + b + c <= |s| && newLeft + a + gap + c <= |s'|
      ensures var t := Moved(s', newLeft, s, left, a);
        var u := Moved(t, newLeft + a + gap, s, left + a + b, c);
        Spread(u, newLeft, LeftOf(s), gap, RightOf(s))
    {
      hide Moved, Spread;
      var t := Moved(s', newLeft, s, left, a);
      var c0 := newLeft + a + gap;
      var u := Moved(t, c0, s, left + a + b, c);
      forall j | newLeft <= j < newLeft + a
        ensures u[j] == s[j - newLeft + left]
      {
        MovedAt(t, c0, s, left + a + b, c, j);
        MovedAt(s', newLeft, s, left, a, j);
      }
      forall j | c0 <= j < c0 + c
        ensures u[j] == s[j - c0 + left + a + b]
      {
        MovedAt(t, c0, s, left + a + b, c, j);
      }
      SpreadWhen(u, newLeft, LeftOf(s), gap, RightOf(s));
    }

    /** Moving the values on the right. */
    lemma RightMoved(s: seq<Word>)
      requires In(s) && left + a + gap + c <= |s|
      ensures var t := Moved(s, left + a + gap, s, left + a + b, c);
        Opened(s, if gap < b then Zeroed(t, left + a + gap + c, b - gap) else t, left)
    {
      hide Moved, Zeroed, Opened;
      var t := Moved(s, left + a + gap, s, left + a + b, c);
      var v := if gap < b then Zeroed(t, left + a + gap + c, b - gap) else t;
      forall j | 0 <= j < |v|
        ensures OpenedAt(s, v, left, j)
      {
        if gap < b { ZeroedAt(t, left + a + gap + c, b - gap, j); }
        MovedAt(s, left + a + gap, s, left + a + b, c, j);
      }
      OpenedEverywhere(s, v, left);
    }

    /** Moving the values on the left. */
    lemma LeftMoved(s: seq<Word>, newLeft: nat)
      requires In(s) && newLeft + gap == left + b
      ensures var t := Moved(s, newLeft, s, left, a);
        Opened(s, if left < newLeft then Zeroed(t, left, newLeft - left) else t, newLeft)
    {
      hide Moved, Zeroed, Opened;
      var t := Moved(s, newLeft, s, left, a);
      var v := if left < newLeft then Zeroed(t, left, newLeft - left) else t;
      forall j | 0 <= j < |v|
        ensures OpenedAt(s, v, newLeft, j)
      {
        if left < newLeft { ZeroedAt(t, left, newLeft - left, j); }
        MovedAt(s, newLeft, s, left, a, j);
      }
      OpenedEverywhere(s, v, newLeft);
    }

    /** Moving both to the left, the left one first. */
    lemma BothMovedLeft(s: seq<Word>, newLeft: nat)
      requires In(s) && b < gap && newLeft < left && newLeft + a + gap + c <= |s|
      ensures var t := Moved(s, newLeft, s, left, a);
        var u := Moved(t, newLeft + a + gap, t, left + a + b, c);
        var over := left + b - newLeft - gap;
        Opened(s, if over > 0 then Zeroed(u, newLeft + a + gap + c, over) else u, newLeft)
    {
      hide Moved, Zeroed, Opened;
      var t := Moved(s, newLeft, s, left, a);
      var u := Moved(t, newLeft + a + gap, t, left + a + b, c);
      var v := if newLeft + gap < left + b then Zeroed(u, newLeft + a + gap + c, left + b - newLeft - gap) else u;
      forall j | 0 <= j < |v|
        ensures OpenedAt(s, v, newLeft, j)
      {
        if newLeft + gap < left + b {
          ZeroedAt(u, newLeft + a + gap + c, left + b - newLeft - gap, j);
        }
        MovedAt(t, newLeft + a + gap, t, left + a + b, c, j);
        var i := if newLeft + a + gap <= j < newLeft + a + gap + c then j - newLeft - gap + left + b else j;
        MovedAt(s, newLeft, s, left, a, i);
      }
      OpenedEverywhere(s, v, newLeft);
    }

    /** Moving both to the right, the right one first. */
    lemma BothMovedRight(s: seq<Word>, newLeft: nat)
      requires In(s) && b < gap && left <= newLeft && newLeft + a + gap + c <= |s|
      ensures var t := Moved(s, newLeft + a + gap, s, left + a + b, c);
        var u := Moved(t, newLeft, t, left, a);
        Opened(s, if left < newLeft then Zeroed(u, left, newLeft - left) else u, newLeft)
    {
      hide Moved, Zeroed, Opened;
      var t := Moved(s, newLeft + a + gap, s, left + a + b, c);
      var u := Moved(t, newLeft, t, left, a);
      var v := if left < newLeft then Zeroed(u, left, newLeft - left) else u;
      forall j | 0 <= j < |v|
        ensures OpenedAt(s, v, newLeft, j)
      {
        if left < newLeft { ZeroedAt(u, left, newLeft - left, j); }
        MovedAt(t, newLeft, t, left, a, j);
        var i := if newLeft <= j < newLeft + a then j - newLeft + left else j;
        MovedAt(s, newLeft + a + gap, s, left + a + b, c, i);
      }
      OpenedEverywhere(s, v, newLeft);
    }
  }

  class Deque {
    var count: nat
    var leftIdx: nat
    /** No store at all while nothing was ever added, or after everything was removed. */
    var store: array?<Word>

    ghost predicate Valid()
      reads this
    {
      if store == null then count == 0
      else leftIdx + count <= store.Length <= MAX_CAPACITY
    }

    ghost function Contents(): (s: seq<Word>)
      requires Valid()
      reads this, store
      ensures |s| == count
    {
      if store == null then [] else store[leftIdx..leftIdx + count]
    }

    constructor ()
      ensures Valid() && Contents() == []
    {
      count, leftIdx, store := 0, 0, null;
    }

    /** In a store that was kept, no bucket outside the values still holds what was a value. */
    twostate predicate NothingLeftBehind()
      reads this, store
    {
      store != null && store == old(store) ==>
        NothingLeft(old(store[..]), old(leftIdx), old(count), store[..], leftIdx, count)
    }

    /** The regions around a range that is to become a gap. */
    ghost function Around(location: nat, length: nat, newCount: nat): (g: Regions)
      requires location + length <= count
      reads this
    {
      Regions(leftIdx, location, length, count - length - location, newCount)
    }

    /** A larger store, centred. */
    method Reallocate(location: nat, length: nat, newCount: nat, wiggle: nat)
      requires Valid() && store != null && location + length <= count && wiggle <= 0x2000
      requires count - length + newCount <= MAX_COUNT
      modifies this`store, this`leftIdx
      ensures fresh(store) && store.Length <= MAX_CAPACITY
      ensures var g := old(Around(location, length, newCount));
        Spread(store[..], leftIdx, g.LeftOf(old(store[..])), newCount, g.RightOf(old(store[..])))
    {
      hide Moved, Spread, RoundUpCapacity;
      var futureCnt := count - length + newCount;
      RoundUpCapacityIs(futureCnt + wiggle);
      var capacity := RoundUpCapacity(futureCnt + wiggle);
      var newStore := new Word[capacity];
      Around(location, length, newCount).CopiedApart(store[..], newStore[..], (capacity - futureCnt) / 2);
      var oldL, newL := leftIdx, (capacity - futureCnt) / 2;
      Move(newStore, newL, store, oldL, location);
      Move(newStore, newL + location + newCount, store, oldL + location + length, count - length - location);
      leftIdx := newL;
      store := newStore;
    }

    /** Moves the values right of the range. */
    method MoveRight(location: nat, length: nat, newCount: nat)
      requires Valid() && store != null && location + length <= count
      requires leftIdx + count - length + newCount <= store.Length
      requires Around(location, length, newCount).In(store[..])
      modifies store
      ensures old(Around(location, length, newCount)).Opened(old(store[..]), store[..], leftIdx)
    {
      hide Moved, Zeroed, Regions.Opened, Regions.In;
      Around(location, length, newCount).RightMoved(store[..]);
      var c := count - length - location;
      var oldC0, newC0 := leftIdx + location + length, leftIdx + location + newCount;
      Move(store, newC0, store, oldC0, c);
      if newC0 < oldC0 {
        Zero(store, newC0 + c, oldC0 - newC0);
      }
    }

    /** Moves the values left of the range. */
    method MoveLeft(location: nat, length: nat, newCount: nat)
      requires Valid() && store != null && location + length <= count
      requires newCount - length <= leftIdx
      requires Around(location, length, newCount).In(store[..])
      modifies this`leftIdx, store
      ensures old(Around(location, length, newCount)).Opened(old(store[..]), store[..], leftIdx)
    {
      hide Moved, Zeroed, Regions.Opened, Regions.In;
      var oldL, newL := leftIdx, leftIdx - (newCount - length);
      Around(location, length, newCount).LeftMoved(store[..], newL);
      leftIdx := newL;
      Move(store, newL, store, oldL, location);
      if oldL < newL {
        Zero(store, oldL, newL - oldL);
      }
    }

    /** Moves both sides, the one that makes room for the other first. */
    method Recentre(location: nat, length: nat, newCount: nat)
      requires Valid() && store != null && location + length <= count && length < newCount
      requires count - length + newCount <= store.Length
      requires Around(location, length, newCount).In(store[..])
      modifies this`leftIdx, store
      ensures old(Around(location, length, newCount)).Opened(old(store[..]), store[..], leftIdx)
    {
      hide Moved, Zeroed, Regions.Opened, Regions.In;
      var a, c := location, count - length - location;
      var free := store.Length - count - (newCount - length);
      var oldL, newL := leftIdx, free / 2 - free / 2 / 2;
      var oldC0, newC0 := oldL + a + length, newL + a + newCount;
      leftIdx := newL;
      if newL < oldL {
        old(Around(location, length, newCount)).BothMovedLeft(store[..], newL);
        Move(store, newL, store, oldL, a);
        Move(store, newC0, store, oldC0, c);
        if newC0 < oldC0 {
          Zero(store, newC0 + c, oldC0 - newC0);
        }
      } else {
        old(Around(location, length, newCount)).BothMovedRight(store[..], newL);
        Move(store, newC0, store, oldC0, c);
        Move(store, newL, store, oldL, a);
        if oldL < newL {
          Zero(store, oldL, newL - oldL);
        }
      }
    }

    /** Makes a gap of `newCount` buckets where the range was: in a new store when this one is
        too small or nearly full, by moving the shorter side when there is room on that side,
        and by moving both otherwise. */
    method RepositionDequeRegions(location: nat, length: nat, newCount: nat)
      requires Valid() && store != null && location + length <= count && length != newCount
      requires count - length + newCount <= MAX_COUNT
      requires Around(location, length, newCount).In(store[..])
      modifies this`store, this`leftIdx, store
      ensures store != null && store.Length <= MAX_CAPACITY && (store == old(store) || fresh(store))
      ensures var g := old(Around(location, length, newCount));
        Spread(store[..], leftIdx, g.LeftOf(old(store[..])), newCount, g.RightOf(old(store[..])))
      ensures store == old(store) ==>
        old(Around(location, length, newCount)).Opened(old(store[..]), store[..], leftIdx)
    {
      hide NothingLeft, Spread, Regions.In, Regions.LeftOf, Regions.RightOf;
      var futureCnt := count - length + newCount;
      var l, a, c := leftIdx, location, count - length - location;
      var r := store.Length - count - l;
      var numNewElems := newCount - length;
      var wiggle := store.Length / 0x2_0000;
      if wiggle < 4 {
        wiggle := 4;
      }
      if store.Length < futureCnt || (count < futureCnt && l + r < wiggle) {
        Reallocate(location, length, newCount, wiggle);
        return;
      }
      if (numNewElems < 0 && c < a) || (numNewElems <= r && c < a) {
        MoveRight(location, length, newCount);
      } else if numNewElems < 0 || (numNewElems <= l && a <= c) {
        MoveLeft(location, length, newCount);
      } else {
        Recentre(location, length, newCount);
      }
    }

    /** Clears the buckets of a range, and lets the store go when that is asked for and the range
        is everything. */
    method ReleaseValues(location: nat, length: nat, releaseStorageIfPossible: bool)
      requires Valid() && location + length <= count
      modifies this, store
      ensures Valid()
      ensures
        if releaseStorageIfPossible && location == 0 && length == old(count) then count == 0 && store == null
        else
          && store == old(store) && leftIdx == old(leftIdx) && count == old(count)
          && (store != null ==> store[..] == Zeroed(old(store[..]), leftIdx + location, length))
    {
      if 0 < length && store != null {
        Zero(store, leftIdx + location, length);
      }
      if releaseStorageIfPossible && location == 0 && count == length {
        count := 0;
        store := null;
      }
    }

    /** The first store, centred around the values to come. */
    method StartStore(futureCnt: nat)
      requires Valid() && store == null && futureCnt <= MAX_COUNT
      modifies this`store, this`leftIdx
      ensures fresh(store) && store.Length <= MAX_CAPACITY && Spread(store[..], leftIdx, [], futureCnt, [])
    {
      hide RoundUpCapacity;
      RoundUpCapacityIs(futureCnt);
      var capacity := RoundUpCapacity(futureCnt);
      store := new Word[capacity];
      leftIdx := (capacity - futureCnt) / 2;
    }

    /** Clears the range of a store and makes a gap for the new values in its place. */
    method ClearRange(location: nat, length: nat, newCount: nat)
      requires Valid() && store != null && location + length <= count
      requires count - length + newCount <= MAX_COUNT
      modifies this, store
      ensures count == old(count)
      ensures store != null && store.Length <= MAX_CAPACITY && (store == old(store) || fresh(store))
      ensures var g := old(Around(location, length, newCount));
        Spread(store[..], leftIdx, g.LeftOf(old(store[..])), newCount, g.RightOf(old(store[..])))
      ensures store == old(store) ==> var g := old(Around(location, length, newCount));
        g.Opened(Zeroed(old(store[..]), g.left + g.a, g.b), store[..], leftIdx)
    {
      hide Zeroed, Spread, NothingLeft, Regions.Opened, Regions.In, Regions.LeftOf, Regions.RightOf;
      ghost var g, s := Around(location, length, newCount), store[..];
      g.ClearedIn(s);
      if 0 < length {
        ReleaseValues(location, length, false);
      } else {
        ZeroedNothing(s, leftIdx + location);
      }
      g.AlreadyOpened(store[..]);
      if length != newCount {
        RepositionDequeRegions(location, length, newCount);
      }
    }

    /** The sides of the store are the values before and after the range. */
    lemma SidesOf(location: nat, length: nat, newCount: nat)
      requires Valid() && store != null && location + length <= count
      ensures var g := Around(location, length, newCount);
        Contents()[..location] == g.LeftOf(store[..]) && Contents()[location + length..] == g.RightOf(store[..])
    {
    }

    /** Replaces a range of the values. */
    method ReplaceValues(location: nat, length: nat, newValues: seq<Word>)
      requires Valid() && location + length <= count
      requires count - length + |newValues| <= MAX_COUNT
      modifies this, store
      ensures Valid() && (store == old(store) || fresh(store))
      ensures Contents() == old(Contents())[..location] + newValues + old(Contents())[location + length..]
      ensures NothingLeftBehind()
    {
      hide Moved, Zeroed, Spread, NothingLeft, Contents;
      hide Regions.Opened, Regions.In, Regions.LeftOf, Regions.RightOf;
      var newCount := |newValues|;
      var futureCnt := count - length + newCount;
      ghost var a, c := Contents()[..location], Contents()[location + length..];
      ghost var g := Around(location, length, newCount);
      ghost var s := if store == null then [] else store[..];
      if store == null {
        NoContents();
        StartStore(futureCnt);
      } else {
        SidesOf(location, length, newCount);
        ClearRange(location, length, newCount);
      }
      SpreadFits(store[..], leftIdx, a, newCount, c);
      if store == old(store) {
        g.NothingLeftOver(s, store[..], leftIdx, newValues);
      }
      PutValues(location, newValues, a, c);
      count := futureCnt;
      ContentsAre();
    }

    lemma NoContents()
      requires Valid() && store == null
      ensures Contents() == []
    {
    }

    lemma ContentsAre()
      requires Valid() && store != null
      ensures Contents() == store[leftIdx..leftIdx + count]
    {
    }

    /** Copies the new values into the gap. */
    method PutValues(location: nat, newValues: seq<Word>, ghost a: seq<Word>, ghost c: seq<Word>)
      requires store != null && |a| == location && Spread(store[..], leftIdx, a, |newValues|, c)
      modifies store
      ensures store[..] == Moved(old(store[..]), leftIdx + location, newValues, 0, |newValues|)
      ensures store[leftIdx..leftIdx + |a| + |newValues| + |c|] == a + newValues + c
    {
      var b0 := leftIdx + location;
      forall j | b0 <= j < b0 + |newValues| {
        store[j] := newValues[j - b0];
      }
    }

    method GetValueAtIndex(idx: nat) returns (value: Word)
      requires Valid() && idx < count
      ensures value == Contents()[idx]
    {
      value := store[leftIdx + idx];
    }

    method ExchangeValuesAtIndices(idx1: nat, idx2: nat)
      requires Valid() && idx1 < count && idx2 < count
      modifies store
      ensures Contents() == old(Contents())[idx1 := old(Contents())[idx2]][idx2 := old(Contents())[idx1]]
    {
      store[leftIdx + idx1], store[leftIdx + idx2] := store[leftIdx + idx2], store[leftIdx + idx1];
    }

    /** Removes everything and the store with it. */
    method RemoveAllValues()
      requires Valid()
      modifies this, store
      ensures Valid() && Contents() == [] && store == null
    {
      ReleaseValues(0, count, true);
    }
  }
}
