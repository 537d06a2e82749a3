/** What flattening lists, told without its tables: the objects in the order of a walk over the
    graph, strings, numbers, dates and data only the first time they are met. */
module PlistWalk {
  import opened PlistModel
  import opened PlistFlatten

  /** The objects met by walking from `id`: it, and then what is met from each child in turn. */
  function Walk(g: Graph, id: nat): seq<nat>
    requires Acyclic(g) && id < |g|
    decreases id, 1, 0
  {
    [id] + WalkFirst(g, id, |g[id].Children()|)
  }

  /** The objects met from the first `n` children of `id`. */
  function WalkFirst(g: Graph, id: nat, n: nat): seq<nat>
    requires Acyclic(g) && id < |g| && n <= |g[id].Children()|
    decreases id, 0, n
  {
    if n == 0 then [] else WalkFirst(g, id, n - 1) + Walk(g, g[id].Children()[n - 1])
  }

  /** Of objects met in turn, those that are listed after the ones of `seen`. */
  function Listed(g: Graph, seen: set<nat>, met: seq<nat>): seq<nat> {
    if met == [] then []
    else
      var before, id := Listed(g, seen, met[..|met| - 1]), met[|met| - 1];
      if Once(g, id) && (id in seen || id in before) then before else before + [id]
  }

  /** Strings, numbers, dates and data are listed once; nulls, booleans, UIDs and collections
      whenever they are met. */
  predicate Once(g: Graph, id: nat) {
    && id < |g| && g[id].Leaf?
    && match g[id].value
       case Null => false
       case Bool(_) => false
       case Uid(_) => false
       case Array(_) => false
       case Set(_) => false
       case Dict(_, _) => false
       case _ => true
  }

  lemma OnceIsUniqued(g: Graph, id: nat)
    requires id < |g|
    ensures Once(g, id) <==> g[id].Uniqued()
  {
  }

  lemma {:induction false} ListedConcat(g: Graph, seen: set<nat>, a: seq<nat>, b: seq<nat>)
    ensures Listed(g, seen, a + b) == Listed(g, seen, a) + Listed(g, seen + SetOf(Listed(g, seen, a)), b)
  {
    if b == [] {
      assert a + b == a;
    } else {
      var b', id := b[..|b| - 1], b[|b| - 1];
      ListedConcat(g, seen, a, b');
      assert (a + b)[..|a + b| - 1] == a + b' && (a + b)[|a + b| - 1] == id;
      var first := Listed(g, seen, a);
      assert id in first + Listed(g, seen + SetOf(first), b') <==>
        id in SetOf(first) || id in Listed(g, seen + SetOf(first), b');
    }
  }

  function SetOf(s: seq<nat>): set<nat> {
    set x | x in s
  }

  /** Only whether objects listed once have been seen matters. */
  lemma {:induction false} SeenMatters(g: Graph, a: set<nat>, b: set<nat>, met: seq<nat>)
    requires forall x :: x in met && Once(g, x) ==> (x in a <==> x in b)
    ensures Listed(g, a, met) == Listed(g, b, met)
  {
    if met != [] {
      SeenMatters(g, a, b, met[..|met| - 1]);
    }
  }

  /** The objects listed once are those in the uniquing set. */
  ghost predicate SeenAre(g: Graph, st: State, seen: set<nat>) {
    forall x :: Once(g, x) ==> (x in seen <==> x in st.uniquing)
  }

  lemma {:induction false} FlattenLists(g: Graph, id: nat, st: State)
    requires Acyclic(g) && id < |g|
    ensures var r := Flatten(g, id, st);
      && r.objlist == st.objlist + Listed(g, st.uniquing, Walk(g, id))
      && SeenAre(g, r, st.uniquing + SetOf(Listed(g, st.uniquing, Walk(g, id))))
    decreases id, 1, 0
  {
    hide Listed;
    OnceIsUniqued(g, id);
    var n, rest := |g[id].Children()|, WalkFirst(g, id, |g[id].Children()|);
    ListedOne(g, st.uniquing, id);
    ListedConcat(g, st.uniquing, [id], rest);
    var one := Listed(g, st.uniquing, [id]);
    if g[id].Uniqued() && id in st.uniquing {
      assert rest == [];
      NothingListed(g, st.uniquing + SetOf(one));
    } else {
      var added := Add(g, id, st);
      FlattenFirstLists(g, id, n, added);
      assert added.objlist == st.objlist + one;
      SeenMatters(g, added.uniquing, st.uniquing + SetOf(one), rest);
    }
  }

  lemma ListedOne(g: Graph, seen: set<nat>, id: nat)
    ensures Listed(g, seen, [id]) == if Once(g, id) && id in seen then [] else [id]
  {
    NothingListed(g, seen);
    assert [id][..0] == [];
  }

  lemma NothingListed(g: Graph, seen: set<nat>)
    ensures Listed(g, seen, []) == []
  {
  }

  lemma {:induction false} FlattenFirstLists(g: Graph, id: nat, n: nat, st: State)
    requires Acyclic(g) && id < |g| && n <= |g[id].Children()|
    ensures var r := FlattenFirst(g, id, n, st);
      && r.objlist == st.objlist + Listed(g, st.uniquing, WalkFirst(g, id, n))
      && SeenAre(g, r, st.uniquing + SetOf(Listed(g, st.uniquing, WalkFirst(g, id, n))))
    decreases id, 0, n
  {
    hide Listed, SeenAre, SetOf, Flatten, Walk;
    if n == 0 {
      NothingListed(g, st.uniquing);
      SeenAtFirst(g, st);
    } else {
      var before, child := FlattenFirst(g, id, n - 1, st), g[id].Children()[n - 1];
      FlattenFirstLists(g, id, n - 1, st);
      FlattenLists(g, child, before);
      ListedNext(g, st, before, Flatten(g, child, before), WalkFirst(g, id, n - 1), Walk(g, child));
    }
  }

  lemma SeenAtFirst(g: Graph, st: State)
    ensures SeenAre(g, st, st.uniquing + SetOf([]))
  {
  }

  lemma ListedNext(g: Graph, st: State, before: State, r: State, a: seq<nat>, b: seq<nat>)
    requires before.objlist == st.objlist + Listed(g, st.uniquing, a)
    requires SeenAre(g, before, st.uniquing + SetOf(Listed(g, st.uniquing, a)))
    requires r.objlist == before.objlist + Listed(g, before.uniquing, b)
    requires SeenAre(g, r, before.uniquing + SetOf(Listed(g, before.uniquing, b)))
    ensures r.objlist == st.objlist + Listed(g, st.uniquing, a + b)
    ensures SeenAre(g, r, st.uniquing + SetOf(Listed(g, st.uniquing, a + b)))
  {
    hide Listed, Once;
    var first := Listed(g, st.uniquing, a);
    SeenMatters(g, before.uniquing, st.uniquing + SetOf(first), b);
    ListedConcat(g, st.uniquing, a, b);
    var second := Listed(g, before.uniquing, b);
    assert SetOf(first + second) == SetOf(first) + SetOf(second);
  }

  /** Every number is that of the first place of its object. */
  ghost predicate NumbersFirst(st: State) {
    && (forall id :: id in st.objtable ==> st.objtable[id] < |st.objlist| && st.objlist[st.objtable[id]] == id)
    && (forall i :: 0 <= i < |st.objlist| ==> st.objlist[i] in st.objtable && st.objtable[st.objlist[i]] <= i)
  }

  lemma {:induction false} FlattenNumbers(g: Graph, id: nat, st: State)
    requires Acyclic(g) && id < |g| && NumbersFirst(st)
    ensures NumbersFirst(Flatten(g, id, st))
    decreases id, 1, 0
  {
    if !(g[id].Uniqued() && id in st.uniquing) {
      AddNumbers(g, id, st);
      hide NumbersFirst;
      FlattenFirstNumbers(g, id, |g[id].Children()|, Add(g, id, st));
    }
  }

  lemma AddNumbers(g: Graph, id: nat, st: State)
    requires id < |g| && NumbersFirst(st)
    ensures NumbersFirst(Add(g, id, st))
  {
  }

  lemma {:induction false} FlattenFirstNumbers(g: Graph, id: nat, n: nat, st: State)
    requires Acyclic(g) && id < |g| && n <= |g[id].Children()| && NumbersFirst(st)
    ensures NumbersFirst(FlattenFirst(g, id, n, st))
    decreases id, 0, n
  {
    hide NumbersFirst;
    if n > 0 {
      FlattenFirstNumbers(g, id, n - 1, st);
      FlattenNumbers(g, g[id].Children()[n - 1], FlattenFirst(g, id, n - 1, st));
    }
  }

  /** The list of a whole graph is the walk over it, less what is met again of what is listed once,
      and the number of an object is its first place there. */
  lemma FlattenIsWalk(g: Graph, root: nat)
    requires Acyclic(g) && root < |g|
    ensures var r := Flatten(g, root, EMPTY);
      && r.objlist == Listed(g, {}, Walk(g, root))
      && (forall id :: id in r.objtable ==> r.objtable[id] < |r.objlist| && r.objlist[r.objtable[id]] == id)
      && (forall i :: 0 <= i < |r.objlist| ==> r.objlist[i] in r.objtable && r.objtable[r.objlist[i]] <= i)
  {
    FlattenLists(g, root, EMPTY);
    FlattenNumbers(g, root, EMPTY);
  }

  lemma {:induction false} ListedTimes(g: Graph, met: seq<nat>, id: nat)
    ensures multiset(Listed(g, {}, met))[id] ==
      if Once(g, id) then (if id in met then 1 else 0) else multiset(met)[id]
    ensures id in Listed(g, {}, met) <==> id in met
  {
    if met != [] {
      var before := met[..|met| - 1];
      ListedTimes(g, before, id);
      assert met == before + [met[|met| - 1]];
    }
  }

  /** How often each object of the graph is listed: a string, number, date or data once if it is met
      at all, a boolean, UID or collection as often as it is met. */
  lemma TimesListed(g: Graph, root: nat, id: nat)
    requires Acyclic(g) && root < |g| && id < |g|
    ensures var list, walk := Flatten(g, root, EMPTY).objlist, Walk(g, root);
      && (g[id].Leaf? && (g[id].value.Text? || g[id].value.Int? || g[id].value.BigInt? || g[id].value.Real32?
                          || g[id].value.Real64? || g[id].value.Date? || g[id].value.Data?) ==>
            multiset(list)[id] == if id in walk then 1 else 0)
      && (g[id].ArrayNode? || g[id].DictNode? || (g[id].Leaf? && (g[id].value.Bool? || g[id].value.Uid?)) ==>
            multiset(list)[id] == multiset(walk)[id])
      && (id in list <==> id in walk)
  {
    FlattenIsWalk(g, root);
    ListedTimes(g, Walk(g, root), id);
  }

  /** So no two places of the list hold one string, number, date or data. */
  lemma ListedOnce(g: Graph, root: nat, i: nat, j: nat)
    requires Acyclic(g) && root < |g| && i < j < |Flatten(g, root, EMPTY).objlist|
    ensures var list := Flatten(g, root, EMPTY).objlist;
      var id := list[i];
      id < |g| && g[id].Leaf? && (g[id].value.Text? || g[id].value.Int? || g[id].value.BigInt? || g[id].value.Real32?
                                  || g[id].value.Real64? || g[id].value.Date? || g[id].value.Data?) ==>
        list[j] != id
  {
    var list := Flatten(g, root, EMPTY).objlist;
    if list[i] < |g| && list[j] == list[i] {
      TimesListed(g, root, list[i]);
      Twice(list, i, j);
    }
  }

  lemma Twice(list: seq<nat>, i: nat, j: nat)
    requires i < j < |list| && list[i] == list[j]
    ensures multiset(list)[list[i]] >= 2
  {
    assert list == list[..j] + [list[j]] + list[j + 1..];
    assert list[i] == list[..j][i];
  }
}
