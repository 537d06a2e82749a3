/** Turning an object graph into a list in which every object has a number. */
module PlistFlatten {
  import opened PlistModel

  /** The list of objects, the number of each object, and the set of uniqued objects. */
  datatype State = State(objlist: seq<nat>, objtable: map<nat, nat>, uniquing: set<nat>)

  const EMPTY := State([], map[], {})

  /** Every listed object has a number, every number names its object, and an object of a
      uniqued type is listed once. */
  ghost predicate Consistent(g: Graph, st: State) {
    && (forall i :: 0 <= i < |st.objlist| ==> st.objlist[i] < |g| && st.objlist[i] in st.objtable)
    && (forall id :: id in st.objtable ==> st.objtable[id] < |st.objlist| && st.objlist[st.objtable[id]] == id)
    && (forall id :: id in st.uniquing ==> id in st.objtable)
    && (forall id :: id in st.objtable && id < |g| && g[id].Uniqued() ==> id in st.uniquing)
    && (forall i :: 0 <= i < |st.objlist| && g[st.objlist[i]].Uniqued() ==> st.objtable[st.objlist[i]] == i)
  }

  /** `r` only adds to `st`: no entry moves and no number changes. */
  ghost predicate Extends(st: State, r: State) {
    && st.objlist <= r.objlist
    && (forall id :: id in st.objtable ==> id in r.objtable && r.objtable[id] == st.objtable[id])
  }

  /** The first `n` children of object `id` have numbers. */
  ghost predicate Numbered(g: Graph, id: nat, n: nat, st: State)
    requires id < |g| && n <= |g[id].Children()|
  {
    forall k :: 0 <= k < n ==> g[id].Children()[k] in st.objtable
  }

  /** The children of every object listed from `start` on have numbers. */
  ghost predicate ClosedFrom(g: Graph, st: State, start: nat) {
    forall i :: start <= i < |st.objlist| && st.objlist[i] < |g| ==>
      Numbered(g, st.objlist[i], |g[st.objlist[i]].Children()|, st)
  }

  function Add(g: Graph, id: nat, st: State): State
    requires id < |g|
  {
    State(st.objlist + [id],
          if id in st.objtable then st.objtable else st.objtable[id := |st.objlist|],
          if g[id].Uniqued() then st.uniquing + {id} else st.uniquing)
  }

  /** The state after visiting object `id`: objects in the uniquing set are passed over, all
      others are listed before their children, an object met again keeping its first number. */
  function Flatten(g: Graph, id: nat, st: State): State
    requires Acyclic(g) && id < |g|
    decreases id, 1, 0
  {
    if g[id].Uniqued() && id in st.uniquing then st
    else FlattenFirst(g, id, |g[id].Children()|, Add(g, id, st))
  }

  /** The state after visiting the first `n` children of `id`. */
  function FlattenFirst(g: Graph, id: nat, n: nat, st: State): State
    requires Acyclic(g) && id < |g| && n <= |g[id].Children()|
    decreases id, 0, n
  {
    if n == 0 then st
    else Flatten(g, g[id].Children()[n - 1], FlattenFirst(g, id, n - 1, st))
  }

  lemma ExtendsTransitive(g: Graph, a: State, b: State, c: State)
    requires Extends(a, b) && Extends(b, c)
    ensures Extends(a, c)
  {
  }

  lemma NumberedExtends(g: Graph, id: nat, n: nat, a: State, b: State)
    requires id < |g| && n <= |g[id].Children()|
    requires Extends(a, b) && Numbered(g, id, n, a)
    ensures Numbered(g, id, n, b)
  {
  }

  /** What visiting may do to a state: keep it consistent, only add to it, and leave no newly
      listed object with an unnumbered child. */
  ghost predicate Sound(g: Graph, a: State, b: State) {
    Consistent(g, b) && Extends(a, b) && ClosedFrom(g, b, |a.objlist|)
  }

  lemma SoundReflexive(g: Graph, st: State)
    requires Consistent(g, st)
    ensures Sound(g, st, st)
  {
  }

  lemma SoundTransitive(g: Graph, a: State, b: State, c: State)
    requires Sound(g, a, b) && Sound(g, b, c)
    ensures Sound(g, a, c)
  {
    ExtendsTransitive(g, a, b, c);
    forall i | |a.objlist| <= i < |c.objlist| && c.objlist[i] < |g|
      ensures Numbered(g, c.objlist[i], |g[c.objlist[i]].Children()|, c)
    {
      if i < |b.objlist| {
        NumberedExtends(g, b.objlist[i], |g[b.objlist[i]].Children()|, b, c);
      }
    }
  }

  lemma AddSound(g: Graph, id: nat, st: State)
    requires id < |g| && Consistent(g, st)
    requires !(g[id].Uniqued() && id in st.uniquing)
    ensures Consistent(g, Add(g, id, st)) && Extends(st, Add(g, id, st))
    ensures id in Add(g, id, st).objtable
  {
  }

  /** Visiting an object is sound and gives the object a number. */
  lemma {:induction false} FlattenSound(g: Graph, id: nat, st: State)
    requires Acyclic(g) && id < |g| && Consistent(g, st)
    ensures var r := Flatten(g, id, st);
      Sound(g, st, r) && id in r.objtable
    decreases id, 1, 0
  {
    if !(g[id].Uniqued() && id in st.uniquing) {
      var added, n := Add(g, id, st), |g[id].Children()|;
      AddSound(g, id, st);
      FlattenFirstSound(g, id, n, added);
      var r := FlattenFirst(g, id, n, added);
      ExtendsTransitive(g, st, added, r);
      assert r.objlist[|st.objlist|] == added.objlist[|st.objlist|] == id;
    }
  }

  lemma ChildSound(g: Graph, id: nat, n: nat, st: State, before: State, r: State)
    requires id < |g| && 0 < n <= |g[id].Children()|
    requires Sound(g, st, before) && Numbered(g, id, n - 1, before)
    requires Sound(g, before, r) && g[id].Children()[n - 1] in r.objtable
    ensures Sound(g, st, r) && Numbered(g, id, n, r)
  {
    SoundTransitive(g, st, before, r);
    NumberedExtends(g, id, n - 1, before, r);
  }

  lemma {:induction false} FlattenFirstSound(g: Graph, id: nat, n: nat, st: State)
    requires Acyclic(g) && id < |g| && n <= |g[id].Children()| && Consistent(g, st)
    ensures var r := FlattenFirst(g, id, n, st);
      Sound(g, st, r) && Numbered(g, id, n, r)
    decreases id, 0, n
  {
    hide Consistent, Extends, ClosedFrom;
    if n == 0 {
      SoundReflexive(g, st);
    } else {
      FlattenFirstSound(g, id, n - 1, st);
      var before := FlattenFirst(g, id, n - 1, st);
      var child := g[id].Children()[n - 1];
      FlattenSound(g, child, before);
      ChildSound(g, id, n, st, before, Flatten(g, child, before));
    }
  }

  /** Flattening a whole graph: the root is object 0 and every child of every listed object
      has a number that names that very object. */
  lemma FlattenClosure(g: Graph, root: nat)
    requires Acyclic(g) && root < |g|
    ensures var r := Flatten(g, root, EMPTY);
      && Consistent(g, r)
      && |r.objlist| > 0 && r.objlist[0] == root && root in r.objtable && r.objtable[root] == 0
      && forall i, k :: 0 <= i < |r.objlist| && 0 <= k < |g[r.objlist[i]].Children()| ==>
           var child := g[r.objlist[i]].Children()[k];
           child in r.objtable && r.objtable[child] < |r.objlist| && r.objlist[r.objtable[child]] == child
  {
    FlattenSound(g, root, EMPTY);
    var r, added := Flatten(g, root, EMPTY), Add(g, root, EMPTY);
    AddSound(g, root, EMPTY);
    FlattenFirstSound(g, root, |g[root].Children()|, added);
    assert added.objlist[0] == root && added.objtable[root] == 0;
    forall i, k | 0 <= i < |r.objlist| && 0 <= k < |g[r.objlist[i]].Children()|
      ensures g[r.objlist[i]].Children()[k] in r.objtable
    {
      assert Numbered(g, r.objlist[i], |g[r.objlist[i]].Children()|, r);
    }
  }

  /** The writer's three collections, filled as the graph is walked. */
  class Flattener {
    var objlist: seq<nat>
    var objtable: map<nat, nat>
    var uniquing: set<nat>

    function View(): State
      reads this
    {
      State(objlist, objtable, uniquing)
    }

    constructor ()
      ensures View() == EMPTY
    {
      objlist, objtable, uniquing := [], map[], {};
    }

    method FlattenPlist(g: Graph, id: nat)
      requires Acyclic(g) && id < |g|
      modifies this
      ensures View() == Flatten(g, id, old(View()))
      decreases id
    {
      if g[id].Uniqued() {
        if id in uniquing {
          return;
        }
        uniquing := uniquing + {id};
      }
      var refnum := |objlist|;
      objlist := objlist + [id];
      if id !in objtable {
        objtable := objtable[id := refnum];
      }
      ghost var added := View();
      var list := g[id].Children();
      for idx := 0 to |list|
        invariant View() == FlattenFirst(g, id, idx, added)
      {
        FlattenPlist(g, list[idx]);
      }
    }
  }
}
