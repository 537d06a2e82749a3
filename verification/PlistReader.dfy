/** The recursive reader: it rebuilds the object at an offset, remembers finished objects,
    and starts to record the path of offsets only below depth 15. */
module PlistReader {
  import opened Prelude
  import opened SizedInts
  import opened PlistModel
  import opened PlistFormat
  import opened PlistTrailer
  import opened PlistDecode

  lemma ListAgrees(f: File, offs: seq<nat>, n: nat, m: nat)
    requires f.Trusted() && f.ParseList(offs, n).Some?
    requires forall i :: 0 <= i < |offs| ==> f.ParseN(offs[i], m) == f.ParseN(offs[i], n)
    ensures f.ParseList(offs, m) == f.ParseList(offs, n)
  {
    hide File.ParseN;
    assert f.AllParseN(offs, n) && f.AllParseN(offs, m);
    var a, b := f.ParseList(offs, n).value, f.ParseList(offs, m).value;
    assert forall i :: 0 <= i < |offs| ==> a[i] == f.ParseN(offs[i], n).value && b[i] == f.ParseN(offs[i], m).value;
    assert a == b;
  }

  /** More fuel never changes a result. */
  lemma {:induction false} FuelMonotone(f: File, off: nat, n: nat, m: nat)
    requires f.Trusted() && n <= m && f.ParseN(off, n).Some?
    ensures f.ParseN(off, m) == f.ParseN(off, n)
    decreases n
  {
    hide File.Decode, File.Targets, Build;
    if f.Decode(off).Refers? {
      var cs := f.Targets(off);
      assert f.AllParseN(cs, n - 1);
      forall i | 0 <= i < |cs|
        ensures f.ParseN(cs[i], m - 1) == f.ParseN(cs[i], n - 1)
      {
        FuelMonotone(f, cs[i], n - 1, m - 1);
      }
      ListAgrees(f, cs, n - 1, m - 1);
    }
  }

  /** The value of an offset does not depend on the fuel that found it. */
  lemma ValueUnique(f: File, off: nat, n: nat)
    requires f.Trusted() && f.ParseN(off, n).Some?
    ensures f.Parses(off) && f.Value(off) == f.ParseN(off, n).value
  {
    var m: nat :| f.ParseN(off, m).Some? && f.Value(off) == f.ParseN(off, m).value;
    if n <= m { FuelMonotone(f, off, n, m); } else { FuelMonotone(f, off, m, n); }
  }

  ghost predicate AllParse(f: File, offs: seq<nat>)
    requires f.Trusted()
  {
    forall i :: 0 <= i < |offs| ==> f.Parses(offs[i])
  }

  ghost function ValuesOf(f: File, offs: seq<nat>): seq<Plist>
    requires f.Trusted() && AllParse(f, offs)
  {
    seq(|offs|, i requires 0 <= i < |offs| => f.Value(offs[i]))
  }

  /** Finitely many offsets that parse have one fuel that serves them all. */
  lemma {:induction false} CommonFuel(f: File, offs: seq<nat>) returns (fuel: nat)
    requires f.Trusted() && AllParse(f, offs)
    ensures f.AllParseN(offs, fuel)
  {
    hide File.ParseN;
    fuel := 0;
    if offs != [] {
      var last := offs[|offs| - 1];
      var rest := offs[..|offs| - 1];
      assert forall i :: 0 <= i < |rest| ==> rest[i] == offs[i];
      var a := CommonFuel(f, rest);
      var b: nat :| f.ParseN(last, b).Some?;
      fuel := if a < b then b else a;
      FuelMonotone(f, last, b, fuel);
      forall i | 0 <= i < |offs|
        ensures f.ParseN(offs[i], fuel).Some?
      {
        if i < |rest| { assert f.ParseN(rest[i], a).Some?; FuelMonotone(f, rest[i], a, fuel); }
      }
    }
  }

  lemma ListValues(f: File, offs: seq<nat>, fuel: nat)
    requires f.Trusted() && f.AllParseN(offs, fuel)
    ensures AllParse(f, offs) && f.ParseList(offs, fuel) == Some(ValuesOf(f, offs))
  {
    hide File.ParseN, File.Parses, File.Value;
    forall i | 0 <= i < |offs|
      ensures f.Parses(offs[i]) && f.Value(offs[i]) == f.ParseN(offs[i], fuel).value
    {
      ValueUnique(f, offs[i], fuel);
    }
    var list := f.ParseList(offs, fuel).value;
    assert forall i :: 0 <= i < |offs| ==> list[i] == f.ParseN(offs[i], fuel).value;
    assert list == ValuesOf(f, offs);
  }

  /** A collection parses exactly when all it refers to parses and its keys are primitive. */
  lemma CollectionParses(f: File, off: nat)
    requires f.Trusted() && f.Decode(off).Refers?
    ensures f.Parses(off) <==>
      AllParse(f, f.Targets(off)) && Build(f.Decode(off).kind, ValuesOf(f, f.Targets(off))).Some?
    ensures f.Parses(off) ==>
      AllParse(f, f.Targets(off)) && Some(f.Value(off)) == Build(f.Decode(off).kind, ValuesOf(f, f.Targets(off)))
  {
    hide File.Decode, File.Targets, Build, ValuesOf;
    var cs := f.Targets(off);
    if f.Parses(off) {
      var n: nat :| f.ParseN(off, n).Some?;
      assert f.ParseList(cs, n - 1).Some?;
      ListValues(f, cs, n - 1);
      ValueUnique(f, off, n);
    }
    if AllParse(f, cs) && Build(f.Decode(off).kind, ValuesOf(f, cs)).Some? {
      var n := CommonFuel(f, cs);
      ListValues(f, cs, n);
      assert f.ParseN(off, n + 1).Some?;
    }
  }

  lemma WholeParses(f: File, off: nat)
    requires f.Trusted() && !f.Decode(off).Refers?
    ensures f.Parses(off) <==> f.Decode(off).Whole?
    ensures f.Parses(off) ==> f.Value(off) == f.Decode(off).value
  {
    hide File.Decode;
    if f.Decode(off).Whole? {
      ValueUnique(f, off, 0);
    }
  }

  /** `q` is met by following exactly `steps` references from `p`. */
  ghost predicate ReachesIn(f: File, p: nat, q: nat, steps: nat)
    requires f.Trusted()
    decreases steps
  {
    if steps == 0 then p == q
    else exists m: nat :: ReachesIn(f, p, m, steps - 1) && q in f.Targets(m)
  }

  ghost predicate Reaches(f: File, p: nat, q: nat)
    requires f.Trusted()
  {
    exists steps: nat :: steps > 0 && ReachesIn(f, p, q, steps)
  }

  lemma ReachesStep(f: File, p: nat, m: nat, q: nat)
    requires f.Trusted() && (p == m || Reaches(f, p, m)) && q in f.Targets(m)
    ensures Reaches(f, p, q)
  {
    hide File.Targets;
    if p == m {
      assert ReachesIn(f, p, m, 0);
      assert ReachesIn(f, p, q, 1);
    } else {
      var steps: nat :| steps > 0 && ReachesIn(f, p, m, steps);
      assert ReachesIn(f, p, q, steps + 1);
    }
  }

  /** Following references uses up fuel. */
  lemma {:induction false} ReachedParses(f: File, p: nat, q: nat, steps: nat, fuel: nat)
    requires f.Trusted() && ReachesIn(f, p, q, steps) && f.ParseN(p, fuel).Some?
    ensures steps <= fuel && f.ParseN(q, fuel - steps).Some?
    decreases steps
  {
    hide File.Decode, File.Targets, Build;
    if steps > 0 {
      var m: nat :| ReachesIn(f, p, m, steps - 1) && q in f.Targets(m);
      ReachedParses(f, p, m, steps - 1, fuel);
      RefersIfTargets(f, m);
      assert f.AllParseN(f.Targets(m), fuel - steps);
    }
  }

  lemma RefersIfTargets(f: File, off: nat)
    requires f.Trusted() && f.Targets(off) != []
    ensures f.Decode(off).Refers?
  {
  }

  lemma {:induction false} CycleNeverEnds(f: File, off: nat, steps: nat, fuel: nat)
    requires f.Trusted() && steps > 0 && ReachesIn(f, off, off, steps)
    ensures f.ParseN(off, fuel).None?
    decreases fuel
  {
    hide File.ParseN, ReachesIn;
    if f.ParseN(off, fuel).Some? {
      ReachedParses(f, off, off, steps, fuel);
      CycleNeverEnds(f, off, steps, fuel - steps);
    }
  }

  /** An object that reaches itself has no value. */
  lemma NoCycles(f: File, off: nat)
    requires f.Trusted() && Reaches(f, off, off)
    ensures !f.Parses(off)
  {
    hide File.ParseN, ReachesIn;
    var steps: nat :| steps > 0 && ReachesIn(f, off, off, steps);
    forall fuel: nat
      ensures f.ParseN(off, fuel).None?
    {
      CycleNeverEnds(f, off, steps, fuel);
    }
  }

  datatype Mutability = Immutable | MutableContainers | MutableContainersAndLeaves

  /** Finished objects by offset. */
  class ObjectTable {
    var entries: map<nat, Plist>

    constructor ()
      ensures entries == map[]
    {
      entries := map[];
    }
  }

  /** Offsets of the objects being read. */
  class OffsetSet {
    var offsets: set<nat>

    constructor ()
      ensures offsets == {}
    {
      offsets := {};
    }
  }

  /** A table that holds only values earlier parses found. */
  ghost predicate Sound(f: File, entries: map<nat, Plist>)
    requires f.Trusted()
  {
    forall off :: off in entries ==> f.Parses(off) && f.Value(off) == entries[off]
  }

  /** Every offset in the set is that of an object containing the one at `off`. */
  ghost predicate OnPath(f: File, offsets: set<nat>, off: nat)
    requires f.Trusted()
  {
    forall p :: p in offsets ==> Reaches(f, p, off)
  }

  /** How many levels may still pass before offsets are recorded. */
  function Level(recording: bool, curDepth: nat): nat {
    if recording then 0 else if curDepth < 16 then 17 - curDepth else 1
  }

  ghost function Below(n: nat): (s: set<nat>)
    ensures forall x: nat :: x in s <==> x < n
  {
    if n == 0 then {} else Below(n - 1) + {n - 1}
  }

  /** Offsets of the object section not yet recorded. */
  ghost function Unrecorded(f: File, offsets: set<nat>): nat
    requires f.Trusted()
  {
    |Below(f.trailer.offsetTableOffset) - offsets|
  }

  lemma RecordingDecreases(f: File, offsets: set<nat>, off: nat)
    requires f.Trusted() && 8 <= off < f.trailer.offsetTableOffset && off !in offsets
    ensures Unrecorded(f, offsets + {off}) < Unrecorded(f, offsets)
  {
    var all := Below(f.trailer.offsetTableOffset);
    assert all - (offsets + {off}) == (all - offsets) - {off};
  }

  /** Follows the reference stored at `bytesptr`. */
  method GetOffsetOfRefAt(f: File, bytesptr: int) returns (off: nat)
    requires f.Trusted()
    ensures off == f.RefTarget(bytesptr)
  {
    hide SizedInt;
    if bytesptr < 8 || f.trailer.offsetTableOffset - f.trailer.objectRefSize < bytesptr {
      return NO_OFFSET;
    }
    var ref := GetSizedInt(f.data, bytesptr, f.trailer.objectRefSize);
    if f.trailer.numObjects <= ref {
      return NO_OFFSET;
    }
    off := GetSizedInt(f.data, EntryAt(f.data, f.trailer, ref), f.trailer.offsetIntSize);
  }

  /** Whether the reader keeps the object in the table of finished objects. */
  predicate Kept(v: Plist, option: Mutability) {
    match v
    case Null => false
    case Bool(_) => false
    case Data(_) => option != MutableContainersAndLeaves
    case Text(_) => option != MutableContainersAndLeaves
    case Array(_) => option == Immutable
    case Set(_) => option == Immutable
    case Dict(_, _) => option == Immutable
    case _ => true
  }

  /** Reads the object at `startOffset`. Whatever sound table of finished objects it is given,
      and whether or not offsets are being recorded yet, it succeeds exactly when everything
      reachable is well formed and acyclic, and then returns the value there. */
  method CreateObject(f: File, startOffset: nat, option: Mutability, objects: ObjectTable?, path: OffsetSet?,
                      curDepth: nat) returns (ok: bool, plist: Plist)
    requires f.Trusted()
    requires objects != null ==> Sound(f, objects.entries)
    requires path != null ==> OnPath(f, path.offsets, startOffset)
    modifies objects, path
    ensures ok <==> f.Parses(startOffset)
    ensures ok ==> plist == f.Value(startOffset)
    ensures objects != null ==> Sound(f, objects.entries)
    ensures ok && path != null ==> path.offsets == old(path.offsets)
    decreases Level(path != null, curDepth), if path == null then 0 else Unrecorded(f, path.offsets), 2
  {
    hide File.Decode, File.Parses, File.Value, Reaches, Unrecorded, FitsTogether;
    plist := Null;
    if objects != null && startOffset in objects.entries {
      return true, objects.entries[startOffset];
    }
    if path != null && startOffset in path.offsets {
      NoCycles(f, startOffset);
      return false, Null;
    }
    match f.Decode(startOffset)
    case Malformed =>
      WholeParses(f, startOffset);
      return false, Null;
    case Whole(v) =>
      WholeParses(f, startOffset);
      ok, plist := true, v;
    case Refers(kind, first, count) =>
      ok, plist := CreateCollection(f, startOffset, option, objects, path, curDepth);
      if !ok {
        return;
      }
    if objects != null && Kept(plist, option) {
      objects.entries := objects.entries[startOffset := plist];
    }
  }

  /** The first `n` of the objects referred to have the values in `list`. */
  ghost predicate ReadSoFar(f: File, offs: seq<nat>, list: seq<Plist>)
    requires f.Trusted()
  {
    |list| <= |offs| && forall i :: 0 <= i < |list| ==> f.Parses(offs[i]) && f.Value(offs[i]) == list[i]
  }

  ghost predicate KeysPrimitive(kind: Kind, list: seq<Plist>, count: nat) {
    kind == DictKind ==> forall i :: 0 <= i < |list| && i < count / 2 ==> list[i].IsPrimitive()
  }

  lemma AllRead(f: File, off: nat, list: seq<Plist>)
    requires f.Trusted() && f.Decode(off).Refers?
    requires ReadSoFar(f, f.Targets(off), list) && |list| == |f.Targets(off)|
    requires KeysPrimitive(f.Decode(off).kind, list, |list|)
    ensures f.Parses(off) && Some(f.Value(off)) == Build(f.Decode(off).kind, list)
  {
    hide File.Decode, File.Targets, File.Parses, File.Value;
    assert AllParse(f, f.Targets(off));
    assert ValuesOf(f, f.Targets(off)) == list;
    CollectionParses(f, off);
  }

  lemma ItemFails(f: File, off: nat, i: nat)
    requires f.Trusted() && f.Decode(off).Refers? && i < |f.Targets(off)|
    requires f.Parses(f.Targets(off)[i]) ==>
      f.Decode(off).kind == DictKind && i < f.Decode(off).count / 2 && !f.Value(f.Targets(off)[i]).IsPrimitive()
    ensures !f.Parses(off)
  {
    hide File.Decode, File.Targets, File.Parses, File.Value;
    var cs := f.Targets(off);
    TargetCount(f, off);
    CollectionParses(f, off);
    if AllParse(f, cs) {
      assert f.Parses(cs[i]) && ValuesOf(f, cs)[i] == f.Value(cs[i]);
    }
  }

  lemma TargetCount(f: File, off: nat)
    requires f.Trusted() && f.Decode(off).Refers?
    ensures |f.Targets(off)| == f.Decode(off).count
    ensures forall i :: 0 <= i < |f.Targets(off)| ==>
      f.Targets(off)[i] == f.RefTarget(f.Decode(off).first + i * f.trailer.objectRefSize)
  {
    hide File.Decode, File.RefTarget;
  }

  /** Once an offset is recorded, the path leads to everything the object there refers to. */
  lemma PathToTarget(f: File, offsets: set<nat>, off: nat, target: nat)
    requires f.Trusted() && OnPath(f, offsets - {off}, off) && target in f.Targets(off)
    ensures OnPath(f, offsets, target)
  {
    hide File.Targets, Reaches;
    forall p | p in offsets
      ensures Reaches(f, p, target)
    {
      if p != off { assert p in offsets - {off}; }
      ReachesStep(f, p, off, target);
    }
  }

  /** Reads what the collection at `startOffset` refers to, one reference after the other. */
  method CreateList(f: File, startOffset: nat, option: Mutability, objects: ObjectTable?, path: OffsetSet?,
                    curDepth: nat) returns (ok: bool, list: seq<Plist>)
    requires f.Trusted() && f.Decode(startOffset).Refers?
    requires objects != null ==> Sound(f, objects.entries)
    requires path == null ==> curDepth <= 15
    requires path != null ==> OnPath(f, path.offsets - {startOffset}, startOffset)
    modifies objects, path
    ensures ok <==> f.Parses(startOffset)
    ensures ok ==> Some(f.Value(startOffset)) == Build(f.Decode(startOffset).kind, list)
    ensures objects != null ==> Sound(f, objects.entries)
    ensures ok && path != null ==> path.offsets == old(path.offsets)
    decreases Level(path != null, curDepth), if path == null then 0 else Unrecorded(f, path.offsets),
      if path == null then 0 else 3
  {
    hide File.Decode, File.Targets, File.Parses, File.Value, File.RefTarget, Build, Sound, OnPath, Unrecorded,
      FitsTogether;
    var Refers(kind, first, count) := f.Decode(startOffset);
    ghost var cs := f.Targets(startOffset);
    TargetCount(f, startOffset);
    list := [];
    var ptr: int := first;
    for idx := 0 to count
      invariant ptr == first + idx * f.trailer.objectRefSize
      invariant |list| == idx && ReadSoFar(f, cs, list) && KeysPrimitive(kind, list, count)
      invariant objects != null ==> Sound(f, objects.entries)
      invariant path != null ==> path.offsets == old(path.offsets)
    {
      var off := GetOffsetOfRefAt(f, ptr);
      assert off == cs[idx];
      if path != null {
        PathToTarget(f, path.offsets, startOffset, off);
      }
      var pl;
      ok, pl := CreateObject(f, off, option, objects, path, curDepth + 1);
      if !ok || (kind == DictKind && idx < count / 2 && !pl.IsPrimitive()) {
        ItemFails(f, startOffset, idx);
        return false, [];
      }
      list := list + [pl];
      ptr := ptr + f.trailer.objectRefSize;
    }
    AllRead(f, startOffset, list);
    ok := true;
  }

  /** Reads the collection at `startOffset`, its own offset recorded meanwhile. */
  method CreateCollection(f: File, startOffset: nat, option: Mutability, objects: ObjectTable?, path: OffsetSet?,
                          curDepth: nat) returns (ok: bool, plist: Plist)
    requires f.Trusted() && f.Decode(startOffset).Refers?
    requires objects != null ==> Sound(f, objects.entries)
    requires path != null ==> OnPath(f, path.offsets, startOffset) && startOffset !in path.offsets
    modifies objects, path
    ensures ok <==> f.Parses(startOffset)
    ensures ok ==> plist == f.Value(startOffset)
    ensures objects != null ==> Sound(f, objects.entries)
    ensures ok && path != null ==> path.offsets == old(path.offsets)
    decreases Level(path != null, curDepth), if path == null then 0 else Unrecorded(f, path.offsets), 1
  {
    hide File.Parses, File.Value, Build, Sound, Unrecorded, FitsTogether, Reaches;
    var set' := path;
    if set' == null && 15 < curDepth {
      set' := new OffsetSet();
    }
    ghost var before := if set' == null then {} else set'.offsets;
    if set' != null {
      RefersInside(f, startOffset);
      RecordingDecreases(f, before, startOffset);
      set'.offsets := set'.offsets + {startOffset};
      assert set'.offsets - {startOffset} == before;
    }
    var list;
    ok, list := CreateList(f, startOffset, option, objects, set', curDepth);
    if !ok {
      return false, Null;
    }
    plist := Build(f.Decode(startOffset).kind, list).value;
    if set' != null {
      set'.offsets := set'.offsets - {startOffset};
    }
  }

  lemma RefersInside(f: File, off: nat)
    requires f.Trusted() && f.Decode(off).Refers?
    ensures 8 <= off < f.trailer.offsetTableOffset
  {
  }

  /** The file in `data`, and the offset of its top object. */
  function FileOf(data: seq<Byte>): File
    requires |data| >= TRAILER_SIZE
  {
    File(data, ReadTrailer(data))
  }

  function TopOffset(f: File): nat
    requires f.Trusted()
  {
    OffsetAt(f.data, f.trailer, f.trailer.topObject)
  }

  /** Parses a whole file, with a table of finished objects and no offsets recorded at first. */
  method TryParse(data: seq<Byte>, option: Mutability) returns (ok: bool, plist: Plist)
    requires |data| < TWO_64
    ensures ok <==> Accepted(data) && FileOf(data).Parses(TopOffset(FileOf(data)))
    ensures ok ==> plist == FileOf(data).Value(TopOffset(FileOf(data)))
  {
    hide OffsetAt, FitsTogether, OffsetsInside;
    var marker, offset, trailer;
    ok, marker, offset, trailer := GetTopLevelInfo(data);
    plist := Null;
    if ok {
      var objects := new ObjectTable();
      ok, plist := CreateObject(File(data, trailer), offset, option, objects, null, 0);
    }
  }
}
