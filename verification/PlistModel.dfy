/** Property lists twice over: as the graph of objects the writer is handed, where two
    references may name one object, and as the tree of values the reader builds. */
module PlistModel {
  import opened Prelude

  /** Floating-point numbers and dates are their bit patterns; an object of a type that
      the format cannot hold is `Null`. */
  datatype Plist =
    | Null
    | Bool(flag: bool)
    | Int(number: int)
    | BigInt(high: int, low: Word)
    | Real32(single: int)
    | Real64(double: Word)
    | Date(time: Word)
    | Data(bytes: seq<Byte>)
    | Text(units: seq<Unit>)
    | Uid(uid: int)
    | Array(items: seq<Plist>)
    | Set(members: seq<Plist>)
    | Dict(keys: seq<Plist>, values: seq<Plist>)
  {
    predicate IsPrimitive() {
      !Array? && !Set? && !Dict?
    }

    /** The fields hold what their machine types can hold; lengths are CFIndex values. */
    predicate InRange() {
      match this
      case Data(bytes) => |bytes| < TWO_63
      case Text(units) => |units| < TWO_63
      case Int(n) => -TWO_63 <= n < TWO_63
      case BigInt(h, _) => -TWO_63 <= h < TWO_63
      case Real32(b) => 0 <= b < TWO_32
      case Uid(u) => 0 <= u < TWO_32
      case _ => true
    }
  }

  /** An object with identity. Children are named by their index in the graph. */
  datatype Node =
    | Leaf(value: Plist)
    | ArrayNode(items: seq<nat>)
    | DictNode(keys: seq<nat>, values: seq<nat>)
  {
    function Children(): seq<nat> {
      match this
      case Leaf(_) => []
      case ArrayNode(items) => items
      case DictNode(keys, values) => keys + values
    }

    /** Only these types are entered in the uniquing set. */
    predicate Uniqued() {
      && Leaf?
      && (value.Text? || value.Int? || value.BigInt? || value.Real32? || value.Real64? || value.Date? || value.Data?)
    }
  }

  type Graph = seq<Node>

  /** A finite acyclic graph, its objects named so that children come before parents. */
  ghost predicate Acyclic(g: Graph) {
    forall i :: 0 <= i < |g| ==> AllBelow(g[i].Children(), i)
  }

  ghost predicate AllBelow(ids: seq<nat>, bound: nat) {
    forall k :: 0 <= k < |ids| ==> ids[k] < bound
  }

  /** A collection in memory holds a pointer of eight bytes for each item. */
  const MAX_ITEMS: int := 0x2000_0000_0000_0000

  ghost predicate WellTyped(g: Graph) {
    forall i :: 0 <= i < |g| ==>
      match g[i]
      case Leaf(v) => v.IsPrimitive() && v.InRange()
      case ArrayNode(items) => |items| < MAX_ITEMS
      case DictNode(keys, values) => |keys| == |values| && |keys + values| < MAX_ITEMS
  }

  /** The value an object denotes. */
  ghost function Unfold(g: Graph, id: nat): (v: Plist)
    requires Acyclic(g) && id < |g|
    decreases id
  {
    match g[id]
    case Leaf(v) => v
    case ArrayNode(items) =>
      assert forall k :: 0 <= k < |items| ==> g[id].Children()[k] == items[k];
      Array(seq(|items|, k requires 0 <= k < |items| => Unfold(g, items[k])))
    case DictNode(keys, values) =>
      assert forall k :: 0 <= k < |keys| ==> g[id].Children()[k] == keys[k];
      assert forall k :: 0 <= k < |values| ==> g[id].Children()[|keys| + k] == values[k];
      Dict(seq(|keys|, k requires 0 <= k < |keys| => Unfold(g, keys[k])),
           seq(|values|, k requires 0 <= k < |values| => Unfold(g, values[k])))
  }
}
