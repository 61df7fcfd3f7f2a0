/**
  Typed conversion, `convertTo<Type>()`: a node is projected onto a native
  shape chosen by the caller (bool, string, int, vector, set, map of
  string). The node must have the tag that shape asks for, all the way
  down; a mismatch is a contract violation, so it is a precondition here.
  Numeric targets take integer nodes only, and the `int` target only
  values in its 32-bit range.
 */
module JsonConvert {
  import opened JsonValue
  import opened JsonUtils

  const INT32_MIN: int := -0x8000_0000
  const INT32_MAX: int := 0x7FFF_FFFF

  /** The target types `convertTo` is instantiated with. */
  datatype Shape =
    | BoolTarget
    | StringTarget
    | IntTarget
    | VectorOf(elem: Shape)
    | SetOf(elem: Shape)
    | MapOf(elem: Shape)

  /** A value of a target type. */
  datatype Native =
    | NBool(b: bool)
    | NString(s: string)
    | NInt(i: int)
    | NVector(items: seq<Native>)
    | NSet(elems: set<Native>)
    | NMap(entries: map<string, Native>)

  /** The node has the tags the target shape needs, at every level. */
  predicate Convertible(n: Node, t: Shape)
    decreases n
  {
    match t
    case BoolTarget => n.data.Bool?
    case StringTarget => n.data.String?
    case IntTarget => n.data.Integer? && INT32_MIN <= n.data.i <= INT32_MAX
    case VectorOf(e) =>
      n.data.Vector? && forall i :: 0 <= i < |n.data.entries| ==> Convertible(n.data.entries[i], e)
    case SetOf(e) =>
      n.data.Vector? && forall i :: 0 <= i < |n.data.entries| ==> Convertible(n.data.entries[i], e)
    case MapOf(e) =>
      n.data.Struct? && forall k :: k in n.data.members ==> Convertible(n.data.members[k], e)
  }

  /** The native value has the target shape, at every level. */
  predicate Conforms(v: Native, t: Shape)
    decreases v
  {
    match t
    case BoolTarget => v.NBool?
    case StringTarget => v.NString?
    case IntTarget => v.NInt? && INT32_MIN <= v.i <= INT32_MAX
    case VectorOf(e) => v.NVector? && forall i :: 0 <= i < |v.items| ==> Conforms(v.items[i], e)
    case SetOf(e) => v.NSet? && forall x :: x in v.elems ==> Conforms(x, e)
    case MapOf(e) => v.NMap? && forall k :: k in v.entries ==> Conforms(v.entries[k], e)
  }

  /**
    `convertTo`: bools, strings and integers are read as they are; a vector
    gives one converted element per entry, in order; a set gives the set of
    the converted entries; a map gives one converted value per key.
   */
  function Convert(n: Node, t: Shape): (v: Native)
    requires Convertible(n, t)
    ensures Conforms(v, t)
    decreases n
  {
    match t
    case BoolTarget => NBool(n.data.b)
    case StringTarget => NString(n.data.s)
    case IntTarget => NInt(n.data.i)
    case VectorOf(e) =>
      var xs := n.data.entries;
      NVector(seq(|xs|, i requires 0 <= i < |xs| => Convert(xs[i], e)))
    case SetOf(e) =>
      var xs := n.data.entries;
      NSet(set i | 0 <= i < |xs| :: Convert(xs[i], e))
    case MapOf(e) =>
      var m := n.data.members;
      NMap(map k | k in m :: Convert(m[k], e))
  }

  /** `JsonConverter<std::vector<T>>`: push_back of each converted entry. */
  method ConvertVector(n: Node, elem: Shape) returns (items: seq<Native>)
    requires Convertible(n, VectorOf(elem))
    ensures |items| == |n.data.entries|
    ensures forall i :: 0 <= i < |items| ==> items[i] == Convert(n.data.entries[i], elem)
    ensures NVector(items) == Convert(n, VectorOf(elem))
  {
    var xs := n.data.entries;
    items := [];
    for i := 0 to |xs|
      invariant |items| == i
      invariant forall j :: 0 <= j < i ==> items[j] == Convert(xs[j], elem)
    {
      items := items + [Convert(xs[i], elem)];
    }
  }

  /** `JsonConverter<std::set<T>>`: insert of each converted entry. */
  method ConvertSet(n: Node, elem: Shape) returns (elems: set<Native>)
    requires Convertible(n, SetOf(elem))
    ensures forall x :: x in elems <==> exists i :: 0 <= i < |n.data.entries| && x == Convert(n.data.entries[i], elem)
    ensures NSet(elems) == Convert(n, SetOf(elem))
  {
    var xs := n.data.entries;
    elems := {};
    for i := 0 to |xs|
      invariant elems == set j | 0 <= j < i :: Convert(xs[j], elem)
    {
      elems := elems + {Convert(xs[i], elem)};
    }
  }

  /** `JsonConverter<std::map<std::string, T>>`: one converted value per member, under its key. */
  method ConvertMap(n: Node, elem: Shape) returns (entries: map<string, Native>)
    requires Convertible(n, MapOf(elem))
    ensures entries.Keys == n.data.members.Keys
    ensures forall k :: k in entries ==> entries[k] == Convert(n.data.members[k], elem)
    ensures NMap(entries) == Convert(n, MapOf(elem))
  {
    var m := n.data.members;
    entries := map[];
    var todo := m.Keys;
    while todo != {}
      invariant todo <= m.Keys
      invariant entries.Keys == m.Keys - todo
      invariant forall k :: k in entries ==> entries[k] == Convert(m[k], elem)
      decreases todo
    {
      var k :| k in todo;
      entries := entries[k := Convert(m[k], elem)];
      todo := todo - {k};
    }
  }

  /** Converting to a set gives exactly the elements of the conversion to a vector. */
  lemma SetIsVectorElements(n: Node, elem: Shape)
    requires Convertible(n, VectorOf(elem))
    ensures Convertible(n, SetOf(elem))
    ensures Convert(n, SetOf(elem)).elems == set x | x in Convert(n, VectorOf(elem)).items
    ensures |Convert(n, SetOf(elem)).elems| <= |n.data.entries|
  {
    var items := Convert(n, VectorOf(elem)).items;
    var elems := Convert(n, SetOf(elem)).elems;
    assert elems == set x | x in items by {
      var xs := n.data.entries;
      forall x | x in items ensures x in elems {
        var i :| 0 <= i < |items| && items[i] == x;
        assert x == Convert(xs[i], elem);
      }
      forall x | x in elems ensures x in items {
        var i :| 0 <= i < |xs| && x == Convert(xs[i], elem);
        assert items[i] == x;
      }
    }
    SetOfSeqSize(items);
  }

  lemma {:induction false} SetOfSeqSize(s: seq<Native>)
    ensures |set x | x in s| <= |s|
    decreases |s|
  {
    if s != [] {
      SetOfSeqSize(s[1..]);
      assert (set x | x in s) == (set x | x in s[1..]) + {s[0]};
    }
  }

  /** Conversion reads data only: equal nodes convert alike. */
  lemma {:induction false} ConvertRespectsEquals(a: Node, b: Node, t: Shape)
    requires Equals(a, b) && Convertible(a, t)
    ensures Convertible(b, t) && Convert(a, t) == Convert(b, t)
    decreases a
  {
    match t
    case VectorOf(e) =>
      var xs, ys := a.data.entries, b.data.entries;
      forall i | 0 <= i < |xs| ensures Convertible(ys[i], e) && Convert(xs[i], e) == Convert(ys[i], e) {
        ConvertRespectsEquals(xs[i], ys[i], e);
      }
    case SetOf(e) =>
      var xs, ys := a.data.entries, b.data.entries;
      forall i | 0 <= i < |xs| ensures Convertible(ys[i], e) && Convert(xs[i], e) == Convert(ys[i], e) {
        ConvertRespectsEquals(xs[i], ys[i], e);
      }
    case MapOf(e) =>
      var am, bm := a.data.members, b.data.members;
      forall k | k in am ensures Convertible(bm[k], e) && Convert(am[k], e) == Convert(bm[k], e) {
        ConvertRespectsEquals(am[k], bm[k], e);
      }
      assert Convert(a, t).entries == Convert(b, t).entries;
    case _ =>
  }

  /** The leaf constructors of JsonUtils convert back to the value they were built from. */
  lemma LeafConstructorsConvertBack(b: bool, s: string, i: Int64)
    requires INT32_MIN <= i <= INT32_MAX
    ensures Convertible(BoolNode(b), BoolTarget) && Convert(BoolNode(b), BoolTarget) == NBool(b)
    ensures Convertible(StringNode(s), StringTarget) && Convert(StringNode(s), StringTarget) == NString(s)
    ensures Convertible(IntNode(i), IntTarget) && Convert(IntNode(i), IntTarget) == NInt(i)
  {
  }
}
