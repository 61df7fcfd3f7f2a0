/**
  The JsonNode value: a tagged union over seven kinds of data, plus the two
  sidecar fields `meta` (free-form provenance text) and `flags` (meta-flags
  such as "override"). Children of vectors and structs are owned by value.
 */
module JsonValue {

  const INT64_MIN: int := -0x8000_0000_0000_0000
  const INT64_MAX: int := 0x7FFF_FFFF_FFFF_FFFF

  /** The `si64` payload of an integer node. */
  type Int64 = x: int | INT64_MIN <= x <= INT64_MAX

  /** The meta-flag that makes the merge engine treat a node as one whole value. */
  const OVERRIDE: string := "override"

  /** The type tag, one per alternative of the stored variant. */
  datatype JsonType =
    | DataNull
    | DataBool
    | DataFloat
    | DataString
    | DataVector
    | DataStruct
    | DataInteger

  /** The stored variant. A double is kept as its raw 64 bits and never interpreted. */
  datatype Data =
    | Null
    | Bool(b: bool)
    | Float(bits: bv64)
    | String(s: string)
    | Vector(entries: seq<Node>)
    | Struct(members: map<string, Node>)
    | Integer(i: Int64)

  datatype Node = Node(data: Data, meta: string, flags: seq<string>)

  /** A default-constructed node: null, no meta, no flags. */
  const Empty: Node := Node(Null, "", [])

  /** The double a const `Float()` read yields: the stored bits, or the double nearest an integer. */
  datatype Double = Bits(raw: bv64) | Nearest(value: int)

  function TypeOfData(d: Data): JsonType
  {
    match d
    case Null => DataNull
    case Bool(_) => DataBool
    case Float(_) => DataFloat
    case String(_) => DataString
    case Vector(_) => DataVector
    case Struct(_) => DataStruct
    case Integer(_) => DataInteger
  }

  /** getType: the tag names the alternative the node holds. */
  function TypeOf(n: Node): (t: JsonType)
    ensures t == DataNull <==> n.data.Null?
    ensures t == DataVector <==> n.data.Vector?
    ensures t == DataStruct <==> n.data.Struct?
  {
    TypeOfData(n.data)
  }

  /** The content a node gets when it is first coerced to type `t`. */
  function DefaultData(t: JsonType): (d: Data)
    ensures TypeOfData(d) == t
    ensures t != DataVector && t != DataStruct ==> d == Null || d == Bool(false) || d == Float(0)
                                                   || d == String("") || d == Integer(0)
    ensures d.Vector? ==> d.entries == []
    ensures d.Struct? ==> d.members == map[]
  {
    match t
    case DataNull => Null
    case DataBool => Bool(false)
    case DataFloat => Float(0)
    case DataString => String("")
    case DataVector => Vector([])
    case DataStruct => Struct(map[])
    case DataInteger => Integer(0)
  }

  /** The node built by the constructor `JsonNode(Type)`. */
  function NewNode(t: JsonType): (n: Node)
    ensures TypeOf(n) == t && n.meta == "" && n.flags == []
    ensures n.data == DefaultData(t)
  {
    Node(DefaultData(t), "", [])
  }

  /**
    setType: keeps the node as it is when it already has type `t`, and
    otherwise replaces its content by the default content of `t`.
   */
  function SetType(n: Node, t: JsonType): (r: Node)
    ensures TypeOf(r) == t
    ensures r.meta == n.meta && r.flags == n.flags
    ensures TypeOf(n) == t ==> r == n
    ensures TypeOf(n) != t ==> r.data == DefaultData(t)
  {
    if TypeOf(n) == t then n else n.(data := DefaultData(t))
  }

  /** clear: the node becomes null and holds no data; meta and flags stay. */
  function Clear(n: Node): (r: Node)
    ensures r.data == Null && TypeOf(r) == DataNull
    ensures r.meta == n.meta && r.flags == n.flags
  {
    SetType(n, DataNull)
  }

  predicate IsNull(n: Node)
    ensures IsNull(n) <==> TypeOf(n) == DataNull
  {
    n.data.Null?
  }

  /** Both numeric representations count as a number. */
  predicate IsNumber(n: Node)
    ensures IsNumber(n) <==> TypeOf(n) == DataFloat || TypeOf(n) == DataInteger
  {
    n.data.Float? || n.data.Integer?
  }

  predicate IsString(n: Node)
    ensures IsString(n) <==> TypeOf(n) == DataString
  {
    n.data.String?
  }

  predicate IsVector(n: Node)
    ensures IsVector(n) <==> TypeOf(n) == DataVector
  {
    n.data.Vector?
  }

  predicate IsStruct(n: Node)
    ensures IsStruct(n) <==> TypeOf(n) == DataStruct
  {
    n.data.Struct?
  }

  predicate IsOverride(n: Node)
  {
    OVERRIDE in n.flags
  }

  /**
    containsBaseData: the node holds non-null data. A null node holds none;
    a scalar always does; a vector or a struct does exactly when one of its
    children does. Only `data` is looked at, never `meta` or `flags`.
   */
  predicate ContainsBaseData(n: Node): (r: bool)
    ensures r ==> !n.data.Null?
    ensures !r ==> n.data.Null? || n.data.Vector? || n.data.Struct?
    ensures n.data.Vector? && n.data.entries == [] ==> !r
    ensures n.data.Struct? && n.data.members == map[] ==> !r
    decreases n
  {
    match n.data
    case Null => false
    case Vector(xs) => exists i :: 0 <= i < |xs| && ContainsBaseData(xs[i])
    case Struct(m) => exists k :: k in m && ContainsBaseData(m[k])
    case _ => true
  }

  // Const accessors: each requires the node to carry the matching tag.

  function AsBool(n: Node): (b: bool)
    requires n.data.Bool?
    ensures n == Node(Bool(b), n.meta, n.flags)
  {
    n.data.b
  }

  /** Allowed on both numeric representations; an integer is widened to a double. */
  function AsFloat(n: Node): (r: Double)
    requires IsNumber(n)
    ensures n.data.Float? ==> r == Bits(n.data.bits)
    ensures n.data.Integer? ==> r == Nearest(n.data.i)
  {
    if n.data.Float? then Bits(n.data.bits) else Nearest(n.data.i)
  }

  /** Allowed on the integer representation only. */
  function AsInteger(n: Node): (i: Int64)
    requires n.data.Integer?
    ensures n == Node(Integer(i), n.meta, n.flags)
  {
    n.data.i
  }

  function AsString(n: Node): (s: string)
    requires n.data.String?
    ensures n == Node(String(s), n.meta, n.flags)
  {
    n.data.s
  }

  function AsVector(n: Node): (xs: seq<Node>)
    requires n.data.Vector?
    ensures n == Node(Vector(xs), n.meta, n.flags)
  {
    n.data.entries
  }

  function AsStruct(n: Node): (m: map<string, Node>)
    requires n.data.Struct?
    ensures n == Node(Struct(m), n.meta, n.flags)
  {
    n.data.members
  }

  /**
    A mutating accessor coerces the node to its type; the const accessor of
    the same type is then always allowed and reads the coerced content.
   */
  lemma CoercionEnablesConstAccess(n: Node)
    ensures AsBool(SetType(n, DataBool)) == (if n.data.Bool? then n.data.b else false)
    ensures AsFloat(SetType(n, DataFloat)) == Bits(if n.data.Float? then n.data.bits else 0)
    ensures AsInteger(SetType(n, DataInteger)) == (if n.data.Integer? then n.data.i else 0)
    ensures AsString(SetType(n, DataString)) == (if n.data.String? then n.data.s else "")
    ensures AsVector(SetType(n, DataVector)) == (if n.data.Vector? then n.data.entries else [])
    ensures AsStruct(SetType(n, DataStruct)) == (if n.data.Struct? then n.data.members else map[])
  {
  }

  /** Const `operator[](key)`, structs only: the member, or an empty node when absent. */
  function Member(n: Node, key: string): (c: Node)
    requires n.data.Struct?
    ensures key in n.data.members ==> c == n.data.members[key]
    ensures key !in n.data.members ==> c == Empty
  {
    if key in n.data.members then n.data.members[key] else Empty
  }

  /** Const `operator[](index)`, vectors only, index in range. */
  function Entry(n: Node, index: nat): (c: Node)
    requires n.data.Vector? && index < |n.data.entries|
    ensures c in n.data.entries && c == n.data.entries[index]
  {
    n.data.entries[index]
  }

  /**
    `operator==`: two nodes are equal when their data are, recursively;
    `meta` and `flags` take no part in the comparison.
   */
  predicate Equals(a: Node, b: Node): (r: bool)
    ensures r ==> TypeOf(a) == TypeOf(b)
    ensures !a.data.Vector? && !a.data.Struct? ==> (r <==> a.data == b.data)
    decreases a
  {
    match a.data
    case Vector(xs) =>
      b.data.Vector? && |xs| == |b.data.entries| &&
      forall i :: 0 <= i < |xs| ==> Equals(xs[i], b.data.entries[i])
    case Struct(m) =>
      b.data.Struct? && m.Keys == b.data.members.Keys &&
      forall k :: k in m ==> Equals(m[k], b.data.members[k])
    case _ => a.data == b.data
  }

  lemma {:induction false} EqualsReflexive(a: Node)
    ensures Equals(a, a)
    decreases a
  {
    match a.data
    case Vector(xs) =>
      forall i | 0 <= i < |xs| ensures Equals(xs[i], xs[i]) {
        EqualsReflexive(xs[i]);
      }
    case Struct(m) =>
      forall k | k in m ensures Equals(m[k], m[k]) {
        EqualsReflexive(m[k]);
      }
    case _ =>
  }

  lemma {:induction false} EqualsSymmetric(a: Node, b: Node)
    requires Equals(a, b)
    ensures Equals(b, a)
    decreases a
  {
    match a.data
    case Vector(xs) =>
      forall i | 0 <= i < |xs| ensures Equals(b.data.entries[i], xs[i]) {
        EqualsSymmetric(xs[i], b.data.entries[i]);
      }
    case Struct(m) =>
      forall k | k in m ensures Equals(b.data.members[k], m[k]) {
        EqualsSymmetric(m[k], b.data.members[k]);
      }
    case _ =>
  }

  lemma {:induction false} EqualsTransitive(a: Node, b: Node, c: Node)
    requires Equals(a, b) && Equals(b, c)
    ensures Equals(a, c)
    decreases a
  {
    match a.data
    case Vector(xs) =>
      forall i | 0 <= i < |xs| ensures Equals(xs[i], c.data.entries[i]) {
        EqualsTransitive(xs[i], b.data.entries[i], c.data.entries[i]);
      }
    case Struct(m) =>
      forall k | k in m ensures Equals(m[k], c.data.members[k]) {
        EqualsTransitive(m[k], b.data.members[k], c.data.members[k]);
      }
    case _ =>
  }

  /** Equal nodes agree on whether they contain base data. */
  lemma {:induction false} BaseDataRespectsEquals(a: Node, b: Node)
    requires Equals(a, b)
    ensures ContainsBaseData(a) <==> ContainsBaseData(b)
    decreases a
  {
    match a.data
    case Vector(xs) =>
      forall i | 0 <= i < |xs| ensures ContainsBaseData(xs[i]) <==> ContainsBaseData(b.data.entries[i]) {
        BaseDataRespectsEquals(xs[i], b.data.entries[i]);
      }
      if ContainsBaseData(b) {
        var i :| 0 <= i < |b.data.entries| && ContainsBaseData(b.data.entries[i]);
        assert ContainsBaseData(xs[i]);
      }
    case Struct(m) =>
      forall k | k in m ensures ContainsBaseData(m[k]) <==> ContainsBaseData(b.data.members[k]) {
        BaseDataRespectsEquals(m[k], b.data.members[k]);
      }
      if ContainsBaseData(b) {
        var k :| k in b.data.members && ContainsBaseData(b.data.members[k]);
        assert ContainsBaseData(m[k]);
      }
    case _ =>
  }

  /**
    setMeta: sets `meta` on the node and, when `recursive`, on every node
    below it; nothing else changes.
   */
  function SetMeta(n: Node, meta: string, recursive: bool): (r: Node)
    ensures r.meta == meta && r.flags == n.flags && TypeOf(r) == TypeOf(n)
    ensures n.data.Vector? ==> |r.data.entries| == |n.data.entries|
    ensures n.data.Struct? ==> r.data.members.Keys == n.data.members.Keys
    ensures !recursive ==> r.data == n.data
    decreases n
  {
    var d :=
      if !recursive then n.data
      else match n.data
        case Vector(xs) => Vector(seq(|xs|, i requires 0 <= i < |xs| => SetMeta(xs[i], meta, true)))
        case Struct(m) => Struct(map k | k in m :: SetMeta(m[k], meta, true))
        case other => other;
    Node(d, meta, n.flags)
  }

  /** Every node of the tree carries `meta`. */
  predicate MetaEverywhere(n: Node, meta: string)
    decreases n
  {
    n.meta == meta &&
    match n.data
    case Vector(xs) => forall i :: 0 <= i < |xs| ==> MetaEverywhere(xs[i], meta)
    case Struct(m) => forall k :: k in m ==> MetaEverywhere(m[k], meta)
    case _ => true
  }

  /** Every node of the tree carries the flags it had before `SetMeta`. */
  predicate SameFlags(a: Node, b: Node)
    decreases a
  {
    a.flags == b.flags &&
    match a.data
    case Vector(xs) =>
      b.data.Vector? && |xs| == |b.data.entries| &&
      forall i :: 0 <= i < |xs| ==> SameFlags(xs[i], b.data.entries[i])
    case Struct(m) =>
      b.data.Struct? && m.Keys == b.data.members.Keys &&
      forall k :: k in m ==> SameFlags(m[k], b.data.members[k])
    case _ => true
  }

  /**
    `setMeta` changes metadata only: the result is equal to the input,
    keeps every flag, carries `meta` at the top, and carries it on every
    node when `recursive`; without `recursive` the children are untouched.
   */
  lemma {:induction false} SetMetaChangesMetaOnly(n: Node, meta: string, recursive: bool)
    ensures Equals(SetMeta(n, meta, recursive), n)
    ensures SameFlags(SetMeta(n, meta, recursive), n)
    ensures SetMeta(n, meta, recursive).meta == meta
    ensures recursive ==> MetaEverywhere(SetMeta(n, meta, recursive), meta)
    ensures !recursive ==> SetMeta(n, meta, recursive).data == n.data
    decreases n
  {
    var r := SetMeta(n, meta, recursive);
    if recursive {
      match n.data
      case Vector(xs) =>
        forall i | 0 <= i < |xs|
          ensures Equals(r.data.entries[i], xs[i]) && SameFlags(r.data.entries[i], xs[i])
          ensures MetaEverywhere(r.data.entries[i], meta)
        {
          SetMetaChangesMetaOnly(xs[i], meta, true);
        }
      case Struct(m) =>
        forall k | k in m
          ensures Equals(r.data.members[k], m[k]) && SameFlags(r.data.members[k], m[k])
          ensures MetaEverywhere(r.data.members[k], meta)
        {
          SetMetaChangesMetaOnly(m[k], meta, true);
        }
      case _ =>
    } else {
      EqualsReflexive(n);
      SameFlagsReflexive(n);
    }
  }

  lemma {:induction false} SameFlagsReflexive(a: Node)
    ensures SameFlags(a, a)
    decreases a
  {
    match a.data
    case Vector(xs) =>
      forall i | 0 <= i < |xs| ensures SameFlags(xs[i], xs[i]) {
        SameFlagsReflexive(xs[i]);
      }
    case Struct(m) =>
      forall k | k in m ensures SameFlags(m[k], m[k]) {
        SameFlagsReflexive(m[k]);
      }
    case _ =>
  }
}
