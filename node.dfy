/**
  The JsonNode object, whose methods change its stored variant in place,
  and the JsonUtils operations that change nodes in place: merge (which
  consumes its source), mergeCopy and inherit. Each method is specified by
  the value functions of JsonValue, JsonPointer and JsonUtils.
 */
module JsonObjects {
  import opened JsonValue
  import opened JsonPointer
  import opened JsonUtils

  class JsonNode {
    var data: Data
    var meta: string
    var flags: seq<string>

    /** The node as a value. */
    function Value(): Node
      reads this
    {
      Node(data, meta, flags)
    }

    /** `JsonNode(Type)`: an empty node of the given type. */
    constructor (t: JsonType)
      ensures Value() == NewNode(t)
    {
      data := DefaultData(t);
      meta := "";
      flags := [];
    }

    /** The copy constructor. */
    constructor Copy(n: Node)
      ensures Value() == n
    {
      data := n.data;
      meta := n.meta;
      flags := n.flags;
    }

    method SetType(t: JsonType)
      modifies this
      ensures Value() == JsonValue.SetType(old(Value()), t)
    {
      if TypeOfData(data) != t {
        data := DefaultData(t);
      }
    }

    method GetType() returns (t: JsonType)
      ensures t == TypeOf(Value())
    {
      t := TypeOfData(data);
    }

    method Clear()
      modifies this
      ensures Value() == JsonValue.Clear(old(Value()))
    {
      SetType(DataNull);
    }

    // The non-const accessors: each coerces the node to its type first and
    // then yields the (possibly fresh) content.

    method BoolRef() returns (b: bool)
      modifies this
      ensures Value() == JsonValue.SetType(old(Value()), DataBool)
      ensures b == AsBool(Value())
    {
      SetType(DataBool);
      b := data.b;
    }

    method FloatRef() returns (bits: bv64)
      modifies this
      ensures Value() == JsonValue.SetType(old(Value()), DataFloat)
      ensures AsFloat(Value()) == Bits(bits)
    {
      SetType(DataFloat);
      bits := data.bits;
    }

    method IntegerRef() returns (i: Int64)
      modifies this
      ensures Value() == JsonValue.SetType(old(Value()), DataInteger)
      ensures i == AsInteger(Value())
    {
      SetType(DataInteger);
      i := data.i;
    }

    method StringRef() returns (s: string)
      modifies this
      ensures Value() == JsonValue.SetType(old(Value()), DataString)
      ensures s == AsString(Value())
    {
      SetType(DataString);
      s := data.s;
    }

    method VectorRef() returns (xs: seq<Node>)
      modifies this
      ensures Value() == JsonValue.SetType(old(Value()), DataVector)
      ensures xs == AsVector(Value())
    {
      SetType(DataVector);
      xs := data.entries;
    }

    method StructRef() returns (m: map<string, Node>)
      modifies this
      ensures Value() == JsonValue.SetType(old(Value()), DataStruct)
      ensures m == AsStruct(Value())
    {
      SetType(DataStruct);
      m := data.members;
    }

    method SetMeta(metadata: string, recursive: bool)
      modifies this
      ensures Value() == JsonValue.SetMeta(old(Value()), metadata, recursive)
    {
      var r := JsonValue.SetMeta(Value(), metadata, recursive);
      data, meta := r.data, r.meta;
    }

    /** Non-const `operator[](key)`: yields the member, created empty when absent. */
    method MemberRef(key: string) returns (child: Node)
      modifies this
      ensures Value() == WithMember(old(Value()), key)
      ensures child == Member(Value(), key)
    {
      var r := WithMember(Value(), key);
      data := r.data;
      child := data.members[key];
    }

    /** Non-const `operator[](index)`: yields the entry, growing the vector when needed. */
    method EntryRef(index: nat) returns (child: Node)
      modifies this
      ensures Value() == WithEntry(old(Value()), index)
      ensures child == Entry(Value(), index)
    {
      var r := WithEntry(Value(), index);
      data := r.data;
      child := data.entries[index];
    }

    /**
      A write through the reference of `operator[](key)`, `node[key] = v`:
      the node becomes a struct holding `v` under `key`; its other members
      (none when it was not a struct) and its sidecar fields stay.
     */
    method AssignMember(key: string, v: Node)
      modifies this
      ensures meta == old(meta) && flags == old(flags)
      ensures data.Struct? && Member(Value(), key) == v
      ensures data.members.Keys == (if old(data).Struct? then old(data).members.Keys else {}) + {key}
      ensures old(data).Struct? ==> forall k :: k in old(data).members && k != key ==>
                data.members[k] == old(data).members[k]
    {
      var r := WithMember(Value(), key);
      data := Struct(r.data.members[key := v]);
    }

    /**
      Non-const `resolvePointer`: creates the missing steps of the path and
      yields the node there, which is the one the const form finds.
     */
    method ResolvePointerRef(pointer: string) returns (target: Node)
      modifies this
      ensures Value() == Touch(old(Value()), Segments(pointer))
      ensures target == ResolvePointer(old(Value()), pointer)
      ensures target == ResolvePointer(Value(), pointer)
    {
      var segs := Segments(pointer);
      target := Resolve(Value(), segs);
      var r := Touch(Value(), segs);
      TouchAgreesWithResolve(Value(), segs);
      data, meta, flags := r.data, r.meta, r.flags;
    }

    /** A write through the reference of `resolvePointer`: the const form then reads `v` there. */
    method AssignPointer(pointer: string, v: Node)
      modifies this
      ensures Value() == Put(old(Value()), Segments(pointer), v)
      ensures ResolvePointer(Value(), pointer) == v
    {
      var segs := Segments(pointer);
      var r := Put(Value(), segs, v);
      PutThenResolve(Value(), segs, v);
      data, meta, flags := r.data, r.meta, r.flags;
    }
  }

  /**
    `merge(dest, source, ignoreOverride, copyMeta)`: `dest` becomes the
    merged node; the source's data is consumed and left null.
   */
  method Merge(dest: JsonNode, source: JsonNode, ignoreOverride: bool, copyMeta: bool)
    requires dest != source
    modifies dest, source
    ensures dest.Value() == MergeValue(old(dest.Value()), old(source.Value()), ignoreOverride, copyMeta)
    ensures source.data == Null && source.meta == old(source.meta) && source.flags == old(source.flags)
  {
    var d, s := dest.Value(), source.Value();
    if s.data.Null? {
    } else if !Recurses(d, s, ignoreOverride) {
      dest.data, dest.meta, dest.flags := s.data, s.meta, s.flags;
    } else if s.data.Struct? {
      var merged := MergeMembers(d.data.members, s.data.members, ignoreOverride, copyMeta);
      MergeStructMembers(d, s, ignoreOverride, copyMeta);
      dest.data := Struct(merged);
      dest.meta := MergedMeta(d, s, copyMeta);
    } else {
      var merged := MergeEntries(d.data.entries, s.data.entries, ignoreOverride, copyMeta);
      MergeVectorEntries(d, s, ignoreOverride, copyMeta);
      dest.data := Vector(merged);
      dest.meta := MergedMeta(d, s, copyMeta);
    }
    source.data := Null;
  }

  /** The loop over the source's members: a null member deletes, any other is merged in. */
  method MergeMembers(dm: map<string, Node>, sm: map<string, Node>, ignoreOverride: bool, copyMeta: bool)
    returns (merged: map<string, Node>)
    ensures merged.Keys == (dm.Keys + sm.Keys) - NullKeys(sm)
    ensures forall k :: k in merged ==>
              merged[k] == if k in sm then MergeValue(Child(dm, k), sm[k], ignoreOverride, copyMeta) else dm[k]
  {
    merged := dm;
    var todo := sm.Keys;
    while todo != {}
      invariant todo <= sm.Keys
      invariant merged.Keys == (dm.Keys + (sm.Keys - todo)) - (NullKeys(sm) - todo)
      invariant forall k :: k in merged ==>
                  merged[k] == if k in sm && k !in todo then MergeValue(Child(dm, k), sm[k], ignoreOverride, copyMeta)
                               else dm[k]
      decreases todo
    {
      var k :| k in todo;
      if sm[k].data.Null? {
        merged := merged - {k};
      } else {
        assert Child(merged, k) == Child(dm, k);
        merged := merged[k := MergeValue(Child(merged, k), sm[k], ignoreOverride, copyMeta)];
      }
      todo := todo - {k};
    }
  }

  /**
    The loop over the source's entries: merged index by index (a null
    source entry deletes the data of its counterpart), extra ones appended.
   */
  method MergeEntries(dv: seq<Node>, sv: seq<Node>, ignoreOverride: bool, copyMeta: bool)
    returns (merged: seq<Node>)
    ensures |merged| == Max(|dv|, |sv|)
    ensures forall i :: 0 <= i < |merged| ==>
              merged[i] == if i < |sv| && i < |dv| then MergeEntry(dv[i], sv[i], ignoreOverride, copyMeta)
                           else if i < |sv| then sv[i] else dv[i]
  {
    merged := dv;
    for i := 0 to |sv|
      invariant |merged| == Max(|dv|, i)
      invariant forall j :: 0 <= j < |merged| ==>
                  merged[j] == if j < i && j < |dv| then MergeEntry(dv[j], sv[j], ignoreOverride, copyMeta)
                               else if j < i then sv[j] else dv[j]
    {
      if i < |merged| && sv[i].data.Null? {
        merged := merged[i := Empty];
      } else if i < |merged| {
        merged := merged[i := MergeValue(merged[i], sv[i], ignoreOverride, copyMeta)];
      } else {
        merged := merged + [sv[i]];
      }
    }
  }

  /**
    `mergeCopy(dest, source, ...)`: `dest` ends as `merge` would leave it,
    and the caller's source is not touched, because a copy is consumed.
   */
  method MergeCopy(dest: JsonNode, source: JsonNode, ignoreOverride: bool, copyMeta: bool)
    modifies dest
    ensures dest.Value() == MergeValue(old(dest.Value()), old(source.Value()), ignoreOverride, copyMeta)
    ensures dest != source ==> source.Value() == old(source.Value())
  {
    var copy := new JsonNode.Copy(source.Value());
    Merge(dest, copy, ignoreOverride, copyMeta);
  }

  /**
    `inherit(descendant, base)`: the descendant is merged into a copy of the
    base and the result replaces the descendant; the base is not touched.
   */
  method Inherit(descendant: JsonNode, base: JsonNode)
    modifies descendant
    ensures descendant.Value() == JsonUtils.Inherit(old(descendant.Value()), old(base.Value()))
    ensures descendant != base ==> base.Value() == old(base.Value())
  {
    var inherited := new JsonNode.Copy(base.Value());
    var own := new JsonNode.Copy(descendant.Value());
    Merge(inherited, own, false, false);
    descendant.data, descendant.meta, descendant.flags := inherited.data, inherited.meta, inherited.flags;
  }
}
