/**
  Small worked trees: what merge, intersect, difference, pointer
  resolution and conversion give on concrete input.
 */
module JsonScenarios {
  import opened JsonValue
  import opened JsonUtils
  import opened JsonPointer
  import opened JsonConvert

  function Obj(m: map<string, Node>): Node
  {
    Node(Struct(m), "", [])
  }

  function Arr(xs: seq<Node>): Node
  {
    Node(Vector(xs), "", [])
  }

  /** A config override: a scalar is replaced, a null deletes, a new key is added, an untouched key stays. */
  lemma MergeConfigOverride()
    ensures MergeValue(
              Obj(map["speed" := IntNode(5), "name" := StringNode("pikeman"), "cost" := IntNode(60)]),
              Obj(map["speed" := IntNode(6), "cost" := Empty, "shots" := IntNode(10)]),
              false, false)
            == Obj(map["speed" := IntNode(6), "name" := StringNode("pikeman"), "shots" := IntNode(10)])
  {
    ReplaceDeleteAdd("speed", "name", "cost", "shots", IntNode(5), StringNode("pikeman"), IntNode(60), IntNode(6), IntNode(10));
  }

  /** The shape of `MergeConfigOverride`, for any four keys and scalar members. */
  lemma ReplaceDeleteAdd(kept: string, named: string, dropped: string, added: string,
                         old1: Node, old2: Node, old3: Node, new1: Node, new4: Node)
    requires |{kept, named, dropped, added}| == 4
    requires new1.data.Integer? && new4.data.Integer?
    ensures MergeValue(
              Obj(map[kept := old1, named := old2, dropped := old3]),
              Obj(map[kept := new1, dropped := Empty, added := new4]),
              false, false)
            == Obj(map[kept := new1, named := old2, added := new4])
  {
    var d := Obj(map[kept := old1, named := old2, dropped := old3]);
    var s := Obj(map[kept := new1, dropped := Empty, added := new4]);
    var r := MergeValue(d, s, false, false).data.members;
    DeletedKeyIsGone(kept, named, dropped, added, old1, old2, old3, new1, new4);
    var want := map[kept := new1, named := old2, added := new4];
    assert r.Keys == want.Keys;
    assert r[kept] == new1 && r[named] == old2 && r[added] == new4 by {
      MergeStructMembers(d, s, false, false);
      MergeSourceWins(old1, new1, false, false);
      MergeSourceWins(Empty, new4, false, false);
    }
    assert r == want;
  }

  /** The key set of `ReplaceDeleteAdd`: the null member is deleted, the new one added. */
  lemma DeletedKeyIsGone(kept: string, named: string, dropped: string, added: string,
                         old1: Node, old2: Node, old3: Node, new1: Node, new4: Node)
    requires |{kept, named, dropped, added}| == 4
    requires new1.data.Integer? && new4.data.Integer?
    ensures var r := MergeValue(
              Obj(map[kept := old1, named := old2, dropped := old3]),
              Obj(map[kept := new1, dropped := Empty, added := new4]),
              false, false);
      r.data.Struct? && r.meta == "" && r.flags == [] && r.data.members.Keys == {kept, named, added}
  {
    var d := Obj(map[kept := old1, named := old2, dropped := old3]);
    var s := Obj(map[kept := new1, dropped := Empty, added := new4]);
    MergeStructMembers(d, s, false, false);
    assert NullKeys(s.data.members) == {dropped};
  }

  /** An "override" flag makes the source vector replace the destination vector instead of merging into it. */
  lemma OverrideReplacesVector()
    ensures MergeValue(Arr([IntNode(1), IntNode(2)]), Overriding(Arr([IntNode(7)])), false, false).data
            == Vector([IntNode(7)])
    ensures MergeValue(Arr([IntNode(1), IntNode(2)]), Arr([IntNode(7)]), false, false).data
            == Vector([IntNode(7), IntNode(2)])
  {
  }

  /** A null entry of the source deletes the data of the matching entry; later entries keep their index. */
  lemma NullEntryDeletes()
    ensures MergeValue(Arr([IntNode(1), IntNode(2)]), Arr([Empty, IntNode(7)]), false, false).data
            == Vector([Empty, IntNode(7)])
    ensures MergeValue(Arr([IntNode(1), IntNode(2)]), Arr([Empty]), false, false).data
            == Vector([Empty, IntNode(2)])
  {
  }

  /** The common base of two bonuses: shared equal fields stay, differing ones are pruned away. */
  lemma IntersectTwoBonuses()
    ensures Intersect(
              Obj(map["type" := StringNode("PRIMARY_SKILL"), "val" := IntNode(1)]),
              Obj(map["type" := StringNode("PRIMARY_SKILL"), "val" := IntNode(2)]),
              true)
            == Obj(map["type" := StringNode("PRIMARY_SKILL")])
  {
    SharedFieldSurvives("type", "val", StringNode("PRIMARY_SKILL"), IntNode(1), IntNode(2));
  }

  /** The shape of `IntersectTwoBonuses`, for any two keys and scalar members. */
  lemma SharedFieldSurvives(shared: string, differing: string, x: Node, y: Node, z: Node)
    requires shared != differing
    requires x.data.String? && y.data.Integer? && z.data.Integer? && y.data != z.data
    ensures Intersect(Obj(map[shared := x, differing := y]), Obj(map[shared := x, differing := z]), true)
            == Obj(map[shared := x])
  {
    var a := Obj(map[shared := x, differing := y]);
    var b := Obj(map[shared := x, differing := z]);
    IntersectStructMembers(a, b, true);
    assert Intersect(x, x, true) == x;
    assert Intersect(y, z, true) == Empty;
  }

  /** `/a/b/1` reaches into a vector by index; a path past its end reads as an empty node. */
  lemma ResolveNestedPointer()
    ensures var n := Obj(map["a" := Obj(map["b" := Arr([IntNode(10), IntNode(20)])])]);
      && ResolvePointer(n, "/a/b/1") == IntNode(20)
      && ResolvePointer(n, "/a/b/9") == Empty
  {
    var n := Obj(map["a" := Obj(map["b" := Arr([IntNode(10), IntNode(20)])])]);
    var inner := Arr([IntNode(10), IntNode(20)]);
    PointerOf("a", "b", "1");
    PointerOf("a", "b", "9");
    assert "/" + "a" + "/" + "b" + "/" + "1" == "/a/b/1";
    assert "/" + "a" + "/" + "b" + "/" + "9" == "/a/b/9";
    IndexRoundTrip(1, "1");
    IndexRoundTrip(9, "9");
    assert IndexText(1) == "1" && IndexText(9) == "9";
    assert Step(n, "a") == Obj(map["b" := inner]);
    assert Step(Obj(map["b" := inner]), "b") == inner;
    assert Resolve(inner, ["1"]) == IntNode(20);
    assert Resolve(inner, ["9"]) == Empty;
    assert ["a", "b", "1"][1..] == ["b", "1"] && ["b", "1"][1..] == ["1"];
    assert ["a", "b", "9"][1..] == ["b", "9"] && ["b", "9"][1..] == ["9"];
  }

  /** The segments of a pointer written out from three plain segments. */
  lemma PointerOf(s0: string, s1: string, s2: string)
    requires '/' !in s0 && '/' !in s1 && '/' !in s2
    ensures Segments("/" + s0 + "/" + s1 + "/" + s2) == [s0, s1, s2]
  {
    var segs := [s0, s1, s2];
    var tail := s1 + "/" + s2;
    assert Join(segs[1..]) == tail by {
      assert segs[1..][1..] == [s2];
    }
    assert PointerText(segs) == "/" + (s0 + "/" + tail);
    assert "/" + (s0 + "/" + tail) == "/" + s0 + "/" + s1 + "/" + s2;
    PointerRoundTrip(segs, "");
  }

  /** `[1, 2, 3]` converts to the vector and to the set of those integers. */
  lemma ConvertSmallVector()
    ensures var n := Arr([IntNode(1), IntNode(2), IntNode(3)]);
      && Convertible(n, VectorOf(IntTarget))
      && Convert(n, VectorOf(IntTarget)) == NVector([NInt(1), NInt(2), NInt(3)])
      && Convert(n, SetOf(IntTarget)) == NSet({NInt(1), NInt(2), NInt(3)})
  {
    ThreeIntegers(IntNode(1), IntNode(2), IntNode(3));
  }

  /** The shape of `ConvertSmallVector`, for any three 32-bit integer entries. */
  lemma ThreeIntegers(x: Node, y: Node, z: Node)
    requires x.data.Integer? && INT32_MIN <= x.data.i <= INT32_MAX
    requires y.data.Integer? && INT32_MIN <= y.data.i <= INT32_MAX
    requires z.data.Integer? && INT32_MIN <= z.data.i <= INT32_MAX
    ensures var n := Arr([x, y, z]);
      && Convertible(n, VectorOf(IntTarget))
      && Convert(n, VectorOf(IntTarget)) == NVector([NInt(x.data.i), NInt(y.data.i), NInt(z.data.i)])
      && Convert(n, SetOf(IntTarget)) == NSet({NInt(x.data.i), NInt(y.data.i), NInt(z.data.i)})
  {
    var xs := [x, y, z];
    assert Convert(x, IntTarget) == NInt(x.data.i);
    assert Convert(y, IntTarget) == NInt(y.data.i);
    assert Convert(z, IntTarget) == NInt(z.data.i);
    assert Convert(Arr(xs), VectorOf(IntTarget)).items == [NInt(x.data.i), NInt(y.data.i), NInt(z.data.i)];
    assert Convert(Arr(xs), SetOf(IntTarget)).elems == {NInt(x.data.i), NInt(y.data.i), NInt(z.data.i)} by {
      assert xs[0] == x && xs[1] == y && xs[2] == z;
    }
  }

  /** The difference of `{a:1, b:2}` over `{a:1}` is `{b:2}`, and merging it back restores the node. */
  lemma DifferenceAddsMember()
    ensures var node := Obj(map["a" := IntNode(1), "b" := IntNode(2)]);
      var base := Obj(map["a" := IntNode(1)]);
      && Difference(node, base) == Obj(map["b" := IntNode(2)])
      && Equals(MergeValue(base, Difference(node, base), false, false), node)
  {
    var node := Obj(map["a" := IntNode(1), "b" := IntNode(2)]);
    var base := Obj(map["a" := IntNode(1)]);
    NewMemberDifference("a", "b", IntNode(1), IntNode(2));
    DifferenceRoundTrip(node, base, false);
  }

  /** The shape of `DifferenceAddsMember`, for any two keys and scalar members. */
  lemma NewMemberDifference(shared: string, added: string, x: Node, y: Node)
    requires shared != added
    requires x.data.Integer? && y.data.Integer?
    ensures Difference(Obj(map[shared := x, added := y]), Obj(map[shared := x])) == Obj(map[added := y])
  {
    var nm, bm := map[shared := x, added := y], map[shared := x];
    assert !HasNullMember(Obj(nm)) by {
      assert forall k :: k in nm ==> !nm[k].data.Null?;
    }
    assert Equals(x, x);
  }
}
