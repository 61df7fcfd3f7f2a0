/**
  The structural algebra of JsonUtils on node values: merge (the value it
  leaves in `dest`), inherit, intersect (binary and over a list),
  difference, and the small node constructors.
 */
module JsonUtils {
  import opened JsonValue

  function Max(a: nat, b: nat): nat
  {
    if a < b then b else a
  }

  /** The child of a struct under `key`; absent keys read as a fresh empty node. */
  function Child(m: map<string, Node>, key: string): Node
  {
    if key in m then m[key] else Empty
  }

  /** The keys a source struct asks to delete: those present but null. */
  function NullKeys(m: map<string, Node>): set<string>
  {
    set k | k in m && m[k].data.Null?
  }

  /**
    Whether `source` is merged into `dest` member by member (two structs) or
    entry by entry (two vectors), rather than replacing it. A source flagged
    "override" blocks this unless `ignoreOverride` is set.
   */
  predicate Recurses(dest: Node, source: Node, ignoreOverride: bool)
  {
    (ignoreOverride || !IsOverride(source)) &&
    ((dest.data.Struct? && source.data.Struct?) || (dest.data.Vector? && source.data.Vector?))
  }

  /** The meta a node merged into (not replaced) ends up with. */
  function MergedMeta(dest: Node, source: Node, copyMeta: bool): string
  {
    if copyMeta then source.meta else dest.meta
  }

  /**
    The node `merge(dest, source, ignoreOverride, copyMeta)` leaves in
    `dest`. A null source at the top leaves `dest` as it is; a null member of
    a source struct deletes that member from `dest`; a null entry of a source
    vector deletes the data of that entry of `dest`, leaving an empty node in
    its place so that later entries keep their index; two structs merge per
    source key; two vectors merge per index, the longer one giving the
    length; anything else is replaced by `source`, meta and flags included.
   */
  function MergeValue(dest: Node, source: Node, ignoreOverride: bool, copyMeta: bool): (r: Node)
    ensures source.data.Null? ==> r == dest
    ensures !source.data.Null? ==> (r.data.Struct? <==> source.data.Struct?) && (r.data.Vector? <==> source.data.Vector?)
    decreases source, 0
  {
    if source.data.Null? then dest
    else if !Recurses(dest, source, ignoreOverride) then source
    else match source.data
      case Struct(sm) =>
        var dm := dest.data.members;
        var merged := map k | k in dm.Keys + sm.Keys && k !in NullKeys(sm) ::
          if k in sm then MergeValue(Child(dm, k), sm[k], ignoreOverride, copyMeta) else dm[k];
        Node(Struct(merged), MergedMeta(dest, source, copyMeta), dest.flags)
      case Vector(sv) =>
        var dv := dest.data.entries;
        var merged := seq(Max(|dv|, |sv|), i requires 0 <= i < Max(|dv|, |sv|) =>
          if i < |sv| && i < |dv| then MergeEntry(dv[i], sv[i], ignoreOverride, copyMeta)
          else if i < |sv| then sv[i]
          else dv[i]);
        Node(Vector(merged), MergedMeta(dest, source, copyMeta), dest.flags)
  }

  /** One entry of a vector merge: a null source entry deletes, any other is merged in. */
  function MergeEntry(dest: Node, source: Node, ignoreOverride: bool, copyMeta: bool): Node
    decreases source, 1
  {
    if source.data.Null? then Empty else MergeValue(dest, source, ignoreOverride, copyMeta)
  }

  /**
    The case list of the merge documentation, member by member: a null
    source member deletes, a member only in `dest` stays, a member of
    `source` is merged into the matching member of `dest` (or into a fresh
    empty node when `dest` has none).
   */
  lemma MergeStructMembers(dest: Node, source: Node, ignoreOverride: bool, copyMeta: bool)
    requires dest.data.Struct? && source.data.Struct?
    requires ignoreOverride || !IsOverride(source)
    ensures var r := MergeValue(dest, source, ignoreOverride, copyMeta);
      var dm, sm := dest.data.members, source.data.members;
      && r.data.Struct?
      && r.meta == MergedMeta(dest, source, copyMeta) && r.flags == dest.flags
      && r.data.members.Keys == (dm.Keys + sm.Keys) - NullKeys(sm)
      && (forall k :: k in sm && sm[k].data.Null? ==> k !in r.data.members)
      && (forall k :: k in dm && k !in sm ==> r.data.members[k] == dm[k])
      && (forall k :: k in sm && !sm[k].data.Null? ==>
            r.data.members[k] == MergeValue(Child(dm, k), sm[k], ignoreOverride, copyMeta))
  {
  }

  /**
    The vector case: entry-wise merge, a null source entry deleting the data
    of its counterpart, extra source entries appended, extra dest entries kept.
   */
  lemma MergeVectorEntries(dest: Node, source: Node, ignoreOverride: bool, copyMeta: bool)
    requires dest.data.Vector? && source.data.Vector? && !source.data.Null?
    requires ignoreOverride || !IsOverride(source)
    ensures var r := MergeValue(dest, source, ignoreOverride, copyMeta);
      var dv, sv := dest.data.entries, source.data.entries;
      && r.data.Vector?
      && r.meta == MergedMeta(dest, source, copyMeta) && r.flags == dest.flags
      && |r.data.entries| == Max(|dv|, |sv|)
      && (forall i :: 0 <= i < |sv| && i < |dv| && sv[i].data.Null? ==> r.data.entries[i] == Empty)
      && (forall i :: 0 <= i < |sv| && i < |dv| && !sv[i].data.Null? ==>
            r.data.entries[i] == MergeValue(dv[i], sv[i], ignoreOverride, copyMeta))
      && (forall i :: |dv| <= i < |sv| ==> r.data.entries[i] == sv[i])
      && (forall i :: |sv| <= i < |dv| ==> r.data.entries[i] == dv[i])
  {
  }

  /**
    Source wins: a null source leaves `dest` alone; otherwise the result has
    the source's type, and a scalar source, a source of another type than
    `dest`, or an override-flagged source replaces `dest` outright.
   */
  lemma MergeSourceWins(dest: Node, source: Node, ignoreOverride: bool, copyMeta: bool)
    ensures source.data.Null? ==> MergeValue(dest, source, ignoreOverride, copyMeta) == dest
    ensures !source.data.Null? ==> TypeOf(MergeValue(dest, source, ignoreOverride, copyMeta)) == TypeOf(source)
    ensures !source.data.Null? && TypeOf(dest) != TypeOf(source) ==>
              MergeValue(dest, source, ignoreOverride, copyMeta) == source
    ensures !source.data.Null? && !source.data.Vector? && !source.data.Struct? ==>
              MergeValue(dest, source, ignoreOverride, copyMeta) == source
    ensures !source.data.Null? && !ignoreOverride && IsOverride(source) ==>
              MergeValue(dest, source, ignoreOverride, copyMeta) == source
  {
  }

  /** Merging into a non-null node never leaves a null node: no source can null a node. */
  lemma MergeKeepsNonNull(dest: Node, source: Node, ignoreOverride: bool, copyMeta: bool)
    requires !dest.data.Null?
    ensures !MergeValue(dest, source, ignoreOverride, copyMeta).data.Null?
  {
  }

  /** No struct member anywhere in the tree is null (so merging it deletes nothing). */
  predicate NoNullMembers(n: Node)
    decreases n
  {
    match n.data
    case Vector(xs) => forall i :: 0 <= i < |xs| ==> NoNullMembers(xs[i])
    case Struct(m) => forall k :: k in m ==> !m[k].data.Null? && NoNullMembers(m[k])
    case _ => true
  }

  /** No node anywhere in the tree carries the "override" flag. */
  predicate NoOverride(n: Node)
    decreases n
  {
    !IsOverride(n) &&
    match n.data
    case Vector(xs) => forall i :: 0 <= i < |xs| ==> NoOverride(xs[i])
    case Struct(m) => forall k :: k in m ==> NoOverride(m[k])
    case _ => true
  }

  /** Idempotence: merging a node into a copy of itself gives a node equal to it. */
  lemma {:induction false} MergeIdempotent(x: Node, ignoreOverride: bool, copyMeta: bool)
    requires NoNullMembers(x)
    ensures Equals(MergeValue(x, x, ignoreOverride, copyMeta), x)
    decreases x
  {
    var r := MergeValue(x, x, ignoreOverride, copyMeta);
    if x.data.Null? || !Recurses(x, x, ignoreOverride) {
      EqualsReflexive(x);
    } else if x.data.Struct? {
      var m := x.data.members;
      MergeStructMembers(x, x, ignoreOverride, copyMeta);
      assert NullKeys(m) == {};
      forall k | k in m ensures Equals(r.data.members[k], m[k]) {
        MergeIdempotent(m[k], ignoreOverride, copyMeta);
      }
    } else {
      var xs := x.data.entries;
      MergeVectorEntries(x, x, ignoreOverride, copyMeta);
      forall i | 0 <= i < |xs| ensures Equals(r.data.entries[i], xs[i]) {
        MergeIdempotent(xs[i], ignoreOverride, copyMeta);
      }
    }
  }

  /** `ignoreOverride` makes no difference when no node of `source` is flagged "override". */
  lemma {:induction false} IgnoreOverrideWithoutFlags(dest: Node, source: Node, copyMeta: bool)
    requires NoOverride(source)
    ensures MergeValue(dest, source, true, copyMeta) == MergeValue(dest, source, false, copyMeta)
    decreases source
  {
    if !source.data.Null? && Recurses(dest, source, true) {
      if source.data.Struct? {
        var dm, sm := dest.data.members, source.data.members;
        MergeStructMembers(dest, source, true, copyMeta);
        MergeStructMembers(dest, source, false, copyMeta);
        forall k | k in sm && !sm[k].data.Null?
          ensures MergeValue(Child(dm, k), sm[k], true, copyMeta) == MergeValue(Child(dm, k), sm[k], false, copyMeta)
        {
          IgnoreOverrideWithoutFlags(Child(dm, k), sm[k], copyMeta);
        }
      } else {
        var dv, sv := dest.data.entries, source.data.entries;
        MergeVectorEntries(dest, source, true, copyMeta);
        MergeVectorEntries(dest, source, false, copyMeta);
        forall i | 0 <= i < |sv| && i < |dv|
          ensures MergeValue(dv[i], sv[i], true, copyMeta) == MergeValue(dv[i], sv[i], false, copyMeta)
        {
          IgnoreOverrideWithoutFlags(dv[i], sv[i], copyMeta);
        }
      }
    }
  }

  /** `copyMeta` changes metadata only: with or without it the merged nodes are equal. */
  lemma {:induction false} CopyMetaChangesMetaOnly(dest: Node, source: Node, ignoreOverride: bool)
    ensures Equals(MergeValue(dest, source, ignoreOverride, true), MergeValue(dest, source, ignoreOverride, false))
    decreases source
  {
    var a := MergeValue(dest, source, ignoreOverride, true);
    var b := MergeValue(dest, source, ignoreOverride, false);
    if source.data.Null? || !Recurses(dest, source, ignoreOverride) {
      EqualsReflexive(a);
    } else if source.data.Struct? {
      var dm, sm := dest.data.members, source.data.members;
      MergeStructMembers(dest, source, ignoreOverride, true);
      MergeStructMembers(dest, source, ignoreOverride, false);
      forall k | k in a.data.members ensures Equals(a.data.members[k], b.data.members[k]) {
        if k in sm {
          CopyMetaChangesMetaOnly(Child(dm, k), sm[k], ignoreOverride);
        } else {
          EqualsReflexive(dm[k]);
        }
      }
    } else {
      var dv, sv := dest.data.entries, source.data.entries;
      MergeVectorEntries(dest, source, ignoreOverride, true);
      MergeVectorEntries(dest, source, ignoreOverride, false);
      forall i | 0 <= i < |a.data.entries| ensures Equals(a.data.entries[i], b.data.entries[i]) {
        if i < |sv| && i < |dv| {
          CopyMetaChangesMetaOnly(dv[i], sv[i], ignoreOverride);
        } else {
          EqualsReflexive(a.data.entries[i]);
        }
      }
    }
  }

  /**
    inherit(descendant, base): the descendant is merged into a copy of the
    base, with the default flags; the base supplies defaults and the
    descendant's own fields win.
   */
  function Inherit(descendant: Node, base: Node): (r: Node)
    ensures TypeOf(r) == if descendant.data.Null? then TypeOf(base) else TypeOf(descendant)
    ensures base.data.Null? && !descendant.data.Null? ==> r == descendant
  {
    MergeValue(base, descendant, false, false)
  }

  /** Inheriting from a null base changes nothing; inheriting from oneself changes nothing. */
  lemma InheritIdentities(d: Node, b: Node)
    ensures b.data.Null? ==> Equals(Inherit(d, b), d)
    ensures NoNullMembers(b) ==> Equals(Inherit(b, b), b)
  {
    if b.data.Null? {
      EqualsReflexive(d);
    }
    if NoNullMembers(b) {
      MergeIdempotent(b, false, false);
    }
  }

  /**
    For two structs, the inherited struct keeps every base member the
    descendant does not mention, drops the members the descendant nulls,
    and gives every other descendant member its own type (and its own value
    when that is a scalar).
   */
  lemma InheritFields(d: Node, b: Node)
    requires d.data.Struct? && b.data.Struct? && !IsOverride(d)
    ensures var r := Inherit(d, b);
      var dm, bm := d.data.members, b.data.members;
      && r.data.Struct?
      && r.data.members.Keys == (bm.Keys + dm.Keys) - NullKeys(dm)
      && (forall k :: k in bm && k !in dm ==> r.data.members[k] == bm[k])
      && (forall k :: k in dm && !dm[k].data.Null? ==> TypeOf(r.data.members[k]) == TypeOf(dm[k]))
      && (forall k :: k in dm && !dm[k].data.Null? && !dm[k].data.Struct? && !dm[k].data.Vector? ==>
            r.data.members[k] == dm[k])
  {
    var dm, bm := d.data.members, b.data.members;
    MergeStructMembers(b, d, false, false);
    forall k | k in dm && !dm[k].data.Null?
      ensures TypeOf(Inherit(d, b).data.members[k]) == TypeOf(dm[k])
    {
      MergeSourceWins(Child(bm, k), dm[k], false, false);
    }
    forall k | k in dm && !dm[k].data.Null? && !dm[k].data.Struct? && !dm[k].data.Vector?
      ensures Inherit(d, b).data.members[k] == dm[k]
    {
      MergeSourceWins(Child(bm, k), dm[k], false, false);
    }
  }

  /**
    intersect(a, b, pruneEmpty): two structs give a fresh struct of their
    common keys, each intersected recursively (with `pruneEmpty`, those
    whose intersection holds no base data are left out); otherwise `a` when
    the two are equal and a null node when not.
   */
  function Intersect(a: Node, b: Node, pruneEmpty: bool): (r: Node)
    ensures TypeOf(a) != TypeOf(b) ==> r.data.Null?
    ensures !r.data.Null? ==> TypeOf(r) == TypeOf(a) && TypeOf(r) == TypeOf(b)
    ensures !(a.data.Struct? && b.data.Struct?) && Equals(a, b) ==> r == a
    ensures !(a.data.Struct? && b.data.Struct?) && !Equals(a, b) ==> r.data.Null?
    decreases a
  {
    if a.data.Struct? && b.data.Struct? then
      var am, bm := a.data.members, b.data.members;
      var common := map k | k in am && k in bm && (!pruneEmpty || ContainsBaseData(Intersect(am[k], bm[k], pruneEmpty))) ::
        Intersect(am[k], bm[k], pruneEmpty);
      Node(Struct(common), "", [])
    else if Equals(a, b) then a
    else Empty
  }

  /** The members of a struct intersection: exactly the common keys, pruned of empty ones. */
  lemma IntersectStructMembers(a: Node, b: Node, pruneEmpty: bool)
    requires a.data.Struct? && b.data.Struct?
    ensures var r := Intersect(a, b, pruneEmpty);
      var am, bm := a.data.members, b.data.members;
      && r.data.Struct?
      && (forall k :: k in r.data.members <==>
            k in am && k in bm && (!pruneEmpty || ContainsBaseData(Intersect(am[k], bm[k], pruneEmpty))))
      && (forall k :: k in r.data.members ==> r.data.members[k] == Intersect(am[k], bm[k], pruneEmpty))
  {
  }

  /** Intersection is commutative, up to equality. */
  lemma {:induction false} IntersectCommutes(a: Node, b: Node, pruneEmpty: bool)
    ensures Equals(Intersect(a, b, pruneEmpty), Intersect(b, a, pruneEmpty))
    decreases a
  {
    var r, s := Intersect(a, b, pruneEmpty), Intersect(b, a, pruneEmpty);
    if a.data.Struct? && b.data.Struct? {
      var am, bm := a.data.members, b.data.members;
      forall k | k in am && k in bm
        ensures Equals(Intersect(am[k], bm[k], pruneEmpty), Intersect(bm[k], am[k], pruneEmpty))
        ensures ContainsBaseData(Intersect(am[k], bm[k], pruneEmpty)) <==> ContainsBaseData(Intersect(bm[k], am[k], pruneEmpty))
      {
        IntersectCommutes(am[k], bm[k], pruneEmpty);
        BaseDataRespectsEquals(Intersect(am[k], bm[k], pruneEmpty), Intersect(bm[k], am[k], pruneEmpty));
      }
      assert r.data.members.Keys == s.data.members.Keys;
    } else if Equals(a, b) {
      EqualsSymmetric(a, b);
    } else if Equals(b, a) {
      EqualsSymmetric(b, a);
    }
  }

  /** Intersecting a node with itself, without pruning, gives a node equal to it. */
  lemma {:induction false} IntersectSelf(x: Node)
    ensures Equals(Intersect(x, x, false), x)
    decreases x
  {
    if x.data.Struct? {
      var m := x.data.members;
      forall k | k in m ensures Equals(Intersect(m[k], m[k], false), m[k]) {
        IntersectSelf(m[k]);
      }
    } else {
      EqualsReflexive(x);
    }
  }

  /** The node with, at every struct level, the members holding no base data removed. */
  function PruneEmpty(n: Node): Node
    decreases n
  {
    if n.data.Struct? then
      var m := n.data.members;
      Node(Struct(map k | k in m && ContainsBaseData(PruneEmpty(m[k])) :: PruneEmpty(m[k])), "", [])
    else n
  }

  /** Intersecting a node with itself, with pruning, gives the node with its empty members removed. */
  lemma {:induction false} IntersectSelfPruned(x: Node)
    ensures Intersect(x, x, true) == PruneEmpty(x)
    ensures x.data.Struct? ==> forall k :: k in PruneEmpty(x).data.members ==>
              ContainsBaseData(PruneEmpty(x).data.members[k])
    decreases x
  {
    if x.data.Struct? {
      var m := x.data.members;
      forall k | k in m ensures Intersect(m[k], m[k], true) == PruneEmpty(m[k]) {
        IntersectSelfPruned(m[k]);
      }
      assert Intersect(x, x, true).data.members == PruneEmpty(x).data.members;
    } else {
      EqualsReflexive(x);
    }
  }

  /**
    `r` describes part of `a`: it is null, or equal to `a`, or a struct
    whose keys all occur in the struct `a` with members that are in turn
    parts of `a`'s.
   */
  predicate Below(r: Node, a: Node)
    decreases r
  {
    r.data.Null? || Equals(r, a) ||
    (r.data.Struct? && a.data.Struct? && r.data.members.Keys <= a.data.members.Keys &&
     forall k :: k in r.data.members ==> Below(r.data.members[k], a.data.members[k]))
  }

  lemma {:induction false} BelowTransitive(r: Node, a: Node, c: Node)
    requires Below(r, a) && Below(a, c)
    ensures Below(r, c)
    decreases r
  {
    if r.data.Null? {
    } else if Equals(r, a) {
      if Equals(a, c) {
        EqualsTransitive(r, a, c);
      } else if a.data.Struct? {
        forall k | k in r.data.members ensures Below(r.data.members[k], c.data.members[k]) {
          var rk, ak := r.data.members[k], a.data.members[k];
          assert Equals(rk, ak);
          BelowTransitive(rk, ak, c.data.members[k]);
        }
      }
    } else {
      var rm, am := r.data.members, a.data.members;
      if Equals(a, c) {
        forall k | k in rm ensures Below(rm[k], c.data.members[k]) {
          BelowTransitive(rm[k], am[k], c.data.members[k]);
        }
      } else if a.data.Struct? && !a.data.Null? {
        forall k | k in rm ensures Below(rm[k], c.data.members[k]) {
          BelowTransitive(rm[k], am[k], c.data.members[k]);
        }
      }
    }
  }

  /** The intersection is a common part of both inputs. */
  lemma {:induction false} IntersectBelowBoth(a: Node, b: Node, pruneEmpty: bool)
    ensures Below(Intersect(a, b, pruneEmpty), a)
    ensures Below(Intersect(a, b, pruneEmpty), b)
    decreases a
  {
    var r := Intersect(a, b, pruneEmpty);
    if a.data.Struct? && b.data.Struct? {
      var am, bm := a.data.members, b.data.members;
      forall k | k in r.data.members
        ensures Below(r.data.members[k], am[k]) && Below(r.data.members[k], bm[k])
      {
        IntersectBelowBoth(am[k], bm[k], pruneEmpty);
      }
    } else if Equals(a, b) {
      EqualsReflexive(a);
    }
  }

  /** The left fold of binary intersection over `rest`, starting from `acc`. */
  function IntersectFold(acc: Node, rest: seq<Node>, pruneEmpty: bool): Node
    decreases |rest|
  {
    if rest == [] then acc else IntersectFold(Intersect(acc, rest[0], pruneEmpty), rest[1..], pruneEmpty)
  }

  /** intersect(nodes, pruneEmpty): null for no node, the node itself for one, the fold otherwise. */
  function IntersectAll(nodes: seq<Node>, pruneEmpty: bool): (r: Node)
    ensures nodes == [] ==> r == Empty
    ensures |nodes| == 1 ==> r == nodes[0]
  {
    if nodes == [] then Empty else IntersectFold(nodes[0], nodes[1..], pruneEmpty)
  }

  lemma {:induction false} IntersectFoldBelow(acc: Node, rest: seq<Node>, pruneEmpty: bool)
    ensures Below(IntersectFold(acc, rest, pruneEmpty), acc)
    ensures forall i :: 0 <= i < |rest| ==> Below(IntersectFold(acc, rest, pruneEmpty), rest[i])
    decreases |rest|
  {
    var r := IntersectFold(acc, rest, pruneEmpty);
    if rest == [] {
      EqualsReflexive(acc);
    } else {
      var next := Intersect(acc, rest[0], pruneEmpty);
      IntersectFoldBelow(next, rest[1..], pruneEmpty);
      IntersectBelowBoth(acc, rest[0], pruneEmpty);
      BelowTransitive(r, next, acc);
      BelowTransitive(r, next, rest[0]);
      forall i | 1 <= i < |rest| ensures Below(r, rest[i]) {
        assert rest[i] == rest[1..][i - 1];
      }
    }
  }

  /** The intersection of a list is a common part of every node in it. */
  lemma IntersectAllBelowEach(nodes: seq<Node>, pruneEmpty: bool)
    ensures forall i :: 0 <= i < |nodes| ==> Below(IntersectAll(nodes, pruneEmpty), nodes[i])
  {
    if nodes != [] {
      IntersectFoldBelow(nodes[0], nodes[1..], pruneEmpty);
      forall i | 1 <= i < |nodes| ensures Below(IntersectAll(nodes, pruneEmpty), nodes[i]) {
        assert nodes[i] == nodes[1..][i - 1];
      }
    }
  }

  /** Some direct member of the struct is null. */
  predicate HasNullMember(n: Node)
  {
    n.data.Struct? && exists k :: k in n.data.members && n.data.members[k].data.Null?
  }

  /** The node flagged so that merge replaces rather than recurses. */
  function Overriding(n: Node): (r: Node)
    ensures IsOverride(r) && Equals(r, n)
  {
    EqualsReflexive(n);
    n.(flags := n.flags + [OVERRIDE])
  }

  /**
    Without the "override" flag no difference can undo a shrink: merging any
    such `d` into a longer vector leaves it at least as long as it was, so
    the shorter node does not come back.
   */
  lemma NoPlainDifferenceShrinksVector(node: Node, base: Node, d: Node)
    requires node.data.Vector? && base.data.Vector? && |node.data.entries| < |base.data.entries|
    requires !IsOverride(d)
    ensures !Equals(MergeValue(base, d, false, false), node)
  {
    var r := MergeValue(base, d, false, false);
    if d.data.Vector? {
      MergeVectorEntries(base, d, false, false);
      assert |r.data.entries| >= |base.data.entries|;
    } else if !d.data.Null? {
      MergeSourceWins(base, d, false, false);
    }
  }

  /**
    Without the "override" flag no difference can add a null member: merge
    reads a null member as a deletion, and anything else it puts under the
    key is not null.
   */
  lemma {:induction false} NoPlainDifferenceKeepsNullMember(node: Node, base: Node, d: Node, key: string)
    requires node.data.Struct? && key in node.data.members && node.data.members[key].data.Null?
    requires base.data.Struct? && key !in base.data.members
    requires !IsOverride(d)
    ensures !Equals(MergeValue(base, d, false, false), node)
  {
    var r := MergeValue(base, d, false, false);
    if d.data.Struct? {
      var dm := d.data.members;
      MergeStructMembers(base, d, false, false);
      if key in r.data.members {
        assert key in dm && !dm[key].data.Null?;
        assert r.data.members[key] == dm[key];
      }
    } else if !d.data.Null? {
      MergeSourceWins(base, d, false, false);
    }
  }

  /**
    difference(node, base), such that merging the result into a copy of the
    base gives the node back. Two structs without null members give, per
    key, null where the base has a key the node lacks, the node's member
    where the base lacks the key, and the member difference where the two
    differ. Two differing vectors, and two differing structs where the node
    holds a null member, give the node flagged "override", which merge puts
    in place whole (see `NoPlainDifferenceShrinksVector` and
    `NoPlainDifferenceKeepsNullMember` for why no unflagged node will do).
    Otherwise the difference is null when the two are equal and the node
    when not.
   */
  function Difference(node: Node, base: Node): (r: Node)
    ensures !node.data.Null? && !Equals(node, base) ==> !r.data.Null?
    ensures node.data.Struct? && base.data.Struct? && !HasNullMember(node) ==>
              r.data.Struct? && !IsOverride(r)
    decreases node
  {
    if node.data.Struct? && base.data.Struct? && !HasNullMember(node) then
      var nm, bm := node.data.members, base.data.members;
      var diff := map k | k in nm.Keys + bm.Keys && !(k in nm && k in bm && Equals(nm[k], bm[k])) ::
        if k !in nm then Empty else if k !in bm then nm[k] else Difference(nm[k], bm[k]);
      Node(Struct(diff), "", [])
    else if Equals(node, base) then Empty
    else if (node.data.Vector? && base.data.Vector?) || (node.data.Struct? && base.data.Struct?) then
      Overriding(node)
    else node
  }

  /** The difference of equal nodes is empty: a null node or an empty struct. */
  lemma {:induction false} DifferenceOfEqual(node: Node, base: Node)
    requires Equals(node, base)
    ensures var r := Difference(node, base); r.data.Null? || r.data == Struct(map[])
  {
  }

  /**
    Round trip: merging difference(node, base) into a copy of base gives a
    node equal to `node`. The one exception is a null node over a non-null
    base, which no merge can produce (see `MergeKeepsNonNull`).
   */
  lemma {:induction false} DifferenceRoundTrip(node: Node, base: Node, copyMeta: bool)
    requires !node.data.Null? || base.data.Null?
    ensures Equals(MergeValue(base, Difference(node, base), false, copyMeta), node)
    decreases node
  {
    var d := Difference(node, base);
    var r := MergeValue(base, d, false, copyMeta);
    if node.data.Struct? && base.data.Struct? && !HasNullMember(node) {
      var nm, bm, dm := node.data.members, base.data.members, d.data.members;
      MergeStructMembers(base, d, false, copyMeta);
      assert NullKeys(dm) == bm.Keys - nm.Keys by {
        forall k | k in dm && k in nm ensures !dm[k].data.Null? {
          assert !nm[k].data.Null?;
        }
      }
      assert r.data.members.Keys == nm.Keys;
      forall k | k in nm ensures Equals(r.data.members[k], nm[k]) {
        if k !in bm {
          assert r.data.members[k] == nm[k];
          EqualsReflexive(nm[k]);
        } else if Equals(nm[k], bm[k]) {
          EqualsSymmetric(nm[k], bm[k]);
        } else {
          DifferenceRoundTrip(nm[k], bm[k], copyMeta);
        }
      }
    } else if Equals(node, base) {
      EqualsSymmetric(node, base);
    } else {
      EqualsReflexive(node);
    }
  }

  // The constructors of JsonUtils for leaf nodes.

  function BoolNode(value: bool): (n: Node)
    ensures TypeOf(n) == DataBool && AsBool(n) == value && n.meta == "" && n.flags == []
  {
    Node(Bool(value), "", [])
  }

  function StringNode(value: string): (n: Node)
    ensures TypeOf(n) == DataString && AsString(n) == value && n.meta == "" && n.flags == []
  {
    Node(String(value), "", [])
  }

  function IntNode(value: Int64): (n: Node)
    ensures TypeOf(n) == DataInteger && AsInteger(n) == value && n.meta == "" && n.flags == []
  {
    Node(Integer(value), "", [])
  }
}
