/**
  JSON pointer resolution ("/path/to/node"): splitting the pointer into
  segments, reading an array index, the const resolution that never
  changes the tree, and the non-const one that creates what is missing.
  Segments are plain text between slashes; the "~0"/"~1" escapes of
  section 4 of RFC 6901 are not decoded.
 */
module JsonPointer {
  import opened JsonValue

  datatype Option<T> = None | Some(value: T)

  /** The pieces of `p` between slashes, left to right; there is always at least one. */
  function Split(p: string): (segs: seq<string>)
    ensures |segs| >= 1
    ensures forall i :: 0 <= i < |segs| ==> '/' !in segs[i]
    decreases |p|
  {
    if p == [] then [""]
    else
      var rest := Split(p[1..]);
      if p[0] == '/' then [""] + rest
      else [[p[0]] + rest[0]] + rest[1..]
  }

  /** The pieces joined back with slashes. */
  function Join(segs: seq<string>): string
    requires |segs| >= 1
    decreases |segs|
  {
    if |segs| == 1 then segs[0] else segs[0] + "/" + Join(segs[1..])
  }

  lemma {:induction false} JoinSplit(p: string)
    ensures Join(Split(p)) == p
    decreases |p|
  {
    if p != [] {
      var rest := Split(p[1..]);
      JoinSplit(p[1..]);
      if p[0] == '/' {
        assert Split(p) == [""] + rest;
      } else if |rest| == 1 {
        assert Split(p) == [[p[0]] + rest[0]];
      } else {
        var segs := Split(p);
        assert segs[1..] == rest[1..];
        assert Join(rest) == rest[0] + "/" + Join(rest[1..]);
      }
    }
  }

  lemma {:induction false} SplitSlashFree(a: string, s: string)
    requires '/' !in a
    ensures Split(a + s) == [a + Split(s)[0]] + Split(s)[1..]
    decreases |a|
  {
    if a != [] {
      SplitSlashFree(a[1..], s);
      assert (a + s)[1..] == a[1..] + s;
      assert [a[0]] + (a[1..] + Split(s)[0]) == a + Split(s)[0];
    } else {
      assert a + s == s;
      assert a + Split(s)[0] == Split(s)[0];
      assert Split(s) == [Split(s)[0]] + Split(s)[1..];
    }
  }

  lemma {:induction false} SplitJoin(segs: seq<string>)
    requires |segs| >= 1
    requires forall i :: 0 <= i < |segs| ==> '/' !in segs[i]
    ensures Split(Join(segs)) == segs
    decreases |segs|
  {
    if |segs| == 1 {
      SplitSlashFree(segs[0], "");
      assert segs[0] + "" == segs[0];
    } else {
      var tail := Join(segs[1..]);
      SplitJoin(segs[1..]);
      assert ("/" + tail)[1..] == tail;
      assert Split("/" + tail) == [""] + segs[1..];
      assert segs[0] + "/" + tail == segs[0] + ("/" + tail);
      SplitSlashFree(segs[0], "/" + tail);
      assert segs[0] + "" == segs[0];
    }
  }

  /**
    The segments a pointer names: its pieces between slashes, with the
    empty piece before a leading slash dropped.
   */
  function Segments(pointer: string): seq<string>
  {
    var pieces := Split(pointer);
    if pieces[0] == "" then pieces[1..] else pieces
  }

  /** The pointer text for a list of segments. */
  function PointerText(segs: seq<string>): string
  {
    if segs == [] then "" else "/" + Join(segs)
  }

  /** Segments and pointer text are inverse: both directions of the round trip. */
  lemma PointerRoundTrip(segs: seq<string>, pointer: string)
    ensures (forall i :: 0 <= i < |segs| ==> '/' !in segs[i]) ==> Segments(PointerText(segs)) == segs
    ensures pointer == "" || pointer[0] == '/' ==> PointerText(Segments(pointer)) == pointer
  {
    if (forall i :: 0 <= i < |segs| ==> '/' !in segs[i]) && segs != [] {
      var tail := Join(segs);
      SplitJoin(segs);
      assert ("/" + tail)[1..] == tail;
      assert Split("/" + tail) == [""] + segs;
    }
    if pointer != "" && pointer[0] == '/' {
      assert Split(pointer) == [""] + Split(pointer[1..]);
      JoinSplit(pointer[1..]);
    }
  }

  predicate IsDigit(c: char)
  {
    '0' <= c <= '9'
  }

  /** An array index of section 4 of RFC 6901: decimal digits, no leading zero. */
  predicate IsArrayIndex(s: string)
  {
    |s| >= 1 && (forall i :: 0 <= i < |s| ==> IsDigit(s[i])) && (s[0] == '0' ==> |s| == 1)
  }

  function DigitValue(c: char): nat
    requires IsDigit(c)
  {
    c as int - '0' as int
  }

  function DigitsValue(s: string): nat
    requires forall i :: 0 <= i < |s| ==> IsDigit(s[i])
    decreases |s|
  {
    if s == [] then 0 else DigitsValue(s[..|s| - 1]) * 10 + DigitValue(s[|s| - 1])
  }

  /** The index a segment names, when it is an array index. */
  function ParseIndex(seg: string): Option<nat>
  {
    if IsArrayIndex(seg) then Some(DigitsValue(seg)) else None
  }

  function Digit(d: nat): (c: char)
    requires d < 10
    ensures IsDigit(c) && DigitValue(c) == d
  {
    ('0' as int + d) as char
  }

  /** The decimal text of an index, without leading zeros. */
  function IndexText(n: nat): string
    decreases n
  {
    if n < 10 then [Digit(n)] else IndexText(n / 10) + [Digit(n % 10)]
  }

  lemma {:induction false} IndexTextParses(n: nat)
    ensures IsArrayIndex(IndexText(n))
    ensures n >= 1 ==> IndexText(n)[0] != '0'
    ensures DigitsValue(IndexText(n)) == n
    decreases n
  {
    if n >= 10 {
      var t := IndexText(n / 10);
      IndexTextParses(n / 10);
      var s := t + [Digit(n % 10)];
      assert s[..|s| - 1] == t;
    }
  }

  lemma {:induction false} LeadingDigitPositive(s: string)
    requires |s| >= 1 && (forall i :: 0 <= i < |s| ==> IsDigit(s[i])) && s[0] != '0'
    ensures DigitsValue(s) >= 1
    decreases |s|
  {
    if |s| > 1 {
      LeadingDigitPositive(s[..|s| - 1]);
    }
  }

  lemma {:induction false} ParsedIndexText(s: string)
    requires IsArrayIndex(s)
    ensures IndexText(DigitsValue(s)) == s
    decreases |s|
  {
    if |s| > 1 {
      var init := s[..|s| - 1];
      assert init[0] == s[0];
      LeadingDigitPositive(init);
      ParsedIndexText(init);
      var v := DigitsValue(s);
      var d := DigitValue(s[|s| - 1]);
      assert v == DigitsValue(init) * 10 + d;
      assert v / 10 == DigitsValue(init) && v % 10 == d;
      assert s == init + [s[|s| - 1]];
    }
  }

  /** Reading an index is the inverse of printing one, both ways. */
  lemma IndexRoundTrip(n: nat, s: string)
    ensures ParseIndex(IndexText(n)) == Some(n)
    ensures ParseIndex(s).Some? ==> IndexText(ParseIndex(s).value) == s
  {
    IndexTextParses(n);
    if ParseIndex(s).Some? {
      ParsedIndexText(s);
    }
  }

  /**
    One step of the const resolution: a struct's member by key (an empty
    node when absent), a vector's entry when the segment is an index in
    range; anything else yields the empty node.
   */
  function Step(n: Node, seg: string): Node
  {
    match n.data
    case Struct(_) => Member(n, seg)
    case Vector(xs) =>
      (match ParseIndex(seg)
       case Some(i) => if i < |xs| then Entry(n, i) else Empty
       case None => Empty)
    case _ => Empty
  }

  function Resolve(n: Node, segs: seq<string>): Node
    decreases |segs|
  {
    if segs == [] then n else Resolve(Step(n, segs[0]), segs[1..])
  }

  /** The const `resolvePointer`. */
  function ResolvePointer(n: Node, pointer: string): (r: Node)
    ensures pointer == "" ==> r == n
    ensures n == Empty ==> r == Empty
  {
    EmptyResolvesEmpty(Segments(pointer));
    Resolve(n, Segments(pointer))
  }

  /** Every step of the path exists in the tree. */
  predicate PathExists(n: Node, segs: seq<string>)
    decreases |segs|
  {
    segs == [] ||
    (n.data.Struct? && segs[0] in n.data.members && PathExists(n.data.members[segs[0]], segs[1..])) ||
    (n.data.Vector? && ParseIndex(segs[0]).Some? && ParseIndex(segs[0]).value < |n.data.entries| &&
     PathExists(n.data.entries[ParseIndex(segs[0]).value], segs[1..]))
  }

  /** When some step of the path is missing, the const resolution yields the empty node. */
  lemma {:induction false} MissingPathResolvesEmpty(n: Node, segs: seq<string>)
    requires !PathExists(n, segs)
    ensures Resolve(n, segs) == Empty
    decreases |segs|
  {
    var next := Step(n, segs[0]);
    if next == Empty {
      EmptyResolvesEmpty(segs[1..]);
    } else {
      MissingPathResolvesEmpty(next, segs[1..]);
    }
  }

  lemma {:induction false} EmptyResolvesEmpty(segs: seq<string>)
    ensures Resolve(Empty, segs) == Empty
    decreases |segs|
  {
    if segs != [] {
      EmptyResolvesEmpty(segs[1..]);
    }
  }

  /**
    The non-const `operator[](key)`: the node is coerced to a struct (a node
    of another type loses its content) and gets an empty member under `key`
    when it has none; every other member stays.
   */
  function WithMember(n: Node, key: string): (r: Node)
    ensures r.data.Struct? && key in r.data.members
    ensures r.meta == n.meta && r.flags == n.flags
    ensures n.data.Struct? ==> (r.data.members.Keys == n.data.members.Keys + {key} &&
              forall k :: k in n.data.members ==> r.data.members[k] == n.data.members[k])
    ensures !n.data.Struct? ==> r.data.members.Keys == {key}
    ensures !(n.data.Struct? && key in n.data.members) ==> r.data.members[key] == Empty
    ensures n.data.Struct? && key in n.data.members ==> r == n
  {
    var t := SetType(n, DataStruct);
    if key in t.data.members then t else t.(data := Struct(t.data.members[key := Empty]))
  }

  /**
    The non-const `operator[](index)`: the node is coerced to a vector and
    grown with empty entries until `index` is in range; existing entries
    stay.
   */
  function WithEntry(n: Node, index: nat): (r: Node)
    ensures r.data.Vector? && index < |r.data.entries|
    ensures r.meta == n.meta && r.flags == n.flags
    ensures var old_entries := if n.data.Vector? then n.data.entries else [];
      && |r.data.entries| == (if index < |old_entries| then |old_entries| else index + 1)
      && (forall i :: 0 <= i < |old_entries| ==> r.data.entries[i] == old_entries[i])
      && (forall i :: |old_entries| <= i < |r.data.entries| ==> r.data.entries[i] == Empty)
    ensures n.data.Vector? && index < |n.data.entries| ==> r == n
  {
    var t := SetType(n, DataVector);
    var xs := t.data.entries;
    if index < |xs| then t else t.(data := Vector(xs + seq(index + 1 - |xs|, _ => Empty)))
  }

  /**
    The tree after writing `v` through the reference the non-const
    resolution hands back: each step goes through `operator[]` by index when
    the node is a vector and the segment an index, and by key otherwise.
   */
  function Put(n: Node, segs: seq<string>, v: Node): (r: Node)
    ensures segs == [] ==> r == v
    ensures segs != [] ==> (r.data.Vector? || r.data.Struct?) && r.meta == n.meta && r.flags == n.flags
    decreases |segs|
  {
    if segs == [] then v
    else if n.data.Vector? && ParseIndex(segs[0]).Some? then
      var i := ParseIndex(segs[0]).value;
      var t := WithEntry(n, i);
      t.(data := Vector(t.data.entries[i := Put(t.data.entries[i], segs[1..], v)]))
    else
      var t := WithMember(n, segs[0]);
      t.(data := Struct(t.data.members[segs[0] := Put(t.data.members[segs[0]], segs[1..], v)]))
  }

  /** The tree after the non-const `resolvePointer`: the missing steps are created. */
  function Touch(n: Node, segs: seq<string>): (r: Node)
    ensures segs == [] ==> r == n
    ensures segs != [] ==> (r.data.Vector? || r.data.Struct?) && r.meta == n.meta && r.flags == n.flags
  {
    Put(n, segs, Resolve(n, segs))
  }

  /** What is written through a path is what the const resolution then reads there. */
  lemma {:induction false} PutThenResolve(n: Node, segs: seq<string>, v: Node)
    ensures Resolve(Put(n, segs, v), segs) == v
    decreases |segs|
  {
    if segs != [] {
      var r := Put(n, segs, v);
      if n.data.Vector? && ParseIndex(segs[0]).Some? {
        var i := ParseIndex(segs[0]).value;
        var t := WithEntry(n, i);
        assert Step(r, segs[0]) == Put(t.data.entries[i], segs[1..], v);
        PutThenResolve(t.data.entries[i], segs[1..], v);
      } else {
        var t := WithMember(n, segs[0]);
        assert Step(r, segs[0]) == Put(t.data.members[segs[0]], segs[1..], v);
        PutThenResolve(t.data.members[segs[0]], segs[1..], v);
      }
    }
  }

  /**
    The two forms of `resolvePointer` agree: the node the non-const form
    hands back is the one the const form finds in the original tree, and
    in the tree the non-const form leaves behind.
   */
  lemma TouchAgreesWithResolve(n: Node, segs: seq<string>)
    ensures Resolve(Touch(n, segs), segs) == Resolve(n, segs)
  {
    PutThenResolve(n, segs, Resolve(n, segs));
  }

  /** When the whole path exists, the non-const resolution changes nothing. */
  lemma {:induction false} TouchExistingPath(n: Node, segs: seq<string>)
    requires PathExists(n, segs)
    ensures Touch(n, segs) == n
    decreases |segs|
  {
    if segs != [] {
      if n.data.Vector? && ParseIndex(segs[0]).Some? {
        var i := ParseIndex(segs[0]).value;
        var xs := n.data.entries;
        TouchExistingPath(xs[i], segs[1..]);
        assert xs[i := xs[i]] == xs;
      } else {
        var m := n.data.members;
        TouchExistingPath(m[segs[0]], segs[1..]);
        assert m[segs[0] := m[segs[0]]] == m;
      }
    }
  }
}
