/** The forest that `nest()` leaves behind, read through the children
    containers: its pre-order traversal, the flattened listing that
    listsFlattened() builds from it, and the parent links setParents() records. */
module Forest {
  import opened Records

  function H(h: map<nat, nat>, id: nat): nat
  {
    if id in h then h[id] else 0
  }

  /** `h` gives every container owner a height above all of its children. */
  ghost predicate HeightsFor(cs: Containers, name: string, h: map<nat, nat>)
  {
    forall k, j :: k in cs && k.1 == name && 0 <= j < |cs[k]| ==> H(h, cs[k][j].id) < H(h, k.0)
  }

  /** The containers under `name` form no cycle, so descending through them
      stops: the condition under which the recursive walks of
      listsFlattened() and setParentsRecursive() terminate. */
  ghost predicate Nestable(cs: Containers, name: string)
  {
    exists h :: HeightsFor(cs, name, h)
  }

  ghost function HeightsOf(cs: Containers, name: string): (h: map<nat, nat>)
    requires Nestable(cs, name)
    ensures HeightsFor(cs, name, h)
  {
    var h :| HeightsFor(cs, name, h); h
  }

  /** One more than the greatest height among `xs`. */
  ghost function Bound(h: map<nat, nat>, xs: seq<Item>): nat
  {
    if xs == [] then 0
    else
      var b := Bound(h, xs[1..]);
      if H(h, xs[0].id) + 1 > b then H(h, xs[0].id) + 1 else b
  }

  lemma {:induction false} BoundAbove(h: map<nat, nat>, xs: seq<Item>, i: nat)
    requires i < |xs|
    ensures H(h, xs[i].id) < Bound(h, xs)
  {
    if i > 0 {
      BoundAbove(h, xs[1..], i - 1);
    }
  }

  lemma {:induction false} BoundOne(h: map<nat, nat>, xs: seq<Item>, i: nat)
    requires i < |xs|
    ensures Bound(h, [xs[i]]) <= Bound(h, xs)
  {
    assert [xs[i]][1..] == [];
    BoundAbove(h, xs, i);
  }

  lemma {:induction false} BoundBelow(h: map<nat, nat>, xs: seq<Item>, m: nat)
    requires forall j :: 0 <= j < |xs| ==> H(h, xs[j].id) < m
    ensures Bound(h, xs) <= m
  {
    if xs != [] {
      BoundBelow(h, xs[1..], m);
    }
  }

  /** The children of any listed record lie strictly lower than the list. */
  lemma {:induction false} KidsBelow(cs: Containers, name: string, xs: seq<Item>, i: nat)
    requires Nestable(cs, name) && i < |xs|
    ensures Bound(HeightsOf(cs, name), Kids(cs, name, xs[i].id)) < Bound(HeightsOf(cs, name), xs)
  {
    var h := HeightsOf(cs, name);
    var ks := Kids(cs, name, xs[i].id);
    if (xs[i].id, name) in cs {
      assert forall j :: 0 <= j < |ks| ==> H(h, ks[j].id) < H(h, xs[i].id);
    }
    BoundBelow(h, ks, H(h, xs[i].id));
    BoundAbove(h, xs, i);
  }

  lemma {:induction false} TailBound(h: map<nat, nat>, xs: seq<Item>)
    requires xs != []
    ensures Bound(h, xs[1..]) <= Bound(h, xs)
  {
  }

  /** Every record in a container is the record `P` holds under its id, its
      parent id is the owner of the container, and that owner is in `P`:
      containers only ever receive records from the forward pass of nest(). */
  ghost predicate Consistent(P: map<nat, Item>, cs: Containers)
  {
    forall k, j :: k in cs && 0 <= j < |cs[k]| ==>
      && cs[k][j].id in P && P[cs[k][j].id] == cs[k][j]
      && cs[k][j].parent == k.0 && k.0 != 0 && k.0 in P
  }

  /** The greatest rank among `ks`. */
  ghost function MaxRank(r: map<nat, nat>, ks: set<nat>): (m: nat)
    requires ks <= r.Keys
    ensures forall k :: k in ks ==> r[k] <= m
  {
    if ks == {} then 0
    else
      var k :| k in ks;
      var m := MaxRank(r, ks - {k});
      if r[k] > m then r[k] else m
  }

  /** Containers that follow parent ids through an acyclic dictionary hold no
      cycle, whatever attribute name they are read under. */
  lemma {:induction false} ConsistentNestable(P: map<nat, Item>, cs: Containers, name: string)
    requires Acyclic(P) && Consistent(P, cs)
    ensures Nestable(cs, name)
  {
    var r :| RankedBy(P, r);
    var M := MaxRank(r, P.Keys);
    var h := map k | k in P :: M - r[k];
    forall k, j | k in cs && k.1 == name && 0 <= j < |cs[k]|
      ensures H(h, cs[k][j].id) < H(h, k.0)
    {
      var y := cs[k][j];
      assert P[y.id].parent == k.0;
    }
    assert HeightsFor(cs, name, h);
  }

  // ---------------------------------------------------------------------------
  // Pre-order traversal

  /** A record met by the traversal, with the records on the way down to it
      (its ancestors in the forest, outermost first). */
  datatype Visit = Visit(item: Item, path: seq<Item>)

  /** Depth-first, pre-order traversal of the records `xs` and everything under
      them: each record, then its subtree, then its next sibling. */
  function Walk(cs: Containers, name: string, xs: seq<Item>, path: seq<Item>): seq<Visit>
    requires Nestable(cs, name)
    decreases Bound(HeightsOf(cs, name), xs), |xs|
  {
    if xs == [] then []
    else
      KidsBelow(cs, name, xs, 0);
      TailBound(HeightsOf(cs, name), xs);
      [Visit(xs[0], path)]
      + Walk(cs, name, Kids(cs, name, xs[0].id), path + [xs[0]])
      + Walk(cs, name, xs[1..], path)
  }

  lemma {:induction false} WalkAppend(cs: Containers, name: string, a: seq<Item>, b: seq<Item>, path: seq<Item>)
    requires Nestable(cs, name)
    ensures Walk(cs, name, a + b, path) == Walk(cs, name, a, path) + Walk(cs, name, b, path)
    decreases |a|
  {
    if a == [] {
      assert a + b == b;
    } else {
      assert (a + b)[0] == a[0] && (a + b)[1..] == a[1..] + b;
      KidsBelow(cs, name, a, 0);
      var head := [Visit(a[0], path)] + Walk(cs, name, Kids(cs, name, a[0].id), path + [a[0]]);
      assert Walk(cs, name, a + b, path) == head + Walk(cs, name, a[1..] + b, path);
      assert Walk(cs, name, a, path) == head + Walk(cs, name, a[1..], path);
      WalkAppend(cs, name, a[1..], b, path);
      Associative(head, Walk(cs, name, a[1..], path), Walk(cs, name, b, path));
    }
  }

  /** Every visit's path extends the starting path; a visit at the starting
      depth is one of the listed records, and a deeper one sits in the
      container of the last record on its path. */
  lemma {:induction false} WalkPlacesUnderParent(cs: Containers, name: string, xs: seq<Item>, path: seq<Item>)
    requires Nestable(cs, name)
    ensures forall v :: v in Walk(cs, name, xs, path) ==> Placed(cs, name, xs, path, v)
    decreases Bound(HeightsOf(cs, name), xs), |xs|
  {
    if xs != [] {
      var x, ks := xs[0], Kids(cs, name, xs[0].id);
      KidsBelow(cs, name, xs, 0);
      TailBound(HeightsOf(cs, name), xs);
      var w1, w2 := Walk(cs, name, ks, path + [x]), Walk(cs, name, xs[1..], path);
      assert Walk(cs, name, xs, path) == [Visit(x, path)] + w1 + w2;
      WalkPlacesUnderParent(cs, name, ks, path + [x]);
      WalkPlacesUnderParent(cs, name, xs[1..], path);
      forall v | v in w1 ensures Placed(cs, name, xs, path, v) {
        assert Placed(cs, name, ks, path + [x], v);
        PlacedBelow(cs, name, xs, ks, path, x, v);
      }
      forall v | v in w2 ensures Placed(cs, name, xs, path, v) {
        assert Placed(cs, name, xs[1..], path, v);
        assert forall y :: y in xs[1..] ==> y in xs;
      }
    }
  }

  /** Where the traversal of `xs` below `path` can meet a record: its path
      extends `path`; at that depth it is one of `xs`, deeper it sits in the
      container of the last record on its path. */
  predicate Placed(cs: Containers, name: string, xs: seq<Item>, path: seq<Item>, v: Visit)
  {
    && |path| <= |v.path|
    && v.path[..|path|] == path
    && (|v.path| == |path| ==> v.item in xs)
    && (|v.path| > |path| ==> v.item in Kids(cs, name, v.path[|v.path| - 1].id))
  }

  lemma {:induction false} PlacedBelow(cs: Containers, name: string, xs: seq<Item>, ks: seq<Item>, path: seq<Item>, x: Item, v: Visit)
    requires xs != [] && x == xs[0] && ks == Kids(cs, name, x.id)
    requires Placed(cs, name, ks, path + [x], v)
    ensures Placed(cs, name, xs, path, v)
  {
    var p := path + [x];
    assert v.path[..|p|] == p;
    assert v.path[..|path|] == v.path[..|p|][..|path|];
    assert p[..|path|] == path;
    if |v.path| == |p| {
      assert v.path == p;
    }
  }

  /** The records met by a sequence of visits, in order. */
  function Items(vs: seq<Visit>): (r: seq<Item>)
    ensures |r| == |vs|
    ensures forall i :: 0 <= i < |vs| ==> r[i] == vs[i].item
  {
    if vs == [] then [] else [vs[0].item] + Items(vs[1..])
  }

  /** The contents of the containers of the records met, one container per
      visit, in order. */
  function Offspring(cs: Containers, name: string, vs: seq<Visit>): seq<Item>
  {
    if vs == [] then [] else Kids(cs, name, vs[0].item.id) + Offspring(cs, name, vs[1..])
  }

  lemma {:induction false} OffspringAppend(cs: Containers, name: string, a: seq<Visit>, b: seq<Visit>)
    ensures Offspring(cs, name, a + b) == Offspring(cs, name, a) + Offspring(cs, name, b)
    decreases |a|
  {
    if a == [] {
      assert a + b == b;
    } else {
      assert (a + b)[0] == a[0] && (a + b)[1..] == a[1..] + b;
      OffspringAppend(cs, name, a[1..], b);
      Associative(Kids(cs, name, a[0].item.id), Offspring(cs, name, a[1..]), Offspring(cs, name, b));
    }
  }

  /** The traversal meets every listed record once, and besides them exactly
      the contents of the container of every record it meets, once per
      meeting: the records met, counted with multiplicity, are the listed
      ones plus the offspring of the visits. */
  lemma {:induction false} WalkCensus(cs: Containers, name: string, xs: seq<Item>, path: seq<Item>)
    requires Nestable(cs, name)
    ensures multiset(Items(Walk(cs, name, xs, path)))
         == multiset(xs) + multiset(Offspring(cs, name, Walk(cs, name, xs, path)))
    decreases Bound(HeightsOf(cs, name), xs), |xs|
  {
    if xs != [] {
      var x, ks := xs[0], Kids(cs, name, xs[0].id);
      KidsBelow(cs, name, xs, 0);
      TailBound(HeightsOf(cs, name), xs);
      var w1, w2 := Walk(cs, name, ks, path + [x]), Walk(cs, name, xs[1..], path);
      WalkCons(cs, name, xs, path);
      WalkCensus(cs, name, ks, path + [x]);
      WalkCensus(cs, name, xs[1..], path);
      HeadTail(xs);
      CensusJoin(cs, name, Visit(x, path), xs[1..], w1, w2);
    }
  }

  /** The traversal of a non-empty list: its first record, that record's
      subtree, then the rest of the list. */
  lemma {:induction false} WalkCons(cs: Containers, name: string, xs: seq<Item>, path: seq<Item>)
    requires Nestable(cs, name) && xs != []
    ensures Walk(cs, name, xs, path)
         == [Visit(xs[0], path)] + Walk(cs, name, Kids(cs, name, xs[0].id), path + [xs[0]]) + Walk(cs, name, xs[1..], path)
  {
  }

  /** One record's visit followed by its subtree and its siblings' walk. */
  lemma {:induction false} CensusJoin(cs: Containers, name: string, v: Visit, rest: seq<Item>, w1: seq<Visit>, w2: seq<Visit>)
    requires multiset(Items(w1)) == multiset(Kids(cs, name, v.item.id)) + multiset(Offspring(cs, name, w1))
    requires multiset(Items(w2)) == multiset(rest) + multiset(Offspring(cs, name, w2))
    ensures multiset(Items([v] + w1 + w2)) == multiset([v.item] + rest) + multiset(Offspring(cs, name, [v] + w1 + w2))
  {
    ItemsJoin(v, w1, w2);
    OffspringJoin(cs, name, v, w1, w2);
  }

  lemma {:induction false} ItemsJoin(v: Visit, w1: seq<Visit>, w2: seq<Visit>)
    ensures multiset(Items([v] + w1 + w2)) == multiset([v.item]) + multiset(Items(w1)) + multiset(Items(w2))
  {
    ItemsAppend([v] + w1, w2);
    ItemsAppend([v], w1);
    assert Items([v]) == [v.item];
  }

  lemma {:induction false} OffspringJoin(cs: Containers, name: string, v: Visit, w1: seq<Visit>, w2: seq<Visit>)
    ensures multiset(Offspring(cs, name, [v] + w1 + w2))
         == multiset(Kids(cs, name, v.item.id)) + multiset(Offspring(cs, name, w1)) + multiset(Offspring(cs, name, w2))
  {
    OffspringAppend(cs, name, [v] + w1, w2);
    OffspringAppend(cs, name, [v], w1);
    assert Offspring(cs, name, [v]) == Kids(cs, name, v.item.id) + [];
  }

  lemma {:induction false} ItemsAppend(a: seq<Visit>, b: seq<Visit>)
    ensures Items(a + b) == Items(a) + Items(b)
    decreases |a|
  {
    if a == [] {
      assert a + b == b;
    } else {
      assert (a + b)[0] == a[0] && (a + b)[1..] == a[1..] + b;
      ItemsAppend(a[1..], b);
      Associative([a[0].item], Items(a[1..]), Items(b));
    }
  }

  // ---------------------------------------------------------------------------
  // listsFlattened()

  /** The `$parent_string` argument: null, true (qualified listing, top level)
      or the label of the enclosing record. */
  datatype ParentString = Null | True | Str(s: string)

  predicate Truthful(p: ParentString)
  {
    match p
    case Null => false
    case True => true
    case Str(s) => Truthy(s)
  }

  /** str_repeat. */
  function Repeat(s: string, n: nat): (r: string)
    ensures |r| == n * |s|
  {
    if n == 0 then "" else s + Repeat(s, n - 1)
  }

  /** `$item_string` (lines 111-115). */
  function ItemString(p: ParentString, indent: string, level: nat, col: string): string
  {
    if Truthful(p) then (if p.True? then col else p.s + indent + col)
    else Repeat(indent, level) + col
  }

  /** The parent string handed to the children of a record labelled `s`
      (line 119). */
  function Below(p: ParentString, s: string): ParentString
  {
    if Truthful(p) then Str(s) else Null
  }

  /** The entries listsFlattened() writes for `xs` and their subtrees, in the
      order it writes them. */
  function Listing(cs: Containers, name: string, column: string, indent: string,
                   xs: seq<Item>, level: nat, p: ParentString): seq<(nat, string)>
    requires Nestable(cs, name)
    decreases Bound(HeightsOf(cs, name), xs), |xs|
  {
    if xs == [] then []
    else
      KidsBelow(cs, name, xs, 0);
      TailBound(HeightsOf(cs, name), xs);
      var s := ItemString(p, indent, level, Column(xs[0], column));
      [(xs[0].id, s)]
      + Listing(cs, name, column, indent, Kids(cs, name, xs[0].id), level + 1, Below(p, s))
      + Listing(cs, name, column, indent, xs[1..], level, p)
  }

  lemma {:induction false} ListingAppend(cs: Containers, name: string, column: string, indent: string,
                                         a: seq<Item>, b: seq<Item>, level: nat, p: ParentString)
    requires Nestable(cs, name)
    ensures Listing(cs, name, column, indent, a + b, level, p)
         == Listing(cs, name, column, indent, a, level, p) + Listing(cs, name, column, indent, b, level, p)
    decreases |a|
  {
    if a == [] {
      assert a + b == b;
    } else {
      assert (a + b)[0] == a[0] && (a + b)[1..] == a[1..] + b;
      KidsBelow(cs, name, a, 0);
      var str := ItemString(p, indent, level, Column(a[0], column));
      var head := [(a[0].id, str)] + Listing(cs, name, column, indent, Kids(cs, name, a[0].id), level + 1, Below(p, str));
      assert Listing(cs, name, column, indent, a + b, level, p) == head + Listing(cs, name, column, indent, a[1..] + b, level, p);
      assert Listing(cs, name, column, indent, a, level, p) == head + Listing(cs, name, column, indent, a[1..], level, p);
      ListingAppend(cs, name, column, indent, a[1..], b, level, p);
      Associative(head, Listing(cs, name, column, indent, a[1..], level, p), Listing(cs, name, column, indent, b, level, p));
    }
  }

  /** The unqualified label of a visit: the indent repeated once per level,
      then the record's column. */
  function PlainLabels(vs: seq<Visit>, column: string, indent: string): seq<(nat, string)>
  {
    if vs == [] then []
    else [(vs[0].item.id, Repeat(indent, |vs[0].path|) + Column(vs[0].item, column))]
         + PlainLabels(vs[1..], column, indent)
  }

  /** One label per visit, keyed by the id of the record met. */
  lemma {:induction false} PlainLabelsKeys(vs: seq<Visit>, column: string, indent: string)
    ensures |PlainLabels(vs, column, indent)| == |vs|
    ensures forall i :: 0 <= i < |vs| ==> PlainLabels(vs, column, indent)[i].0 == vs[i].item.id
    decreases |vs|
  {
    if vs != [] {
      PlainLabelsKeys(vs[1..], column, indent);
    }
  }

  lemma {:induction false} PlainLabelsAppend(a: seq<Visit>, b: seq<Visit>, column: string, indent: string)
    ensures PlainLabels(a + b, column, indent) == PlainLabels(a, column, indent) + PlainLabels(b, column, indent)
  {
    if a == [] {
      assert a + b == b;
    } else {
      assert (a + b)[0] == a[0] && (a + b)[1..] == a[1..] + b;
      PlainLabelsAppend(a[1..], b, column, indent);
    }
  }

  /** Without a truthy parent string, listsFlattened() lists the forest in
      pre-order and labels every record with the indent repeated once per
      level below the top, followed by its column. */
  lemma {:induction false} PlainListingIsPreOrder(cs: Containers, name: string, column: string, indent: string,
                                                  xs: seq<Item>, path: seq<Item>, p: ParentString)
    requires Nestable(cs, name) && !Truthful(p)
    ensures Listing(cs, name, column, indent, xs, |path|, p)
         == PlainLabels(Walk(cs, name, xs, path), column, indent)
    decreases Bound(HeightsOf(cs, name), xs), |xs|
  {
    if xs != [] {
      var x, ks := xs[0], Kids(cs, name, xs[0].id);
      KidsBelow(cs, name, xs, 0);
      TailBound(HeightsOf(cs, name), xs);
      PlainListingIsPreOrder(cs, name, column, indent, ks, path + [x], Null);
      PlainListingIsPreOrder(cs, name, column, indent, xs[1..], path, p);
      var w1, w2 := Walk(cs, name, ks, path + [x]), Walk(cs, name, xs[1..], path);
      WalkCons(cs, name, xs, path);
      PlainLabelsAppend([Visit(x, path)] + w1, w2, column, indent);
      PlainLabelsAppend([Visit(x, path)], w1, column, indent);
    }
  }

  /** The qualified label of a record: the columns along its path, outermost
      first, joined by the indent. */
  function Qualified(path: seq<Item>, column: string, indent: string): string
    requires path != []
  {
    if |path| == 1 then Column(path[0], column)
    else Qualified(path[..|path| - 1], column, indent) + indent + Column(path[|path| - 1], column)
  }

  /** A qualified path starts with its root's column, so it is truthy as
      soon as that column is. */
  lemma {:induction false} QualifiedTruthy(path: seq<Item>, column: string, indent: string)
    requires path != []
    requires Truthy(Column(path[0], column))
    ensures Truthy(Qualified(path, column, indent))
    ensures |Qualified(path, column, indent)| >= 1
  {
    if |path| > 1 {
      var init := path[..|path| - 1];
      assert init[0] == path[0];
      QualifiedTruthy(init, column, indent);
      var q, rest := Qualified(init, column, indent), indent + Column(path[|path| - 1], column);
      assert Qualified(path, column, indent) == q + rest;
      if |q + rest| == 1 {
        assert rest == [];
        assert q + rest == q;
      }
    }
  }

  function QualifiedLabels(vs: seq<Visit>, column: string, indent: string): seq<(nat, string)>
  {
    if vs == [] then []
    else [(vs[0].item.id, Qualified(vs[0].path + [vs[0].item], column, indent))]
         + QualifiedLabels(vs[1..], column, indent)
  }

  lemma {:induction false} QualifiedLabelsAppend(a: seq<Visit>, b: seq<Visit>, column: string, indent: string)
    ensures QualifiedLabels(a + b, column, indent) == QualifiedLabels(a, column, indent) + QualifiedLabels(b, column, indent)
  {
    if a == [] {
      assert a + b == b;
    } else {
      assert (a + b)[0] == a[0] && (a + b)[1..] == a[1..] + b;
      QualifiedLabelsAppend(a[1..], b, column, indent);
    }
  }

  /** listsFlattenedQualified(): when every column met is truthy, a top-level
      record is labelled by its bare column and every other record by its
      parent's label, the indent and its own column, so each label is the path
      of columns from the top down to the record. */
  lemma {:induction false} QualifiedListingIsPath(cs: Containers, name: string, column: string, indent: string,
                                                  xs: seq<Item>, level: nat, path: seq<Item>, p: ParentString)
    requires Nestable(cs, name)
    requires p == if path == [] then True else Str(Qualified(path, column, indent))
    requires path != [] ==> Truthy(Column(path[0], column))
    requires path == [] ==> forall x :: x in xs ==> Truthy(Column(x, column))
    ensures Listing(cs, name, column, indent, xs, level, p)
         == QualifiedLabels(Walk(cs, name, xs, path), column, indent)
    decreases Bound(HeightsOf(cs, name), xs), |xs|
  {
    if xs != [] {
      var x, ks := xs[0], Kids(cs, name, xs[0].id);
      KidsBelow(cs, name, xs, 0);
      TailBound(HeightsOf(cs, name), xs);
      var w1, w2 := Walk(cs, name, ks, path + [x]), Walk(cs, name, xs[1..], path);
      WalkCons(cs, name, xs, path);
      assert forall y :: y in xs[1..] ==> y in xs;
      var s := ItemString(p, indent, level, Column(x, column));
      QualifiedStep(path, x, column, indent, level, p);
      QualifiedListingIsPath(cs, name, column, indent, ks, level + 1, path + [x], Below(p, s));
      QualifiedListingIsPath(cs, name, column, indent, xs[1..], level, path, p);
      QualifiedLabelsAppend([Visit(x, path)] + w1, w2, column, indent);
      QualifiedLabelsAppend([Visit(x, path)], w1, column, indent);
    }
  }

  /** The label of a record whose enclosing labels are qualified is its own
      qualified path, which is truthy, and is what its children receive. */
  lemma {:induction false} QualifiedStep(path: seq<Item>, x: Item, column: string, indent: string, level: nat, p: ParentString)
    requires p == if path == [] then True else Str(Qualified(path, column, indent))
    requires path != [] ==> Truthy(Column(path[0], column))
    requires path == [] ==> Truthy(Column(x, column))
    ensures var s := ItemString(p, indent, level, Column(x, column));
      && s == Qualified(path + [x], column, indent)
      && Below(p, s) == Str(Qualified(path + [x], column, indent))
      && Truthy(Column((path + [x])[0], column))
  {
    if path != [] {
      QualifiedTruthy(path, column, indent);
      assert (path + [x])[..|path + [x]| - 1] == path;
      assert (path + [x])[0] == path[0];
    }
  }


  // ---------------------------------------------------------------------------
  // The `$flattened` array: a PHP array with insertion-ordered keys

  function Keys(acc: seq<(nat, string)>): set<nat>
  {
    set e | e in acc :: e.0
  }

  /** `$flattened[$k] = $v`: overwrite in place when the key is present,
      otherwise append. */
  function Put(acc: seq<(nat, string)>, k: nat, v: string): seq<(nat, string)>
  {
    if acc == [] then [(k, v)]
    else if acc[0].0 == k then [(k, v)] + acc[1..]
    else [acc[0]] + Put(acc[1..], k, v)
  }

  /** Writing the entries `es` one after another. */
  function PutAll(acc: seq<(nat, string)>, es: seq<(nat, string)>): seq<(nat, string)>
    decreases |es|
  {
    if es == [] then acc else PutAll(Put(acc, es[0].0, es[0].1), es[1..])
  }

  lemma {:induction false} PutAllAppend(acc: seq<(nat, string)>, a: seq<(nat, string)>, b: seq<(nat, string)>)
    ensures PutAll(acc, a + b) == PutAll(PutAll(acc, a), b)
    decreases |a|
  {
    if a == [] {
      assert a + b == b;
    } else {
      assert (a + b)[0] == a[0] && (a + b)[1..] == a[1..] + b;
      PutAllAppend(Put(acc, a[0].0, a[0].1), a[1..], b);
    }
  }

  lemma {:induction false} PutFresh(acc: seq<(nat, string)>, k: nat, v: string)
    requires k !in Keys(acc)
    ensures Put(acc, k, v) == acc + [(k, v)]
  {
    if acc != [] {
      assert acc[0] in acc;
      assert forall e :: e in acc[1..] ==> e in acc;
      PutFresh(acc[1..], k, v);
    }
  }

  predicate DistinctKeys(es: seq<(nat, string)>)
  {
    forall i, j :: 0 <= i < j < |es| ==> es[i].0 != es[j].0
  }

  /** When the listing names each id once and none of them is already in the
      array, writing it appends it unchanged. */
  lemma {:induction false} PutAllFresh(acc: seq<(nat, string)>, es: seq<(nat, string)>)
    requires DistinctKeys(es)
    requires forall e :: e in es ==> e.0 !in Keys(acc)
    ensures PutAll(acc, es) == acc + es
    decreases |es|
  {
    if es != [] {
      PutFresh(acc, es[0].0, es[0].1);
      var acc' := acc + [es[0]];
      forall e | e in es[1..] ensures e.0 !in Keys(acc') {
        var j :| 0 <= j < |es[1..]| && es[1..][j] == e;
        assert es[j + 1] == e;
        assert e in es;
      }
      PutAllFresh(acc', es[1..]);
      HeadTail(es);
    }
  }

  /** Writing a key keeps one entry per key: the key is present afterwards
      with the value written, and no other key is gained or lost. */
  lemma {:induction false} PutKeys(acc: seq<(nat, string)>, k: nat, v: string)
    requires DistinctKeys(acc)
    ensures DistinctKeys(Put(acc, k, v))
    ensures Keys(Put(acc, k, v)) == Keys(acc) + {k}
    ensures (k, v) in Put(acc, k, v)
  {
    if acc != [] {
      var rest := acc[1..];
      assert acc == [acc[0]] + rest;
      DistinctTail(acc);
      KeysCons(acc[0], rest);
      if acc[0].0 == k {
        DistinctCons((k, v), rest);
        KeysCons((k, v), rest);
      } else {
        PutKeys(rest, k, v);
        DistinctCons(acc[0], Put(rest, k, v));
        KeysCons(acc[0], Put(rest, k, v));
      }
    }
  }

  /** An entry with the written key is overwritten where it stands, every
      other entry keeps its value and its position, and a new key goes at
      the end. */
  lemma {:induction false} PutInPlace(acc: seq<(nat, string)>, k: nat, v: string)
    requires DistinctKeys(acc)
    ensures |Put(acc, k, v)| == if k in Keys(acc) then |acc| else |acc| + 1
    ensures forall i :: 0 <= i < |acc| ==> Put(acc, k, v)[i] == if acc[i].0 == k then (k, v) else acc[i]
    ensures k !in Keys(acc) ==> Put(acc, k, v)[|acc|] == (k, v)
  {
    if acc != [] {
      var rest := acc[1..];
      assert acc == [acc[0]] + rest;
      DistinctTail(acc);
      KeysCons(acc[0], rest);
      if acc[0].0 == k {
        forall i | 0 < i < |acc| ensures acc[i].0 != k {
          assert acc[i] == rest[i - 1];
        }
      } else {
        PutInPlace(rest, k, v);
      }
    }
  }

  lemma {:induction false} DistinctTail(acc: seq<(nat, string)>)
    requires acc != [] && DistinctKeys(acc)
    ensures DistinctKeys(acc[1..]) && acc[0].0 !in Keys(acc[1..])
  {
    var rest := acc[1..];
    forall i, j | 0 <= i < j < |rest| ensures rest[i].0 != rest[j].0 {
      assert rest[i] == acc[i + 1] && rest[j] == acc[j + 1];
    }
    forall e | e in rest ensures e.0 != acc[0].0 {
      var j :| 0 <= j < |rest| && rest[j] == e;
      assert acc[j + 1] == e;
    }
  }

  lemma {:induction false} KeysCons(e: (nat, string), rest: seq<(nat, string)>)
    ensures Keys([e] + rest) == {e.0} + Keys(rest)
  {
    assert forall f :: f in [e] + rest <==> f == e || f in rest;
  }

  lemma {:induction false} DistinctCons(e: (nat, string), rest: seq<(nat, string)>)
    requires DistinctKeys(rest) && e.0 !in Keys(rest)
    ensures DistinctKeys([e] + rest)
  {
    var t := [e] + rest;
    forall i, j | 0 <= i < j < |t| ensures t[i].0 != t[j].0 {
      assert t[j] == rest[j - 1];
      if i == 0 {
        assert rest[j - 1] in rest;
      } else {
        assert t[i] == rest[i - 1];
      }
    }
  }

  /** Writing a listing keeps one entry per key and gains exactly the keys
      of the listing. */
  lemma {:induction false} PutAllKeys(acc: seq<(nat, string)>, es: seq<(nat, string)>)
    requires DistinctKeys(acc)
    ensures DistinctKeys(PutAll(acc, es))
    ensures Keys(PutAll(acc, es)) == Keys(acc) + Keys(es)
    decreases |es|
  {
    if es != [] {
      PutKeys(acc, es[0].0, es[0].1);
      PutAllKeys(Put(acc, es[0].0, es[0].1), es[1..]);
      HeadTail(es);
      KeysCons(es[0], es[1..]);
    }
  }

  /** Writing a listing leaves every entry whose key the listing does not
      name with its value and at its position. */
  lemma {:induction false} PutAllKeeps(acc: seq<(nat, string)>, es: seq<(nat, string)>)
    requires DistinctKeys(acc)
    ensures |acc| <= |PutAll(acc, es)|
    ensures forall i :: 0 <= i < |acc| && acc[i].0 !in Keys(es) ==> PutAll(acc, es)[i] == acc[i]
    decreases |es|
  {
    if es != [] {
      var acc', rest := Put(acc, es[0].0, es[0].1), es[1..];
      PutKeys(acc, es[0].0, es[0].1);
      PutInPlace(acc, es[0].0, es[0].1);
      PutAllKeeps(acc', rest);
      assert es == [es[0]] + rest;
      KeysCons(es[0], rest);
    }
  }

  /** Writing a listing leaves each key it names holding the value of the
      key's last occurrence in the listing. */
  lemma {:induction false} PutAllLast(acc: seq<(nat, string)>, es: seq<(nat, string)>)
    requires DistinctKeys(acc)
    ensures forall i :: 0 <= i < |es| && LastOccurrence(es, i) ==> es[i] in PutAll(acc, es)
    decreases |es|
  {
    if es != [] {
      var acc', rest := Put(acc, es[0].0, es[0].1), es[1..];
      PutKeys(acc, es[0].0, es[0].1);
      PutAllLast(acc', rest);
      forall i | 0 <= i < |es| && LastOccurrence(es, i) ensures es[i] in PutAll(acc, es) {
        if i == 0 {
          LastIsFresh(es);
          PutAllKeeps(acc', rest);
          var p :| 0 <= p < |acc'| && acc'[p] == es[0];
          assert PutAll(acc', rest)[p] == acc'[p];
        } else {
          assert rest[i - 1] == es[i];
          assert LastOccurrence(rest, i - 1) by {
            forall j | i - 1 < j < |rest| ensures rest[j].0 != rest[i - 1].0 {
              assert rest[j] == es[j + 1];
            }
          }
        }
      }
    }
  }

  lemma {:induction false} LastIsFresh(es: seq<(nat, string)>)
    requires es != [] && LastOccurrence(es, 0)
    ensures es[0].0 !in Keys(es[1..])
  {
    forall e | e in es[1..] ensures e.0 != es[0].0 {
      var j :| 0 <= j < |es[1..]| && es[1..][j] == e;
      assert es[j + 1] == e;
    }
  }

  /** Position `i` holds the last entry of `es` with its key. */
  predicate LastOccurrence(es: seq<(nat, string)>, i: nat)
    requires i < |es|
  {
    forall j :: i < j < |es| ==> es[j].0 != es[i].0
  }

  /** From an empty array, a listing that names every id once is written out
      as it is: the plain flattened array is the pre-order of the forest with
      its indented labels. */
  lemma {:induction false} FlattenedIsPreOrder(cs: Containers, name: string, column: string, indent: string, xs: seq<Item>)
    requires Nestable(cs, name)
    requires DistinctKeys(Listing(cs, name, column, indent, xs, 0, Null))
    ensures PutAll([], Listing(cs, name, column, indent, xs, 0, Null))
         == PlainLabels(Walk(cs, name, xs, []), column, indent)
  {
    PutAllFresh([], Listing(cs, name, column, indent, xs, 0, Null));
    PlainListingIsPreOrder(cs, name, column, indent, xs, [], Null);
  }

  // ---------------------------------------------------------------------------
  // setParents()

  /** The parent relation after setting it for each visit in turn: a visit
      below the top links its record to the last record on its path. */
  function Link(m: map<nat, nat>, vs: seq<Visit>): map<nat, nat>
    decreases |vs|
  {
    if vs == [] then m
    else
      var v := vs[0];
      Link(if v.path == [] then m else m[v.item.id := v.path[|v.path| - 1].id], vs[1..])
  }

  lemma {:induction false} LinkAppend(m: map<nat, nat>, a: seq<Visit>, b: seq<Visit>)
    ensures Link(m, a + b) == Link(Link(m, a), b)
    decreases |a|
  {
    if a == [] {
      assert a + b == b;
    } else {
      assert (a + b)[0] == a[0] && (a + b)[1..] == a[1..] + b;
      var v := a[0];
      LinkAppend(if v.path == [] then m else m[v.item.id := v.path[|v.path| - 1].id], a[1..], b);
    }
  }

  /** The ids the traversal meets below the top level. */
  function NestedIds(vs: seq<Visit>): set<nat>
  {
    set v | v in vs && v.path != [] :: v.item.id
  }

  /** The links leave every id not met below the top untouched, and give every
      id met below the top the last record on the path of one of its visits. */
  lemma {:induction false} LinkSetsNestedOnly(m: map<nat, nat>, vs: seq<Visit>)
    ensures forall c :: c !in NestedIds(vs) ==>
      (c in Link(m, vs) <==> c in m) && (c in m ==> Link(m, vs)[c] == m[c])
    ensures forall c :: c in NestedIds(vs) ==>
      c in Link(m, vs) &&
      exists v :: v in vs && v.path != [] && v.item.id == c && Link(m, vs)[c] == v.path[|v.path| - 1].id
    decreases |vs|
  {
    if vs != [] {
      var v := vs[0];
      var m' := if v.path == [] then m else m[v.item.id := v.path[|v.path| - 1].id];
      LinkSetsNestedOnly(m', vs[1..]);
      HeadTail(vs);
      forall c | c in NestedIds(vs)
        ensures c in Link(m, vs) &&
          exists w :: w in vs && w.path != [] && w.item.id == c && Link(m, vs)[c] == w.path[|w.path| - 1].id
      {
        if c !in NestedIds(vs[1..]) {
          assert v.path != [] && v.item.id == c;
        } else {
          var w :| w in vs[1..] && w.path != [] && w.item.id == c && Link(m', vs[1..])[c] == w.path[|w.path| - 1].id;
          assert w in vs;
        }
      }
    }
  }

  /** setParents() records, for every record below the top level, a record
      whose container holds it, and leaves the relation of every record that
      is only ever met at the top level as it was. */
  lemma {:induction false} SetParentsLinksContainer(cs: Containers, name: string, m: map<nat, nat>, roots: seq<Item>)
    requires Nestable(cs, name)
    ensures var vs := Walk(cs, name, roots, []);
      forall c :: c in NestedIds(vs) ==>
        c in Link(m, vs) && exists x :: x in Kids(cs, name, Link(m, vs)[c]) && x.id == c
    ensures var vs := Walk(cs, name, roots, []);
      forall c :: c !in NestedIds(vs) ==>
        (c in Link(m, vs) <==> c in m) && (c in m ==> Link(m, vs)[c] == m[c])
  {
    var vs := Walk(cs, name, roots, []);
    WalkPlacesUnderParent(cs, name, roots, []);
    LinkSetsNestedOnly(m, vs);
    forall c | c in NestedIds(vs)
      ensures exists x :: x in Kids(cs, name, Link(m, vs)[c]) && x.id == c
    {
      var v :| v in vs && v.path != [] && v.item.id == c && Link(m, vs)[c] == v.path[|v.path| - 1].id;
      assert Placed(cs, name, roots, [], v);
    }
  }
}
