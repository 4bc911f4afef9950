/** The shape of the forest nest() leaves on a freshly built collection: the
    traversal from the new top level meets every surviving record exactly
    once, so the flatteners list each of them once and setParents() links
    each nested record to its own parent id. */
module Shape {
  import opened Records
  import opened Nesting
  import opened Forest
  import opened Collection

  /** The containers of a collection nested from scratch: every id reads as
      the records the forward pass moved under it, and no others. */
  lemma {:induction false} FreshKidsAreAdopted(s0: seq<Item>, S: seq<Item>, name: string, p: nat)
    requires forall x :: x in S ==> x in s0
    ensures Kids(Grown(Equipped(map[], s0, name), name, S), name, p) == Adopted(S, p)
  {
    var e := Equipped(map[], s0, name);
    EquippedKeepsExisting(map[], s0, name);
    if (p, name) in e {
      assert e[(p, name)] == [];
      GrownFromEmpty(e, name, S, p);
    } else {
      assert forall x :: x in S ==> x.id != p;
      NobodyAdopts(S, p);
      GrownAbsent(e, name, S, p);
    }
  }

  lemma {:induction false} GrownFromEmpty(e: Containers, name: string, S: seq<Item>, p: nat)
    requires (p, name) in e && e[(p, name)] == []
    ensures Kids(Grown(e, name, S), name, p) == Adopted(S, p)
  {
    assert Grown(e, name, S)[(p, name)] == [] + Adopted(S, p);
  }

  lemma {:induction false} GrownAbsent(e: Containers, name: string, S: seq<Item>, p: nat)
    requires (p, name) !in e
    ensures Kids(Grown(e, name, S), name, p) == []
  {
  }

  /** An id that no record of the pass has adopts nothing. */
  lemma {:induction false} NobodyAdopts(S: seq<Item>, p: nat)
    requires forall x :: x in S ==> x.id != p
    ensures Adopted(S, p) == []
  {
    forall y | y in S ensures !ChildOf(Ids(S), p)(y) {
      assert y.parent == p ==> p !in Ids(S);
    }
    FilterNone(S, ChildOf(Ids(S), p));
  }

  /** The records the pass moved under the records of some visits, one
      visit after another. */
  function Adoptions(S: seq<Item>, vs: seq<Visit>): seq<Item>
  {
    if vs == [] then [] else Adopted(S, vs[0].item.id) + Adoptions(S, vs[1..])
  }

  lemma {:induction false} OffspringAreAdoptions(S: seq<Item>, cs: Containers, name: string, vs: seq<Visit>)
    requires forall p :: Kids(cs, name, p) == Adopted(S, p)
    ensures Offspring(cs, name, vs) == Adoptions(S, vs)
    decreases |vs|
  {
    if vs != [] {
      OffspringAreAdoptions(S, cs, name, vs[1..]);
      assert Kids(cs, name, vs[0].item.id) == Adopted(S, vs[0].item.id);
    }
  }

  /** Whatever is adopted is a record of the pass. */
  lemma {:induction false} AdoptionsWithin(S: seq<Item>, vs: seq<Visit>)
    ensures forall y :: y in Adoptions(S, vs) ==> y in S
    decreases |vs|
  {
    if vs != [] {
      AdoptionsWithin(S, vs[1..]);
    }
  }

  /** How often a record of the pass is adopted during visits to records of
      the pass: once per visit to its parent `up` when it was moved, never
      otherwise. */
  lemma {:induction false} AdoptionsCount(S: seq<Item>, vs: seq<Visit>, x: Item, up: Item)
    requires UniqueIds(S) && x in S && up in S
    requires Moved(Ids(S), x) ==> up.id == x.parent
    requires forall v :: v in vs ==> v.item in S
    ensures multiset(Adoptions(S, vs))[x] == if Moved(Ids(S), x) then multiset(Items(vs))[up] else 0
    decreases |vs|
  {
    if vs != [] {
      var v, rest := vs[0], vs[1..];
      assert forall w :: w in rest ==> w in vs;
      AdoptionsCount(S, rest, x, up);
      assert Adoptions(S, vs) == Adopted(S, v.item.id) + Adoptions(S, rest);
      assert Items(vs) == [v.item] + Items(rest);
      AdoptedCount(S, x, v.item.id);
      if Moved(Ids(S), x) && v.item.id == x.parent {
        SameIdSameRecord(S, v.item, up);
      }
    }
  }

  /** A record of the pass is adopted once by its own parent when it is
      moved, and otherwise by nobody. */
  lemma {:induction false} AdoptedCount(S: seq<Item>, x: Item, p: nat)
    requires UniqueIds(S) && x in S
    ensures multiset(Adopted(S, p))[x] == if Moved(Ids(S), x) && p == x.parent then 1 else 0
  {
    FilterCount(S, ChildOf(Ids(S), p), x);
    UniqueOccursOnce(S, x);
  }

  /** Climbing the parent ids by rank: a record of the pass that is left at
      the top level is met once, and a moved one is met once per meeting of
      its parent, hence once. */
  lemma {:induction false} MetOnce(S: seq<Item>, w: seq<Visit>, r: map<nat, nat>, x: Item)
    requires UniqueIds(S) && x in S
    requires RankedBy(Dictionary(S), r)
    requires forall v :: v in w ==> v.item in S
    requires multiset(Items(w)) == multiset(TopLevel(S)) + multiset(Adoptions(S, w))
    ensures multiset(Items(w))[x] == 1
    decreases r[x.id]
  {
    FilterCount(S, NotMoved(Ids(S)), x);
    UniqueOccursOnce(S, x);
    if Moved(Ids(S), x) {
      var d := Dictionary(S);
      assert d[x.id] == x;
      AdoptionsCount(S, w, x, d[x.parent]);
      MetOnce(S, w, r, d[x.parent]);
    } else {
      AdoptionsCount(S, w, x, x);
    }
  }

  /** The traversal of a forest whose containers are those of the pass over
      `S` meets, from the top level, exactly the records of `S`, each once. */
  lemma {:induction false} ForestHoldsEachOnce(S: seq<Item>, cs: Containers, name: string)
    requires UniqueIds(S) && Acyclic(Dictionary(S)) && Nestable(cs, name)
    requires forall p :: Kids(cs, name, p) == Adopted(S, p)
    ensures multiset(Items(Walk(cs, name, TopLevel(S), []))) == multiset(S)
  {
    var w := Walk(cs, name, TopLevel(S), []);
    WalkCensus(cs, name, TopLevel(S), []);
    OffspringAreAdoptions(S, cs, name, w);
    CensusEachOnce(S, w);
  }

  /** Visits whose records are the top level plus what the visited records
      adopt meet each record of the pass once and nothing else. */
  lemma {:induction false} CensusEachOnce(S: seq<Item>, w: seq<Visit>)
    requires UniqueIds(S) && Acyclic(Dictionary(S))
    requires multiset(Items(w)) == multiset(TopLevel(S)) + multiset(Adoptions(S, w))
    ensures multiset(Items(w)) == multiset(S)
  {
    var r :| RankedBy(Dictionary(S), r);
    CensusWithin(S, w);
    forall y ensures multiset(Items(w))[y] == multiset(S)[y] {
      CensusAt(S, w, r, y);
    }
    SameCounts(multiset(Items(w)), multiset(S));
  }

  lemma {:induction false} CensusAt(S: seq<Item>, w: seq<Visit>, r: map<nat, nat>, y: Item)
    requires UniqueIds(S) && RankedBy(Dictionary(S), r)
    requires forall v :: v in w ==> v.item in S
    requires forall z :: z !in S ==> multiset(Items(w))[z] == 0
    requires multiset(Items(w)) == multiset(TopLevel(S)) + multiset(Adoptions(S, w))
    ensures multiset(Items(w))[y] == multiset(S)[y]
  {
    if y in S {
      MetOnce(S, w, r, y);
      UniqueOccursOnce(S, y);
    }
  }

  lemma {:induction false} SameCounts(a: multiset<Item>, b: multiset<Item>)
    requires forall y :: a[y] == b[y]
    ensures a == b
  {
  }

  /** A traversal whose records are the top level plus the adopted ones
      meets only records of the pass. */
  lemma {:induction false} CensusWithin(S: seq<Item>, w: seq<Visit>)
    requires multiset(Items(w)) == multiset(TopLevel(S)) + multiset(Adoptions(S, w))
    ensures forall v :: v in w ==> v.item in S
    ensures forall y :: y !in S ==> multiset(Items(w))[y] == 0
  {
    AdoptionsWithin(S, w);
    var top, adopted := multiset(TopLevel(S)), multiset(Adoptions(S, w));
    forall v | v in w ensures v.item in S {
      var i :| 0 <= i < |w| && w[i] == v;
      assert Items(w)[i] == v.item;
      assert v.item in multiset(Items(w));
      assert v.item in top || v.item in adopted;
    }
    forall y | y !in S ensures multiset(Items(w))[y] == 0 {
      assert y !in TopLevel(S) && y !in Adoptions(S, w);
    }
  }

  /** What nest() leaves on a freshly built collection of acyclic records:
      the pass runs over records with distinct, acyclic ids, the containers
      hold no cycle, and every id's container holds what the pass moved
      under it. */
  lemma {:induction false} FreshNest(s: seq<Item>, clean: bool, name: string)
    requires Acyclic(Dictionary(s))
    ensures var S := Kept(s, clean);
      var cs := Grown(Equipped(map[], DictionaryList(s), name), name, S);
      && UniqueIds(S) && Acyclic(Dictionary(S)) && Nestable(cs, name)
      && forall p :: Kids(cs, name, p) == Adopted(S, p)
  {
    var s0, S := DictionaryList(s), Kept(s, clean);
    var cs := Grown(Equipped(map[], s0, name), name, S);
    var P := Dictionary(s);
    NestInput(s, s);
    assert forall x :: x in S ==> x in s0;
    NestOutput(P, map[], s0, S, name, TopLevel(S), cs);
    AcyclicSub(P, Dictionary(S));
    forall p ensures Kids(cs, name, p) == Adopted(S, p) {
      FreshKidsAreAdopted(s0, S, name, p);
    }
  }

  /** nest() on a freshly built collection of acyclic records: the traversal
      from the new top level meets exactly the records the pass kept, each
      once. */
  lemma {:induction false} NestedForestHoldsEachOnce(s: seq<Item>, clean: bool, name: string)
    requires Acyclic(Dictionary(s))
    ensures var cs := Grown(Equipped(map[], DictionaryList(s), name), name, Kept(s, clean));
      && Nestable(cs, name)
      && multiset(Items(Walk(cs, name, TopLevel(Kept(s, clean)), []))) == multiset(Kept(s, clean))
  {
    FreshNest(s, clean, name);
    ForestHoldsEachOnce(Kept(s, clean), Grown(Equipped(map[], DictionaryList(s), name), name, Kept(s, clean)), name);
  }

  /** A list holding the same records as a list with distinct ids has
      distinct ids itself. */
  lemma {:induction false} SameRecordsUnique(a: seq<Item>, S: seq<Item>)
    requires UniqueIds(S) && multiset(a) == multiset(S)
    ensures UniqueIds(a)
  {
    forall i, j | 0 <= i < j < |a| ensures a[i].id != a[j].id {
      if a[i].id == a[j].id {
        assert a[i] in multiset(a) && a[j] in multiset(a);
        SameIdSameRecord(S, a[i], a[j]);
        TwiceCounted(a, i, j);
        UniqueOccursOnce(S, a[i]);
      }
    }
  }

  lemma {:induction false} TwiceCounted(a: seq<Item>, i: nat, j: nat)
    requires i < j < |a| && a[i] == a[j]
    ensures multiset(a)[a[i]] >= 2
  {
    assert a == a[..j] + a[j..];
    assert a[i] == a[..j][i] && a[j] == a[j..][0];
  }

  /** The labels of a traversal that meets the records of `S` once each:
      one per record, under distinct keys, which are the ids of `S`. */
  lemma {:induction false} LabelsOfEachOnce(w: seq<Visit>, S: seq<Item>, column: string, indent: string)
    requires UniqueIds(S) && multiset(Items(w)) == multiset(S)
    ensures DistinctKeys(PlainLabels(w, column, indent))
    ensures Keys(PlainLabels(w, column, indent)) == Ids(S)
    ensures |PlainLabels(w, column, indent)| == |S|
  {
    var labels := PlainLabels(w, column, indent);
    SameRecordsUnique(Items(w), S);
    PlainLabelsKeys(w, column, indent);
    forall i, j | 0 <= i < j < |labels| ensures labels[i].0 != labels[j].0 {
      assert Items(w)[i].id == labels[i].0 && Items(w)[j].id == labels[j].0;
    }
    forall k ensures k in Keys(labels) <==> k in Ids(S) {
      if k in Keys(labels) {
        var e :| e in labels && e.0 == k;
        var i :| 0 <= i < |labels| && labels[i] == e;
        assert Items(w)[i] in multiset(S);
      }
      if k in Ids(S) {
        var x :| x in S && x.id == k;
        assert x in multiset(Items(w));
        var i :| 0 <= i < |w| && Items(w)[i] == x;
        assert labels[i] in labels;
      }
    }
    assert |multiset(Items(w))| == |multiset(S)|;
  }

  /** listsFlattened() right after nest() on a freshly built collection of
      acyclic records, from an empty array: one entry per record the pass
      kept, in pre-order, each labelled with the indent once per depth
      followed by its column. */
  lemma {:induction false} NestThenFlatten(s: seq<Item>, clean: bool, name: string, column: string, indent: string)
    requires Acyclic(Dictionary(s))
    ensures var S := Kept(s, clean);
      var cs := Grown(Equipped(map[], DictionaryList(s), name), name, S);
      && Nestable(cs, name)
      && PutAll([], Listing(cs, name, column, indent, TopLevel(S), 0, Null))
         == PlainLabels(Walk(cs, name, TopLevel(S), []), column, indent)
      && Keys(PutAll([], Listing(cs, name, column, indent, TopLevel(S), 0, Null))) == Ids(S)
      && |PutAll([], Listing(cs, name, column, indent, TopLevel(S), 0, Null))| == |S|
  {
    var S := Kept(s, clean);
    var cs := Grown(Equipped(map[], DictionaryList(s), name), name, S);
    FreshNest(s, clean, name);
    ForestHoldsEachOnce(S, cs, name);
    FlattenEachOnce(S, cs, name, column, indent, TopLevel(S));
  }

  /** Flattening from an empty array a forest whose traversal meets the
      records of `S` once each: the pre-order labels, one per record of `S`. */
  lemma {:induction false} FlattenEachOnce(S: seq<Item>, cs: Containers, name: string, column: string, indent: string, xs: seq<Item>)
    requires Nestable(cs, name) && UniqueIds(S)
    requires multiset(Items(Walk(cs, name, xs, []))) == multiset(S)
    ensures PutAll([], Listing(cs, name, column, indent, xs, 0, Null)) == PlainLabels(Walk(cs, name, xs, []), column, indent)
    ensures Keys(PlainLabels(Walk(cs, name, xs, []), column, indent)) == Ids(S)
    ensures |PlainLabels(Walk(cs, name, xs, []), column, indent)| == |S|
  {
    var w := Walk(cs, name, xs, []);
    LabelsOfEachOnce(w, S, column, indent);
    PlainListingIsPreOrder(cs, name, column, indent, xs, [], Null);
    FlattenedIsPreOrder(cs, name, column, indent, xs);
  }

  /** setParents() right after nest() on a freshly built collection of
      acyclic records: exactly the records the pass moved are linked, each
      to its own parent id, and every other id keeps the link it had. */
  lemma {:induction false} NestThenSetParents(s: seq<Item>, clean: bool, name: string, m: map<nat, nat>)
    requires Acyclic(Dictionary(s))
    ensures var S := Kept(s, clean);
      var cs := Grown(Equipped(map[], DictionaryList(s), name), name, S);
      && Nestable(cs, name)
      && NestedIds(Walk(cs, name, TopLevel(S), [])) == (set x | x in S && Moved(Ids(S), x) :: x.id)
      && (forall x :: x in S && Moved(Ids(S), x) ==>
            x.id in Link(m, Walk(cs, name, TopLevel(S), [])) && Link(m, Walk(cs, name, TopLevel(S), []))[x.id] == x.parent)
      && (forall c :: c !in NestedIds(Walk(cs, name, TopLevel(S), [])) ==>
            (c in Link(m, Walk(cs, name, TopLevel(S), [])) <==> c in m)
            && (c in m ==> Link(m, Walk(cs, name, TopLevel(S), []))[c] == m[c]))
  {
    var S := Kept(s, clean);
    var cs := Grown(Equipped(map[], DictionaryList(s), name), name, S);
    FreshNest(s, clean, name);
    ForestHoldsEachOnce(S, cs, name);
    NestedAreMoved(S, cs, name);
    LinkedToParent(S, cs, name, m);
    LinkSetsNestedOnly(m, Walk(cs, name, TopLevel(S), []));
  }

  /** The records met below the top are exactly the moved ones. */
  lemma {:induction false} NestedAreMoved(S: seq<Item>, cs: Containers, name: string)
    requires Nestable(cs, name)
    requires forall p :: Kids(cs, name, p) == Adopted(S, p)
    requires multiset(Items(Walk(cs, name, TopLevel(S), []))) == multiset(S)
    ensures NestedIds(Walk(cs, name, TopLevel(S), [])) == (set x | x in S && Moved(Ids(S), x) :: x.id)
  {
    var w := Walk(cs, name, TopLevel(S), []);
    WalkPlacesUnderParent(cs, name, TopLevel(S), []);
    forall v | v in w
      ensures v.path == [] ==> v.item in TopLevel(S)
      ensures v.path != [] ==> v.item in Adopted(S, v.path[|v.path| - 1].id)
    {
      assert Placed(cs, name, TopLevel(S), [], v);
    }
    VisitsPlaceMoved(S, w);
  }

  lemma {:induction false} VisitsPlaceMoved(S: seq<Item>, w: seq<Visit>)
    requires forall v :: v in w && v.path == [] ==> v.item in TopLevel(S)
    requires forall v :: v in w && v.path != [] ==> v.item in Adopted(S, v.path[|v.path| - 1].id)
    requires multiset(Items(w)) == multiset(S)
    ensures NestedIds(w) == (set x | x in S && Moved(Ids(S), x) :: x.id)
  {
    var moved := set x | x in S && Moved(Ids(S), x) :: x.id;
    forall c | c in NestedIds(w) ensures c in moved {
      var v :| v in w && v.path != [] && v.item.id == c;
      assert v.item in Adopted(S, v.path[|v.path| - 1].id);
    }
    forall x | x in S && Moved(Ids(S), x) ensures x.id in NestedIds(w) {
      assert x in multiset(Items(w));
      var i :| 0 <= i < |w| && Items(w)[i] == x;
      assert w[i] in w;
      assert x !in TopLevel(S);
    }
  }

  /** Every moved record is linked to its own parent id. */
  lemma {:induction false} LinkedToParent(S: seq<Item>, cs: Containers, name: string, m: map<nat, nat>)
    requires Nestable(cs, name) && UniqueIds(S)
    requires forall p :: Kids(cs, name, p) == Adopted(S, p)
    requires NestedIds(Walk(cs, name, TopLevel(S), [])) == (set x | x in S && Moved(Ids(S), x) :: x.id)
    ensures forall x :: x in S && Moved(Ids(S), x) ==>
      x.id in Link(m, Walk(cs, name, TopLevel(S), [])) && Link(m, Walk(cs, name, TopLevel(S), []))[x.id] == x.parent
  {
    var w := Walk(cs, name, TopLevel(S), []);
    var links := Link(m, w);
    SetParentsLinksContainer(cs, name, m, TopLevel(S));
    forall x | x in S && Moved(Ids(S), x) ensures x.id in links && links[x.id] == x.parent {
      assert x.id in NestedIds(w);
      var y :| y in Kids(cs, name, links[x.id]) && y.id == x.id;
      assert y in Adopted(S, links[x.id]);
      SameIdSameRecord(S, x, y);
    }
  }
}
