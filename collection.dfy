/** The NestableCollection object: a list of records, the children containers
    that nest() fills, the parent relations setParents() sets, and the
    configuration that the fluent setters change. */
module Collection {
  import opened Records
  import opened Ancestry
  import opened Nesting
  import opened Forest

  /** Every record of the forward pass is stored in `P`, so the containers
      nest() leaves are consistent with `P` whenever they were before. */
  lemma {:induction false} NestKeepsConsistent(P: map<nat, Item>, cs: Containers, S0: seq<Item>, S: seq<Item>, name: string)
    requires Consistent(P, cs)
    requires forall x :: x in S0 ==> x.id in P && P[x.id] == x
    requires forall x :: x in S ==> x in S0
    ensures Consistent(P, Grown(Equipped(cs, S0, name), name, S))
  {
    var e: Containers := Equipped(cs, S0, name);
    EquippedKeepsExisting(cs, S0, name);
    var g: Containers := Grown(e, name, S);
    forall k: (nat, string), j: int | k in g && 0 <= j < |g[k]|
      ensures g[k][j].id in P && P[g[k][j].id] == g[k][j]
      ensures g[k][j].parent == k.0 && k.0 != 0 && k.0 in P
    {
      if k !in cs {
        assert e[k] == [];
      }
      if k.1 == name && j >= |e[k]| {
        var a := AdoptedBy(Ids(S), S, k.0);
        assert g[k] == e[k] + a;
        var y := a[j - |e[k]|];
        assert y == g[k][j];
        assert y in a;
        assert ChildOf(Ids(S), k.0)(y);
        var z :| z in S && z.id == y.parent;
        assert z in S0;
      }
    }
  }

  /** The ordered dictionary nest() keys the records by has distinct ids,
      holds only records of the constructed collection's dictionary, and keys
      to the same map as the records themselves. */
  lemma {:induction false} NestInput(origin: seq<Item>, s: seq<Item>)
    requires s == origin || (UniqueIds(s) && forall x :: x in s ==> x.id in Dictionary(origin) && Dictionary(origin)[x.id] == x)
    ensures UniqueIds(DictionaryList(s))
    ensures forall x :: x in DictionaryList(s) ==> x.id in Dictionary(origin) && Dictionary(origin)[x.id] == x
    ensures Dictionary(DictionaryList(s)) == Dictionary(s)
  {
    DictionaryListKeyed(s);
    DictionaryListKeys(s);
    if s != origin {
      DictionaryListOfUnique(s);
    }
  }

  /** What nest() leaves: a top level of distinct records of `P`, containers
      consistent with `P`, and (when `P` is acyclic) no cycle among them. */
  lemma {:induction false} NestOutput(P: map<nat, Item>, cs: Containers, S0: seq<Item>, S: seq<Item>, name: string,
                   top: seq<Item>, grown: Containers)
    requires Consistent(P, cs)
    requires UniqueIds(S0) && forall x :: x in S0 ==> x.id in P && P[x.id] == x
    requires UniqueIds(S) && forall x :: x in S ==> x in S0
    requires top == TopLevel(S) && grown == Grown(Equipped(cs, S0, name), name, S)
    ensures UniqueIds(top) && forall x :: x in top ==> x.id in P && P[x.id] == x
    ensures Consistent(P, grown)
    ensures Acyclic(P) ==> Nestable(grown, name)
  {
    NestKeepsConsistent(P, cs, S0, S, name);
    if Acyclic(P) {
      ConsistentNestable(P, grown, name);
    }
  }

  /** nest() on values: the new top level and the new containers, computed by
      the stages of lines 58-89 in order. */
  method NestRecords(cs: Containers, s: seq<Item>, name: string, clean: bool)
    returns (top: seq<Item>, grown: Containers)
    requires clean ==> Acyclic(Dictionary(s))
    ensures top == TopLevel(Kept(s, clean))
    ensures grown == Grown(Equipped(cs, DictionaryList(s), name), name, Kept(s, clean))
  {
    var dictionary := DictionaryList(s);
    DictionaryListKeyed(s);
    DictionaryListKeys(s);
    var equipped := Equip(cs, dictionary, name);
    EquippedKeepsExisting(cs, dictionary, name);
    var collection := dictionary;
    if clean {
      collection := Reject(Dictionary(dictionary), dictionary);
    }
    assert collection == Kept(s, clean);
    var keysToDelete;
    grown, keysToDelete := Push(equipped, name, collection);
    top := ExceptKeys(collection, keysToDelete);
    ExceptMovedIsTopLevel(collection);
  }

  /** One iteration of listsFlattened(): writing the listing of one more
      record extends the array written so far. */
  lemma {:induction false} FlattenStep(cs: Containers, name: string, column: string, indent: string,
                                       xs: seq<Item>, i: nat, level: nat, p: ParentString,
                                       flattened: seq<(nat, string)>, before: seq<(nat, string)>, after: seq<(nat, string)>)
    requires Nestable(cs, name) && i < |xs|
    requires before == PutAll(flattened, Listing(cs, name, column, indent, xs[..i], level, p))
    requires after == PutAll(before, Listing(cs, name, column, indent, [xs[i]], level, p))
    ensures after == PutAll(flattened, Listing(cs, name, column, indent, xs[..i + 1], level, p))
  {
    TakeSnoc(xs, i);
    ListingAppend(cs, name, column, indent, xs[..i], [xs[i]], level, p);
    PutAllAppend(flattened, Listing(cs, name, column, indent, xs[..i], level, p), Listing(cs, name, column, indent, [xs[i]], level, p));
  }

  /** The listing of a single record: its entry, then its subtree. */
  lemma {:induction false} ListingOne(cs: Containers, name: string, column: string, indent: string,
                                      x: Item, level: nat, p: ParentString)
    requires Nestable(cs, name)
    ensures var s := ItemString(p, indent, level, Column(x, column));
      Listing(cs, name, column, indent, [x], level, p)
      == [(x.id, s)] + Listing(cs, name, column, indent, Kids(cs, name, x.id), level + 1, Below(p, s))
  {
    assert [x][1..] == [];
    KidsBelow(cs, name, [x], 0);
  }

  /** One iteration of setParentsRecursive(): linking one more record and
      its subtree extends the links made so far. */
  lemma {:induction false} ParentsStep(cs: Containers, name: string, xs: seq<Item>, i: nat, path: seq<Item>,
                                       m: map<nat, nat>, before: map<nat, nat>, after: map<nat, nat>)
    requires Nestable(cs, name) && i < |xs|
    requires before == Link(m, Walk(cs, name, xs[..i], path))
    requires after == Link(before, Walk(cs, name, [xs[i]], path))
    ensures after == Link(m, Walk(cs, name, xs[..i + 1], path))
  {
    TakeSnoc(xs, i);
    WalkAppend(cs, name, xs[..i], [xs[i]], path);
    LinkAppend(m, Walk(cs, name, xs[..i], path), Walk(cs, name, [xs[i]], path));
  }

  /** Linking a single record: its own link, then its subtree's. */
  lemma {:induction false} LinkOne(cs: Containers, name: string, x: Item, path: seq<Item>,
                                   m: map<nat, nat>, linked: map<nat, nat>, after: map<nat, nat>)
    requires Nestable(cs, name)
    requires linked == if path == [] then m else m[x.id := path[|path| - 1].id]
    requires after == Link(linked, Walk(cs, name, Kids(cs, name, x.id), path + [x]))
    ensures after == Link(m, Walk(cs, name, [x], path))
  {
    var rest := Walk(cs, name, Kids(cs, name, x.id), path + [x]);
    assert [x][1..] == [];
    KidsBelow(cs, name, [x], 0);
    assert Walk(cs, name, [x], path) == [Visit(x, path)] + rest;
    assert ([Visit(x, path)] + rest)[1..] == rest;
  }

  class NestableCollection {
    /** The collection's records: the flat input, then the top level once
        nest() has run. */
    var items: seq<Item>
    /** Each record's children container, by record id and attribute name. */
    var containers: Containers
    /** The `parent` relation setParents() sets: child id to parent id. */
    var parents: map<nat, nat>
    var total: nat
    var removeItemsWithMissingAncestor: bool
    var indentChars: string
    var childrenName: string
    /** The records the collection was constructed with. */
    ghost const Origin: seq<Item>

    ghost function Pool(): map<nat, Item>
    {
      Dictionary(Origin)
    }

    /** The total is the number of records given at construction; the records
        are either that input or distinct records of its dictionary; and
        every container holds records of that dictionary under their parent. */
    ghost predicate Valid()
      reads this
    {
      && total == |Origin|
      && (items == Origin || (UniqueIds(items) && forall x :: x in items ==> x.id in Pool() && Pool()[x.id] == x))
      && Consistent(Pool(), containers)
    }

    constructor(input: seq<Item>)
      ensures items == input && Origin == input && total == |input|
      ensures containers == map[] && parents == map[]
      ensures removeItemsWithMissingAncestor && indentChars == "    " && childrenName == "items"
      ensures Valid()
    {
      items := input;
      Origin := input;
      total := |input|;
      containers := map[];
      parents := map[];
      removeItemsWithMissingAncestor := true;
      indentChars := "    ";
      childrenName := "items";
    }

    method ChildrenName(name: string) returns (self: NestableCollection)
      modifies this`childrenName
      ensures self == this && childrenName == name
      ensures old(Valid()) ==> Valid()
    {
      childrenName := name;
      self := this;
    }

    method SetIndent(chars: string) returns (self: NestableCollection)
      modifies this`indentChars
      ensures self == this && indentChars == chars
      ensures old(Valid()) ==> Valid()
    {
      indentChars := chars;
      self := this;
    }

    method NoCleaning() returns (self: NestableCollection)
      modifies this`removeItemsWithMissingAncestor
      ensures self == this && !removeItemsWithMissingAncestor
      ensures old(Valid()) ==> Valid()
    {
      removeItemsWithMissingAncestor := false;
      self := this;
    }

    function Total(): (n: nat)
      reads this
      requires Valid()
      ensures n == |Origin|
    {
      total
    }

    function GetTotal(): (n: nat)
      reads this
      requires Valid()
      ensures n == |Origin|
    {
      Total()
    }

    /** nest(): key the records by id, give each an empty children container,
        prune (when cleaning) the records with a missing ancestor, push every
        record whose parent is present into the parent's container and keep
        the others as the new top level. Cleaning recurses along parent ids,
        so it needs them acyclic. */
    method Nest() returns (self: NestableCollection)
      requires Valid()
      requires removeItemsWithMissingAncestor ==> Acyclic(Dictionary(items))
      modifies this`items, this`containers
      ensures self == this && Valid()
      ensures items == TopLevel(Kept(old(items), removeItemsWithMissingAncestor))
      ensures containers == Grown(Equipped(old(containers), DictionaryList(old(items)), childrenName),
                                  childrenName, Kept(old(items), removeItemsWithMissingAncestor))
      ensures Acyclic(Dictionary(Origin)) ==> Nestable(containers, childrenName)
    {
      var s, cs, name, clean := items, containers, childrenName, removeItemsWithMissingAncestor;
      ghost var P := Pool();
      NestInput(Origin, s);
      var top, grown := NestRecords(cs, s, name, clean);
      NestOutput(P, cs, DictionaryList(s), Kept(s, clean), name, top, grown);
      items, containers := top, grown;
      assert old(items) == s && old(containers) == cs && childrenName == name && removeItemsWithMissingAncestor == clean;
      self := this;
    }

    /** `$collection ?: $this`: only a missing collection falls back to the
        collection's own records (an empty collection object is truthy). */
    function Chosen(collection: Option<seq<Item>>): seq<Item>
      reads this
    {
      if collection.Some? then collection.value else items
    }

    /** `$indentChars ?: $this->indentChars`. */
    function Indent(chars: Option<string>): string
      reads this
    {
      if chars.Some? && Truthy(chars.value) then chars.value else indentChars
    }

    /** listsFlattened(): writes every record of the collection and, depth
        first, of its children containers into `flattened`, keyed by id. */
    method ListsFlattened(column: string, collection: Option<seq<Item>>, level: nat,
                          flattened: seq<(nat, string)>, chars: Option<string>, parentString: ParentString)
      returns (r: seq<(nat, string)>)
      requires Nestable(containers, childrenName)
      ensures r == PutAll(flattened, Listing(containers, childrenName, column, Indent(chars),
                                             Chosen(collection), level, parentString))
      decreases Bound(HeightsOf(containers, childrenName), Chosen(collection)), 1
    {
      var xs, indent, cs, name := Chosen(collection), Indent(chars), containers, childrenName;
      r := flattened;
      var i := 0;
      while i < |xs|
        invariant 0 <= i <= |xs|
        invariant r == PutAll(flattened, Listing(cs, name, column, indent, xs[..i], level, parentString))
      {
        ghost var before := r;
        BoundOne(HeightsOf(cs, name), xs, i);
        r := FlattenItem(column, xs[i], level, r, indent, parentString);
        FlattenStep(cs, name, column, indent, xs, i, level, parentString, flattened, before, r);
        i := i + 1;
      }
      TakeAll(xs);
    }

    /** The body of the loop of listsFlattened() for one record: its label is
        written under its id, then its children container, if it has one, is
        flattened one level deeper. */
    method FlattenItem(column: string, x: Item, level: nat, flattened: seq<(nat, string)>,
                       indent: string, parentString: ParentString)
      returns (r: seq<(nat, string)>)
      requires Nestable(containers, childrenName)
      requires Indent(Some(indent)) == indent
      ensures r == PutAll(flattened, Listing(containers, childrenName, column, indent, [x], level, parentString))
      decreases Bound(HeightsOf(containers, childrenName), [x]), 0
    {
      var itemString := ItemString(parentString, indent, level, Column(x, column));
      r := Put(flattened, x.id, itemString);
      ghost var sub := Listing(containers, childrenName, column, indent, Kids(containers, childrenName, x.id),
                               level + 1, Below(parentString, itemString));
      if (x.id, childrenName) in containers {
        var kids := containers[(x.id, childrenName)];
        KidsBelow(containers, childrenName, [x], 0);
        assert Chosen(Some(kids)) == kids;
        r := ListsFlattened(column, Some(kids), level + 1, r, Some(indent), Below(parentString, itemString));
      } else {
        assert sub == [];
      }
      ListingOne(containers, childrenName, column, indent, x, level, parentString);
    }

    /** listsFlattenedQualified(): listsFlattened() with `true` as the parent
        string. */
    method ListsFlattenedQualified(column: string, collection: Option<seq<Item>>, level: nat,
                                   flattened: seq<(nat, string)>, chars: Option<string>)
      returns (r: seq<(nat, string)>)
      requires Nestable(containers, childrenName)
      ensures r == PutAll(flattened, Listing(containers, childrenName, column, Indent(chars),
                                             Chosen(collection), level, True))
    {
      r := ListsFlattened(column, collection, level, flattened, chars, True);
    }

    /** setParents(): walks the forest from the top level and links every
        record below it to the record whose container holds it. */
    method SetParents() returns (self: NestableCollection)
      requires Nestable(containers, childrenName)
      modifies this`parents
      ensures self == this
      ensures parents == Link(old(parents), Walk(containers, childrenName, items, []))
    {
      SetParentsRecursive(items, [], None);
      self := this;
    }

    method SetParentsRecursive(xs: seq<Item>, ghost path: seq<Item>, parent: Option<Item>)
      requires Nestable(containers, childrenName)
      requires parent == if path == [] then None else Some(path[|path| - 1])
      modifies this`parents
      ensures parents == Link(old(parents), Walk(containers, childrenName, xs, path))
      decreases Bound(HeightsOf(containers, childrenName), xs), 1
    {
      var i := 0;
      while i < |xs|
        invariant 0 <= i <= |xs|
        invariant parents == Link(old(parents), Walk(containers, childrenName, xs[..i], path))
      {
        ghost var before := parents;
        BoundOne(HeightsOf(containers, childrenName), xs, i);
        SetParentOf(xs[i], path, parent);
        ParentsStep(containers, childrenName, xs, i, path, old(parents), before, parents);
        i := i + 1;
      }
      TakeAll(xs);
    }

    /** The body of the loop of setParentsRecursive() for one record: the
        record is linked to the parent it is listed under, if any, then its
        own children are linked to it. */
    method SetParentOf(x: Item, ghost path: seq<Item>, parent: Option<Item>)
      requires Nestable(containers, childrenName)
      requires parent == if path == [] then None else Some(path[|path| - 1])
      modifies this`parents
      ensures parents == Link(old(parents), Walk(containers, childrenName, [x], path))
      decreases Bound(HeightsOf(containers, childrenName), [x]), 0
    {
      if parent.Some? {
        parents := parents[x.id := parent.value.id];
      }
      ghost var linked := parents;
      KidsBelow(containers, childrenName, [x], 0);
      var kids := Kids(containers, childrenName, x.id);
      SetParentsRecursive(kids, path + [x], Some(x));
      LinkOne(containers, childrenName, x, path, old(parents), linked, parents);
    }
  }
}
