/** What `nest()` computes, stage by stage, stated on values: the survivors of
    pruning, the children each parent adopts, the top level that is left, and
    the containers before and after the forward pass. The loops that compute
    the stages are proved against these functions. */
module Nesting {
  import opened Records
  import opened Ancestry

  /** The reject() test: a record that has a parent and whose ancestor chain
      reaches a missing id. */
  predicate Rejected(d: map<nat, Item>, x: Item)
    requires Keyed(d) && Acyclic(d)
  {
    x.parent != 0 && AnAncestorIsMissing(d, x)
  }

  function NotRejected(d: map<nat, Item>): Item -> bool
    requires Keyed(d) && Acyclic(d)
  {
    x => !Rejected(d, x)
  }

  function Pruned(d: map<nat, Item>, s: seq<Item>): seq<Item>
    requires Keyed(d) && Acyclic(d)
  {
    Filter(s, NotRejected(d))
  }

  /** The collection the forward pass runs over: all records, or, when cleaning
      is on, those the reject() test keeps. */
  function Survivors(s: seq<Item>, clean: bool): seq<Item>
    requires clean ==> Acyclic(Dictionary(s))
  {
    if clean then Pruned(Dictionary(s), s) else s
  }

  /** The collection nest() runs its forward pass over when called on `s`:
      the records keyed by id (line 58), pruned when cleaning is on. */
  function Kept(s: seq<Item>, clean: bool): seq<Item>
    requires clean ==> Acyclic(Dictionary(s))
  {
    DictionaryListKeys(s);
    Survivors(DictionaryList(s), clean)
  }

  /** The forward pass moves a record when its parent id is truthy and present
      among `ids`. */
  predicate Moved(ids: set<nat>, x: Item)
  {
    x.parent != 0 && x.parent in ids
  }

  function IsMoved(ids: set<nat>): Item -> bool
  {
    x => Moved(ids, x)
  }

  function NotMoved(ids: set<nat>): Item -> bool
  {
    x => !Moved(ids, x)
  }

  function ChildOf(ids: set<nat>, p: nat): Item -> bool
  {
    (x: Item) => x.parent == p && Moved(ids, x)
  }

  /** The records the forward pass over `s` pushes into the container of `p`,
      when `ids` are the ids present in the collection. */
  function AdoptedBy(ids: set<nat>, s: seq<Item>, p: nat): seq<Item>
  {
    Filter(s, ChildOf(ids, p))
  }

  function Adopted(S: seq<Item>, p: nat): seq<Item>
  {
    AdoptedBy(Ids(S), S, p)
  }

  /** The records that are not moved: the new top level. */
  function TopLevel(S: seq<Item>): seq<Item>
  {
    Filter(S, NotMoved(Ids(S)))
  }

  /** `$keysToDelete`: the ids of the moved records, in the order of the pass. */
  function MovedIds(ids: set<nat>, s: seq<Item>): seq<nat>
  {
    IdsOf(Filter(s, IsMoved(ids)))
  }

  function NotListed(keys: seq<nat>): Item -> bool
  {
    (x: Item) => x.id !in keys
  }

  /** Arr::except followed by array_values: the records whose id is not listed. */
  function Except(s: seq<Item>, keys: seq<nat>): seq<Item>
  {
    Filter(s, NotListed(keys))
  }

  function Slots(s: seq<Item>, name: string): set<(nat, string)>
  {
    set x | x in s :: (x.id, name)
  }

  /** The containers after lines 63-67: each record of `s` gets an empty
      container under `name` unless it already has one. */
  function Equipped(cs: Containers, s: seq<Item>, name: string): Containers
  {
    map k | k in cs.Keys + Slots(s, name) :: Kids(cs, k.1, k.0)
  }

  /** The containers after the forward pass over `s`: every container under
      `name` is extended by the records it adopts. */
  function GrownBy(cs: Containers, name: string, ids: set<nat>, s: seq<Item>): Containers
  {
    map k | k in cs :: if k.1 == name then cs[k] + AdoptedBy(ids, s, k.0) else cs[k]
  }

  function Grown(cs: Containers, name: string, S: seq<Item>): Containers
  {
    GrownBy(cs, name, Ids(S), S)
  }

  // ---------------------------------------------------------------------------
  // The loops of nest()

  /** Lines 63-67. */
  method Equip(cs: Containers, s: seq<Item>, name: string) returns (r: Containers)
    ensures r == Equipped(cs, s, name)
  {
    r := cs;
    var i := 0;
    while i < |s|
      invariant 0 <= i <= |s|
      invariant r == Equipped(cs, s[..i], name)
    {
      ghost var r0 := r;
      if (s[i].id, name) !in r {
        r := r[(s[i].id, name) := []];
      }
      EquipStep(cs, s, name, i, r0, r);
      i := i + 1;
    }
    TakeAll(s);
  }

  lemma {:induction false} SlotsSnoc(s: seq<Item>, i: nat, name: string)
    requires i < |s|
    ensures Slots(s[..i + 1], name) == Slots(s[..i], name) + {(s[i].id, name)}
  {
    TakeSnoc(s, i);
    assert forall x :: x in s[..i + 1] <==> x in s[..i] || x == s[i];
  }

  /** One iteration of lines 63-67: the `i`-th record gets its empty
      container unless it has one. */
  lemma {:induction false} EquipStep(cs: Containers, s: seq<Item>, name: string, i: nat, r0: Containers, r1: Containers)
    requires i < |s| && r0 == Equipped(cs, s[..i], name)
    requires r1 == if (s[i].id, name) in r0 then r0 else r0[(s[i].id, name) := []]
    ensures r1 == Equipped(cs, s[..i + 1], name)
  {
    var key := (s[i].id, name);
    SlotsSnoc(s, i, name);
    var r2 := Equipped(cs, s[..i + 1], name);
    assert r1.Keys == r2.Keys;
    forall k | k in r1 ensures r1[k] == r2[k] {
      if k != key || key in r0 {
        assert r1[k] == r0[k] == Kids(cs, k.1, k.0);
      }
    }
  }

  /** Lines 70-78. */
  method Reject(d: map<nat, Item>, s: seq<Item>) returns (kept: seq<Item>)
    requires Keyed(d) && Acyclic(d)
    ensures kept == Pruned(d, s)
  {
    kept := [];
    var i := 0;
    while i < |s|
      invariant 0 <= i <= |s|
      invariant kept == Pruned(d, s[..i])
    {
      assert s[..i + 1][..i] == s[..i];
      if !(s[i].parent != 0 && AnAncestorIsMissing(d, s[i])) {
        kept := kept + [s[i]];
      }
      i := i + 1;
    }
    TakeAll(s);
  }

  lemma {:induction false} GrownByNone(cs: Containers, name: string, ids: set<nat>)
    ensures GrownBy(cs, name, ids, []) == cs
  {
    var g := GrownBy(cs, name, ids, []);
    forall k | k in cs ensures g[k] == cs[k] {
      assert AdoptedBy(ids, [], k.0) == [];
    }
  }

  /** One step of the forward pass: a moved record lands at the end of its
      parent's container and nowhere else. */
  lemma {:induction false} AdoptedStep(ids: set<nat>, s: seq<Item>, x: Item, p: nat)
    ensures AdoptedBy(ids, s + [x], p) == AdoptedBy(ids, s, p) + (if ChildOf(ids, p)(x) then [x] else [])
  {
    assert (s + [x])[..|s + [x]| - 1] == s;
  }

  lemma {:induction false} GrownByPointwise(cs: Containers, name: string, ids: set<nat>, s: seq<Item>, x: Item)
    ensures var g, g' := GrownBy(cs, name, ids, s), GrownBy(cs, name, ids, s + [x]);
      forall k :: k in cs ==>
        g'[k] == if Moved(ids, x) && k == (x.parent, name) then g[k] + [x] else g[k]
  {
    forall k | k in cs {
      GrownByAt(cs, name, ids, s, x, k);
    }
  }

  lemma {:induction false} GrownByAt(cs: Containers, name: string, ids: set<nat>, s: seq<Item>, x: Item, k: (nat, string))
    requires k in cs
    ensures var g, g' := GrownBy(cs, name, ids, s), GrownBy(cs, name, ids, s + [x]);
      g'[k] == if Moved(ids, x) && k == (x.parent, name) then g[k] + [x] else g[k]
  {
    var g, g' := GrownBy(cs, name, ids, s), GrownBy(cs, name, ids, s + [x]);
    var before, after := AdoptedBy(ids, s, k.0), AdoptedBy(ids, s + [x], k.0);
    AdoptedStep(ids, s, x, k.0);
    if k.1 == name {
      assert g[k] == cs[k] + before && g'[k] == cs[k] + after;
      if ChildOf(ids, k.0)(x) {
        Associative(cs[k], before, [x]);
      } else {
        assert after == before + [];
      }
    }
  }

  /** Two containers maps with the same keys that agree everywhere except
      that one container is extended. */
  lemma {:induction false} ExtendedAt(g: Containers, g': Containers, key: (nat, string), extra: seq<Item>, hit: bool)
    requires hit ==> key in g
    requires forall k :: k in g' <==> k in g
    requires forall k :: k in g ==> g'[k] == if hit && k == key then g[k] + extra else g[k]
    ensures g' == if hit then g[key := g[key] + extra] else g
  {
  }

  lemma {:induction false} GrownByStep(cs: Containers, name: string, ids: set<nat>, s: seq<Item>, x: Item)
    requires Moved(ids, x) ==> (x.parent, name) in cs
    ensures var g := GrownBy(cs, name, ids, s);
      GrownBy(cs, name, ids, s + [x])
      == if Moved(ids, x) then g[(x.parent, name) := g[(x.parent, name)] + [x]] else g
  {
    GrownByPointwise(cs, name, ids, s, x);
    ExtendedAt(GrownBy(cs, name, ids, s), GrownBy(cs, name, ids, s + [x]), (x.parent, name), [x], Moved(ids, x));
  }

  lemma {:induction false} MovedIdsStep(ids: set<nat>, s: seq<Item>, x: Item)
    ensures MovedIds(ids, s + [x]) == MovedIds(ids, s) + (if Moved(ids, x) then [x.id] else [])
  {
    assert (s + [x])[..|s + [x]| - 1] == s;
    var f := Filter(s, IsMoved(ids));
    if Moved(ids, x) {
      assert Filter(s + [x], IsMoved(ids)) == f + [x];
      assert (f + [x])[..|f + [x]| - 1] == f;
    } else {
      assert Filter(s + [x], IsMoved(ids)) == f;
    }
  }

  /** Every record of `S` has a container under `name`. */
  predicate Slotted(cs: Containers, name: string, S: seq<Item>)
  {
    forall x :: x in S ==> (x.id, name) in cs
  }

  /** Before step `i` of the forward pass, a record about to be moved finds
      its parent's container. */
  lemma {:induction false} PushSlot(cs: Containers, name: string, S: seq<Item>, i: nat)
    requires i < |S|
    requires forall x :: x in S ==> (x.id, name) in cs
    ensures Moved(Ids(S), S[i]) ==> (S[i].parent, name) in GrownBy(cs, name, Ids(S), S[..i])
  {
    if Moved(Ids(S), S[i]) {
      var y :| y in S && y.id == S[i].parent;
      assert (S[i].parent, name) in cs;
    }
  }

  /** Step `i` of the forward pass takes the containers and the deleted keys
      over the first `i` records to those over the first `i + 1`. */
  lemma {:induction false} PushStep(cs: Containers, name: string, S: seq<Item>, i: nat,
                                    r0: Containers, k0: seq<nat>, r1: Containers, k1: seq<nat>)
    requires i < |S|
    requires forall x :: x in S ==> (x.id, name) in cs
    requires r0 == GrownBy(cs, name, Ids(S), S[..i]) && k0 == MovedIds(Ids(S), S[..i])
    requires Moved(Ids(S), S[i]) ==> (S[i].parent, name) in r0
    requires r1 == if Moved(Ids(S), S[i]) then r0[(S[i].parent, name) := r0[(S[i].parent, name)] + [S[i]]] else r0
    requires k1 == if Moved(Ids(S), S[i]) then k0 + [S[i].id] else k0
    ensures r1 == GrownBy(cs, name, Ids(S), S[..i + 1]) && k1 == MovedIds(Ids(S), S[..i + 1])
  {
    var x := S[i];
    TakeSnoc(S, i);
    PushSlot(cs, name, S, i);
    GrownByStep(cs, name, Ids(S), S[..i], x);
    MovedIdsStep(Ids(S), S[..i], x);
  }

  lemma {:induction false} PushStart(cs: Containers, name: string, S: seq<Item>)
    ensures GrownBy(cs, name, Ids(S), S[..0]) == cs
    ensures MovedIds(Ids(S), S[..0]) == []
  {
    assert S[..0] == [];
    GrownByNone(cs, name, Ids(S));
    assert Filter([], IsMoved(Ids(S))) == [];
  }

  /** Lines 81-86: the forward pass over the collection `S`. A moved record is
      pushed onto its parent's container and its id is recorded. */
  method Push(cs: Containers, name: string, S: seq<Item>) returns (r: Containers, keysToDelete: seq<nat>)
    requires Slotted(cs, name, S)
    ensures r == Grown(cs, name, S)
    ensures keysToDelete == MovedIds(Ids(S), S)
  {
    // The keys of the id-keyed collection: what isset() looks up.
    var present := Ids(S);
    r, keysToDelete := cs, [];
    var i := 0;
    PushStart(cs, name, S);
    while i < |S|
      invariant 0 <= i <= |S|
      invariant r == GrownBy(cs, name, present, S[..i])
      invariant keysToDelete == MovedIds(present, S[..i])
    {
      r, keysToDelete := PushOne(cs, name, S, present, i, r, keysToDelete);
      i := i + 1;
    }
    TakeAll(S);
  }

  /** The body of the forward pass for the `i`-th record: a record whose
      parent id is truthy and present is appended to its parent's container
      and its id joins the keys to delete. */
  method PushOne(cs: Containers, name: string, S: seq<Item>, present: set<nat>, i: nat,
                 r: Containers, keysToDelete: seq<nat>)
    returns (r': Containers, keysToDelete': seq<nat>)
    requires i < |S| && present == Ids(S)
    requires Slotted(cs, name, S)
    requires r == GrownBy(cs, name, present, S[..i]) && keysToDelete == MovedIds(present, S[..i])
    ensures r' == GrownBy(cs, name, present, S[..i + 1]) && keysToDelete' == MovedIds(present, S[..i + 1])
  {
    var x := S[i];
    PushSlot(cs, name, S, i);
    r', keysToDelete' := r, keysToDelete;
    if x.parent != 0 && x.parent in present {
      r' := r[(x.parent, name) := r[(x.parent, name)] + [x]];
      keysToDelete' := keysToDelete + [x.id];
    }
    PushStep(cs, name, S, i, r, keysToDelete, r', keysToDelete');
  }

  /** Line 89. */
  method ExceptKeys(S: seq<Item>, keys: seq<nat>) returns (top: seq<Item>)
    ensures top == Except(S, keys)
  {
    top := [];
    var i := 0;
    while i < |S|
      invariant 0 <= i <= |S|
      invariant top == Except(S[..i], keys)
    {
      assert S[..i + 1][..i] == S[..i];
      if S[i].id !in keys {
        top := top + [S[i]];
      }
      i := i + 1;
    }
    TakeAll(S);
  }
  // ---------------------------------------------------------------------------
  // What nest() promises

  /** Two records of a list with distinct ids that share an id are the same. */
  lemma {:induction false} SameIdSameRecord(S: seq<Item>, x: Item, y: Item)
    requires UniqueIds(S) && x in S && y in S && x.id == y.id
    ensures x == y
  {
    var i :| 0 <= i < |S| && S[i] == x;
    var j :| 0 <= j < |S| && S[j] == y;
    assert i == j;
  }

  /** Removing the recorded keys (line 89) leaves exactly the records the pass
      did not move. */
  lemma {:induction false} ExceptMovedIsTopLevel(S: seq<Item>)
    requires UniqueIds(S)
    ensures Except(S, MovedIds(Ids(S), S)) == TopLevel(S)
  {
    var keys, moved := MovedIds(Ids(S), S), Filter(S, IsMoved(Ids(S)));
    forall x | x in S ensures NotListed(keys)(x) == NotMoved(Ids(S))(x) {
      if x.id in keys {
        var i :| 0 <= i < |keys| && keys[i] == x.id;
        assert moved[i] in S && Moved(Ids(S), moved[i]);
        SameIdSameRecord(S, x, moved[i]);
      }
      if Moved(Ids(S), x) {
        assert x in moved;
        var i :| 0 <= i < |moved| && moved[i] == x;
        assert keys[i] == x.id;
      }
    }
    FilterCongruent(S, NotListed(keys), NotMoved(Ids(S)));
  }

  /** Lines 63-67: every record ends up with a container under `name`, a
      container that was already there keeps its contents, and the only
      containers added are empty ones under `name` for records of `s`. */
  lemma {:induction false} EquippedKeepsExisting(cs: Containers, s: seq<Item>, name: string)
    ensures forall x :: x in s ==> (x.id, name) in Equipped(cs, s, name)
    ensures forall k :: k in cs ==> k in Equipped(cs, s, name) && Equipped(cs, s, name)[k] == cs[k]
    ensures forall k :: k in Equipped(cs, s, name) && k !in cs ==>
              Equipped(cs, s, name)[k] == [] && exists x :: x in s && k == (x.id, name)
  {
  }

  /** With cleaning on, a record whose ancestor chain breaks is pruned, and so
      is every record below it: none of them is left at the top level or
      pushed into any container. */
  lemma {:induction false} PrunedSubtreeNeverSurfaces(s: seq<Item>, x: Item, n: nat, y: Item)
    requires Acyclic(Dictionary(s))
    requires Ancestor(Dictionary(s), x, n) == Some(y)
    requires Rejected(Dictionary(s), y)
    ensures x !in Survivors(s, true)
    ensures x !in TopLevel(Survivors(s, true))
    ensures forall p :: x !in Adopted(Survivors(s, true), p)
  {
    var d := Dictionary(s);
    MissingAncestorInherited(d, x, n, y);
    assert x.parent != 0;
    assert Rejected(d, x);
  }

  /** With cleaning on, every record left at the top level is a true root:
      no orphan surfaces in place of a pruned ancestor. */
  lemma {:induction false} CleanTopLevelAreRoots(s: seq<Item>)
    requires Acyclic(Dictionary(s))
    ensures forall x :: x in TopLevel(Survivors(s, true)) ==> x.parent == 0
  {
    var d, S := Dictionary(s), Survivors(s, true);
    forall x | x in TopLevel(S) ensures x.parent == 0 {
      assert x in S && !Rejected(d, x);
    }
  }

  /** Every record the pass runs over is placed exactly once: either at the
      top level or in its own parent's container, and in no other container. */
  lemma {:induction false} SurvivorPlacedOnce(S: seq<Item>, x: Item)
    requires UniqueIds(S) && x in S
    ensures multiset(TopLevel(S))[x] + multiset(Adopted(S, x.parent))[x] == 1
    ensures forall p :: p != x.parent ==> x !in Adopted(S, p)
  {
    FilterCount(S, NotMoved(Ids(S)), x);
    FilterCount(S, ChildOf(Ids(S), x.parent), x);
    UniqueOccursOnce(S, x);
  }

  /** After noCleaning(), every input record appears exactly once in the
      forest, and an orphan stays at the top level. */
  lemma {:induction false} NoCleaningKeepsEveryRecord(s: seq<Item>, x: Item)
    requires UniqueIds(s) && x in s
    ensures Survivors(s, false) == s
    ensures multiset(TopLevel(s))[x] + multiset(Adopted(s, x.parent))[x] == 1
    ensures forall p :: p != x.parent ==> x !in Adopted(s, p)
    ensures x.parent != 0 && x.parent !in Ids(s) ==> x in TopLevel(s)
  {
    SurvivorPlacedOnce(s, x);
  }

  /** A record has a truthy parent present in the collection exactly when it
      sits in that parent's container and not at the top level. */
  lemma {:induction false} PlacementIff(S: seq<Item>, x: Item)
    requires x in S
    ensures Moved(Ids(S), x) <==> x in Adopted(S, x.parent) && x !in TopLevel(S)
  {
  }

  /** A parent's children keep the order in which the pass met them, whether
      the parent comes before or after them in the input. */
  lemma {:induction false} ChildrenInInputOrder(S: seq<Item>, p: nat, i: nat, j: nat)
    requires i < j < |S|
    requires S[i] in Adopted(S, p) && S[j] in Adopted(S, p)
    ensures exists a, b :: 0 <= a < b < |Adopted(S, p)| && Adopted(S, p)[a] == S[i] && Adopted(S, p)[b] == S[j]
  {
    var f := ChildOf(Ids(S), p);
    var B := Adopted(S, p);
    assert B == Filter(S, f);
    assert f(S[i]) && f(S[j]);
    FilterSplit(S, j, f);
    var A, C := Filter(S[..j], f), Filter(S[j + 1..], f);
    assert B == A + [S[j]] + C;
    assert S[i] == S[..j][i];
    var a :| 0 <= a < |A| && A[a] == S[i];
    var AS := A + [S[j]];
    assert B == AS + C && |AS| == |A| + 1;
    assert AS[a] == S[i] && AS[|A|] == S[j];
    assert B[a] == AS[a] && B[|A|] == AS[|A|];
  }

  /** nest() is idempotent: nesting its top level again prunes nothing, moves
      nothing and leaves the top level as it is. */
  lemma {:induction false} NestIdempotent(s: seq<Item>, clean: bool)
    requires UniqueIds(s)
    requires clean ==> Acyclic(Dictionary(s))
    ensures var T := TopLevel(Survivors(s, clean));
      && (clean ==> Acyclic(Dictionary(T)))
      && Survivors(T, clean) == T
      && TopLevel(T) == T
      && forall p :: Adopted(T, p) == []
  {
    var S := Survivors(s, clean);
    var T := TopLevel(S);
    assert forall x :: x in T ==> x in S && x in s;
    forall x | x in T ensures !Moved(Ids(T), x) {
      assert !Moved(Ids(S), x);
    }
    FilterAll(T, NotMoved(Ids(T)));
    forall p ensures Adopted(T, p) == [] {
      FilterNone(T, ChildOf(Ids(T), p));
    }
    if clean {
      var d, e := Dictionary(s), Dictionary(T);
      forall k | k in e ensures k in d && e[k] == d[k] {
        assert e[k] in s;
      }
      AcyclicSub(d, e);
      CleanTopLevelAreRoots(s);
      FilterAll(T, NotRejected(e));
    }
  }
}
