/** Records as the nesting code sees them, and the id dictionary built from a flat list. */
module Records {

  datatype Option<T> = None | Some(value: T)

  /** One Eloquent record, reduced to what the collection reads: its `id`, its
      `parent_id` (0 stands for both null and 0, which PHP treats alike as "no
      parent") and its other attributes by name. */
  datatype Item = Item(id: nat, parent: nat, fields: map<string, string>)

  /** `$item->{$column}`: an attribute the record lacks reads as null, which
      concatenates as the empty string. */
  function Column(x: Item, column: string): string
  {
    if column in x.fields then x.fields[column] else ""
  }

  /** PHP truthiness of a string: "" and "0" are the only falsy strings. */
  predicate Truthy(s: string)
  {
    s != "" && s != "0"
  }

  function Ids(s: seq<Item>): set<nat>
  {
    set x | x in s :: x.id
  }

  /** The ids of the records of `s`, in order. */
  function IdsOf(s: seq<Item>): (r: seq<nat>)
    ensures |r| == |s|
    ensures forall i :: 0 <= i < |s| ==> r[i] == s[i].id
  {
    if s == [] then [] else IdsOf(s[..|s| - 1]) + [s[|s| - 1].id]
  }

  predicate UniqueIds(s: seq<Item>)
  {
    forall i, j :: 0 <= i < j < |s| ==> s[i].id != s[j].id
  }

  /** Every record's children containers, by record id and attribute name: the
      collection that `$item->{$childrenName}` holds. */
  type Containers = map<(nat, string), seq<Item>>

  /** `$item->{$name}` read as a list: a record without that attribute has no
      children. */
  function Kids(cs: Containers, name: string, id: nat): seq<Item>
  {
    if (id, name) in cs then cs[(id, name)] else []
  }

  /** A map from ids to records in which every record sits under its own id. */
  ghost predicate Keyed(d: map<nat, Item>)
  {
    forall k :: k in d ==> d[k].id == k
  }

  /** The records of `s` keyed by id (Eloquent's getDictionary): a later record
      overwrites an earlier one with the same id. */
  function Dictionary(s: seq<Item>): (d: map<nat, Item>)
    ensures d.Keys == Ids(s)
    ensures Keyed(d)
    ensures forall k :: k in d ==> d[k] in s
    ensures UniqueIds(s) ==> forall x :: x in s ==> x.id in d && d[x.id] == x
  {
    if s == [] then map[]
    else
      var init, last := s[..|s| - 1], s[|s| - 1];
      assert s == init + [last];
      assert UniqueIds(s) ==> UniqueIds(init) && last.id !in Ids(init);
      Dictionary(init)[last.id := last]
  }

  /** `$array[$x->id] = $x` on an array keyed by id: the entry with the same id
      is overwritten where it stands, otherwise `x` is appended. */
  function Assign(acc: seq<Item>, x: Item): seq<Item>
  {
    if acc == [] then [x]
    else if acc[0].id == x.id then [x] + acc[1..]
    else [acc[0]] + Assign(acc[1..], x)
  }

  lemma {:induction false} IdsCons(a: Item, rest: seq<Item>)
    ensures Ids([a] + rest) == {a.id} + Ids(rest)
  {
    assert forall y :: y in [a] + rest <==> y == a || y in rest;
  }

  lemma {:induction false} IdsSnoc(init: seq<Item>, a: Item)
    ensures Ids(init + [a]) == Ids(init) + {a.id}
  {
    assert forall y :: y in init + [a] <==> y == a || y in init;
  }

  lemma {:induction false} UniqueCons(a: Item, rest: seq<Item>)
    ensures UniqueIds([a] + rest) <==> a.id !in Ids(rest) && UniqueIds(rest)
  {
    var t := [a] + rest;
    if a.id !in Ids(rest) && UniqueIds(rest) {
      forall i, j | 0 <= i < j < |t| ensures t[i].id != t[j].id {
        assert t[j] == rest[j - 1];
        if i > 0 {
          assert t[i] == rest[i - 1];
        } else {
          assert rest[j - 1] in rest;
        }
      }
    }
    if UniqueIds(t) {
      forall i, j | 0 <= i < j < |rest| ensures rest[i].id != rest[j].id {
        assert t[i + 1] == rest[i] && t[j + 1] == rest[j];
      }
      forall y | y in rest ensures y.id != a.id {
        var j :| 0 <= j < |rest| && rest[j] == y;
        assert t[0] == a && t[j + 1] == y;
      }
    }
  }

  /** Assigning into an id-keyed array keeps one entry per id, holds `x`, keeps
      every entry with another id and appends when the id is new. */
  lemma {:induction false} AssignKeyed(acc: seq<Item>, x: Item)
    requires UniqueIds(acc)
    ensures UniqueIds(Assign(acc, x)) && x in Assign(acc, x)
    ensures Ids(Assign(acc, x)) == Ids(acc) + {x.id}
    ensures forall y :: y in Assign(acc, x) ==> y == x || (y in acc && y.id != x.id)
    ensures x.id !in Ids(acc) ==> Assign(acc, x) == acc + [x]
  {
    AssignIds(acc, x);
    AssignUnique(acc, x);
  }

  /** The ids after an assignment, and the append when the id is new. */
  lemma {:induction false} AssignIds(acc: seq<Item>, x: Item)
    ensures x in Assign(acc, x) && Ids(Assign(acc, x)) == Ids(acc) + {x.id}
    ensures x.id !in Ids(acc) ==> Assign(acc, x) == acc + [x]
  {
    if acc == [] {
      assert Assign(acc, x) == [x] == acc + [x];
      IdsCons(x, []);
    } else {
      var a, rest := acc[0], acc[1..];
      assert acc == [a] + rest;
      IdsCons(a, rest);
      if a.id == x.id {
        IdsCons(x, rest);
      } else {
        AssignIds(rest, x);
        IdsCons(a, Assign(rest, x));
        if x.id !in Ids(acc) {
          Associative([a], rest, [x]);
        }
      }
    }
  }

  /** An assignment into an array with distinct ids keeps them distinct and
      drops only the entry it replaces. */
  lemma {:induction false} AssignUnique(acc: seq<Item>, x: Item)
    requires UniqueIds(acc)
    ensures UniqueIds(Assign(acc, x))
    ensures forall y :: y in Assign(acc, x) ==> y == x || (y in acc && y.id != x.id)
  {
    if acc != [] {
      var a, rest := acc[0], acc[1..];
      assert acc == [a] + rest;
      UniqueCons(a, rest);
      if a.id == x.id {
        UniqueCons(x, rest);
        assert forall y :: y in rest ==> y.id in Ids(rest);
      } else {
        AssignUnique(rest, x);
        AssignIds(rest, x);
        UniqueCons(a, Assign(rest, x));
      }
    }
  }

  /** getDictionary() as the ordered array PHP builds: one entry per id, at the
      position where the id first occurs, holding the last record with that id. */
  function DictionaryList(s: seq<Item>): seq<Item>
  {
    if s == [] then [] else Assign(DictionaryList(s[..|s| - 1]), s[|s| - 1])
  }

  /** The ordered dictionary has one entry per id of the list, and each entry
      is the record the id-keyed map holds. */
  lemma {:induction false} DictionaryListKeyed(s: seq<Item>)
    ensures UniqueIds(DictionaryList(s)) && Ids(DictionaryList(s)) == Ids(s)
    ensures forall x :: x in DictionaryList(s) ==> x.id in Dictionary(s) && Dictionary(s)[x.id] == x
  {
    if s != [] {
      var init, last := s[..|s| - 1], s[|s| - 1];
      assert s == init + [last];
      DictionaryListKeyed(init);
      var l := DictionaryList(init);
      assert DictionaryList(s) == Assign(l, last);
      assert Dictionary(s) == Dictionary(init)[last.id := last];
      AssignKeyed(l, last);
      IdsSnoc(init, last);
      StoredAfterAssign(l, Dictionary(init), last);
    }
  }

  /** A list whose ids are already distinct is its own dictionary. */
  lemma {:induction false} DictionaryListOfUnique(s: seq<Item>)
    requires UniqueIds(s)
    ensures DictionaryList(s) == s
  {
    if s != [] {
      var init, last := s[..|s| - 1], s[|s| - 1];
      assert s == init + [last];
      assert UniqueIds(init) && last.id !in Ids(init);
      DictionaryListOfUnique(init);
      AssignKeyed(init, last);
    }
  }

  lemma {:induction false} StoredAfterAssign(l: seq<Item>, d: map<nat, Item>, x: Item)
    requires UniqueIds(l)
    requires forall y :: y in l ==> y.id in d && d[y.id] == y
    ensures forall y :: y in Assign(l, x) ==> y.id in d[x.id := x] && d[x.id := x][y.id] == y
  {
    AssignKeyed(l, x);
  }

  /** Keying the ordered dictionary again gives the same map. */
  lemma {:induction false} DictionaryListKeys(s: seq<Item>)
    ensures Dictionary(DictionaryList(s)) == Dictionary(s)
  {
    var r := DictionaryList(s);
    DictionaryListKeyed(s);
    var a, b := Dictionary(r), Dictionary(s);
    forall k | k in a ensures a[k] == b[k] {
      assert a[k] in r;
    }
  }

  /** The records of `s` that `keep` accepts, in their original order. */
  function Filter(s: seq<Item>, keep: Item -> bool): (r: seq<Item>)
    ensures forall x :: x in r <==> x in s && keep(x)
    ensures UniqueIds(s) ==> UniqueIds(r)
  {
    if s == [] then []
    else
      var init, last := s[..|s| - 1], s[|s| - 1];
      assert s == init + [last];
      assert UniqueIds(s) ==> UniqueIds(init) && last.id !in Ids(init);
      Filter(init, keep) + (if keep(last) then [last] else [])
  }

  /** A non-empty sequence is its head followed by its tail. */
  lemma {:induction false} HeadTail<T>(s: seq<T>)
    requires s != []
    ensures s == [s[0]] + s[1..]
  {
  }

  /** A whole-length prefix is the sequence itself. */
  lemma {:induction false} TakeAll<T>(s: seq<T>)
    ensures s[..|s|] == s
  {
  }

  /** A prefix one longer is the prefix followed by the next element. */
  lemma {:induction false} TakeSnoc<T>(s: seq<T>, i: nat)
    requires i < |s|
    ensures s[..i + 1] == s[..i] + [s[i]]
  {
  }

  lemma {:induction false} Associative<T>(x: seq<T>, y: seq<T>, z: seq<T>)
    ensures (x + y) + z == x + (y + z)
  {
  }

  lemma {:induction false} FilterAppend(a: seq<Item>, b: seq<Item>, keep: Item -> bool)
    ensures Filter(a + b, keep) == Filter(a, keep) + Filter(b, keep)
    decreases |b|
  {
    if b == [] {
      assert a + b == a;
    } else {
      var init, last := b[..|b| - 1], b[|b| - 1];
      var kept := if keep(last) then [last] else [];
      assert (a + b)[..|a + b| - 1] == a + init && (a + b)[|a + b| - 1] == last;
      assert Filter(a + b, keep) == Filter(a + init, keep) + kept;
      assert Filter(b, keep) == Filter(init, keep) + kept;
      FilterAppend(a, init, keep);
      Associative(Filter(a, keep), Filter(init, keep), kept);
    }
  }

  /** Filtering splits around a kept position. */
  lemma {:induction false} FilterSplit(S: seq<Item>, j: nat, f: Item -> bool)
    requires j < |S| && f(S[j])
    ensures Filter(S, f) == Filter(S[..j], f) + [S[j]] + Filter(S[j + 1..], f)
  {
    var left, right := S[..j], S[j + 1..];
    assert S == (left + [S[j]]) + right;
    FilterAppend(left + [S[j]], right, f);
    FilterAppend(left, [S[j]], f);
    FilterOne(S[j], f);
  }

  lemma {:induction false} FilterOne(y: Item, f: Item -> bool)
    ensures Filter([y], f) == if f(y) then [y] else []
  {
    assert [y][..0] == [];
  }

  /** Filtering with two tests that agree on every record of the list gives
      the same list. */
  lemma {:induction false} FilterCongruent(s: seq<Item>, f: Item -> bool, g: Item -> bool)
    requires forall x :: x in s ==> f(x) == g(x)
    ensures Filter(s, f) == Filter(s, g)
  {
    if s != [] {
      var init, last := s[..|s| - 1], s[|s| - 1];
      assert s == init + [last];
      assert f(last) == g(last);
      FilterCongruent(init, f, g);
    }
  }

  /** A test that accepts every record of the list leaves the list unchanged. */
  lemma {:induction false} FilterAll(s: seq<Item>, keep: Item -> bool)
    requires forall x :: x in s ==> keep(x)
    ensures Filter(s, keep) == s
  {
    if s != [] {
      var init, last := s[..|s| - 1], s[|s| - 1];
      assert s == init + [last];
      assert keep(last);
      FilterAll(init, keep);
    }
  }

  /** A test that accepts no record of the list leaves nothing. */
  lemma {:induction false} FilterNone(s: seq<Item>, keep: Item -> bool)
    requires forall x :: x in s ==> !keep(x)
    ensures Filter(s, keep) == []
  {
    if s != [] {
      var init, last := s[..|s| - 1], s[|s| - 1];
      assert s == init + [last];
      assert !keep(last);
      FilterNone(init, keep);
    }
  }

  /** A record occurs in the filtered list exactly as often as in the input when
      it is kept, and never otherwise. */
  lemma {:induction false} FilterCount(s: seq<Item>, keep: Item -> bool, x: Item)
    ensures multiset(Filter(s, keep))[x] == if keep(x) then multiset(s)[x] else 0
  {
    if s != [] {
      var init, last := s[..|s| - 1], s[|s| - 1];
      assert s == init + [last];
      FilterCount(init, keep, x);
    }
  }

  /** In a list with distinct ids every record occurs once. */
  lemma {:induction false} UniqueOccursOnce(s: seq<Item>, x: Item)
    requires UniqueIds(s) && x in s
    ensures multiset(s)[x] == 1
  {
    var init, last := s[..|s| - 1], s[|s| - 1];
    assert s == init + [last];
    assert UniqueIds(init);
    if x == last {
      assert x.id !in Ids(init);
      assert x !in init;
    } else {
      UniqueOccursOnce(init, x);
    }
  }

  /** The parent chains of `d` are acyclic: some rank strictly increases from
      every record's parent (when present in `d`) to the record. */
  ghost predicate RankedBy(d: map<nat, Item>, r: map<nat, nat>)
  {
    forall k :: k in d ==>
      k in r && (d[k].parent != 0 && d[k].parent in d ==> d[k].parent in r && r[d[k].parent] < r[k])
  }

  ghost predicate Acyclic(d: map<nat, Item>)
  {
    exists r :: RankedBy(d, r)
  }

  /** Any sub-dictionary of an acyclic dictionary is acyclic. */
  lemma {:induction false} AcyclicSub(d: map<nat, Item>, e: map<nat, Item>)
    requires Acyclic(d)
    requires forall k :: k in e ==> k in d && e[k] == d[k]
    ensures Acyclic(e)
  {
    var r :| RankedBy(d, r);
    assert RankedBy(e, r);
  }
}
