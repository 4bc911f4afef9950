/** The ancestor-chain check that decides which records `nest()` prunes. */
module Ancestry {
  import opened Records

  ghost function RankOf(d: map<nat, Item>): (r: map<nat, nat>)
    requires Acyclic(d)
    ensures RankedBy(d, r)
  {
    var r :| RankedBy(d, r); r
  }

  /** Whether `x` is the record stored under its own id in `d`. */
  predicate Stored(d: map<nat, Item>, x: Item)
  {
    x.id in d && d[x.id] == x
  }

  ghost function Rank(d: map<nat, Item>, x: Item): nat
    requires Acyclic(d)
  {
    if Stored(d, x) then RankOf(d)[x.id] else 0
  }

  /** anAncestorIsMissing: follow `parent_id` through the dictionary until a
      record has no parent (false) or names an id the dictionary lacks (true). */
  function AnAncestorIsMissing(d: map<nat, Item>, x: Item): bool
    requires Keyed(d) && Acyclic(d)
    decreases if Stored(d, x) then 0 else 1, Rank(d, x)
  {
    if x.parent == 0 then false
    else if x.parent !in d then true
    else AnAncestorIsMissing(d, d[x.parent])
  }

  /** The n-th ancestor of `x` through `d`, or None when the chain stops earlier
      (at a record without parent, or at an id `d` lacks). */
  function Ancestor(d: map<nat, Item>, x: Item, n: nat): Option<Item>
    decreases n
  {
    if n == 0 then Some(x)
    else if x.parent != 0 && x.parent in d then Ancestor(d, d[x.parent], n - 1)
    else None
  }

  /** The chain from `x` reaches, after n steps, a record whose parent id is
      not in `d`. */
  predicate BreaksAt(d: map<nat, Item>, x: Item, n: nat)
  {
    match Ancestor(d, x, n)
    case Some(a) => a.parent != 0 && a.parent !in d
    case None => false
  }

  /** The check answers true exactly when the ancestor chain reaches an absent
      id before it reaches a root. */
  lemma {:induction false} MissingAncestorIff(d: map<nat, Item>, x: Item)
    requires Keyed(d) && Acyclic(d)
    ensures AnAncestorIsMissing(d, x) <==> exists n :: BreaksAt(d, x, n)
  {
    if AnAncestorIsMissing(d, x) {
      var n := BreakingStep(d, x);
    } else {
      forall n | BreaksAt(d, x, n) ensures false {
        BreakImpliesMissing(d, x, n);
      }
    }
  }

  lemma {:induction false} BreakingStep(d: map<nat, Item>, x: Item) returns (n: nat)
    requires Keyed(d) && Acyclic(d)
    requires AnAncestorIsMissing(d, x)
    ensures BreaksAt(d, x, n)
    decreases if Stored(d, x) then 0 else 1, Rank(d, x)
  {
    if x.parent !in d {
      n := 0;
    } else {
      var m := BreakingStep(d, d[x.parent]);
      n := m + 1;
      assert Ancestor(d, x, n) == Ancestor(d, d[x.parent], m);
    }
  }

  lemma {:induction false} BreakImpliesMissing(d: map<nat, Item>, x: Item, n: nat)
    requires Keyed(d) && Acyclic(d)
    requires BreaksAt(d, x, n)
    ensures AnAncestorIsMissing(d, x)
    decreases n
  {
    if n > 0 {
      assert x.parent != 0 && x.parent in d;
      assert Ancestor(d, x, n) == Ancestor(d, d[x.parent], n - 1);
      BreakImpliesMissing(d, d[x.parent], n - 1);
    }
  }

  /** A record inherits a missing ancestor from any of its ancestors: if the
      chain of the n-th ancestor breaks, so does the record's own chain. */
  lemma {:induction false} MissingAncestorInherited(d: map<nat, Item>, x: Item, n: nat, y: Item)
    requires Keyed(d) && Acyclic(d)
    requires Ancestor(d, x, n) == Some(y)
    requires AnAncestorIsMissing(d, y)
    ensures AnAncestorIsMissing(d, x)
    decreases n
  {
    if n > 0 {
      MissingAncestorInherited(d, d[x.parent], n - 1, y);
    }
  }
}
