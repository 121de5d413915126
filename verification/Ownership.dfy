/** The state of the registry of instrumented items, as a value: a forest of ownership, the
    root list, and the items of each type; and what registration, a change of owner and
    disposal make of it. */
module Ownership {
  import opened UniqueList

  datatype Option<T> = None | Some(value: T)

  /** Items and types are known by their addresses. Ranks order owners before what they own. */
  datatype Forest<I(==), T(==)> = Forest(
    owners: map<I, Option<I>>, lists: map<I, seq<I>>, roots: seq<I>,
    kinds: map<I, T>, stocks: map<T, seq<I>>,
    ranks: map<I, nat>, height: nat)

  // ---------------------------------------------------------------- the invariant

  /** x owns exactly the items on its list, and is on the list of its owner. */
  ghost predicate Owned<I, T>(f: Forest<I, T>, x: I) {
    && x in f.owners && x in f.lists && Distinct(f.lists[x])
    && (forall c :: c in f.lists[x] ==> c in f.owners && f.owners[c] == Some(x))
    && (f.owners[x].Some? ==> f.owners[x].value in f.lists && x in f.lists[f.owners[x].value])
  }

  ghost predicate Ranked<I, T>(f: Forest<I, T>, x: I) {
    && x in f.owners && x in f.ranks && f.ranks[x] < f.height
    && (f.owners[x].Some? ==>
          var y := f.owners[x].value;
          y in f.owners && y in f.ranks && f.ranks[y] < f.ranks[x])
  }

  /** x is on the list of its type. */
  ghost predicate Typed<I, T>(f: Forest<I, T>, x: I) {
    x in f.kinds && f.kinds[x] in f.stocks && x in f.stocks[f.kinds[x]]
  }

  /** The list of t holds items of that type only, each once. */
  ghost predicate Stocked<I, T>(f: Forest<I, T>, t: T) {
    t in f.stocks && Distinct(f.stocks[t]) && forall x :: x in f.stocks[t] ==> x in f.kinds && f.kinds[x] == t
  }

  /** Roots have no owner; an item without an owner need not be a root. */
  ghost predicate Rooted<I, T>(f: Forest<I, T>) {
    Distinct(f.roots) && forall x :: x in f.roots ==> x in f.owners && f.owners[x] == None
  }

  ghost predicate ValidForest<I, T>(f: Forest<I, T>) {
    && Rooted(f) && f.owners.Keys == f.lists.Keys == f.kinds.Keys
    && (forall x {:trigger Owned(f, x)} :: x in f.owners ==> Owned(f, x))
    && (forall x {:trigger Ranked(f, x)} :: x in f.owners ==> Ranked(f, x))
    && (forall x {:trigger Typed(f, x)} :: x in f.owners ==> Typed(f, x))
    && (forall t {:trigger Stocked(f, t)} :: t in f.stocks ==> Stocked(f, t))
  }

  /** The lists of children are exact: an item is on the list of its owner and on no other. */
  lemma ListsExact<I, T>(f: Forest<I, T>, x: I, c: I)
    requires ValidForest(f) && x in f.owners && c in f.owners
    ensures x in f.lists && (c in f.lists[x] <==> f.owners[c] == Some(x))
  {
    assert Owned(f, x) && Owned(f, c);
  }

  /** Every item is on the list of its own type, once, and on no other type's. */
  lemma OneTypeList<I, T>(f: Forest<I, T>, x: I, t: T)
    requires ValidForest(f) && x in f.owners && t in f.stocks
    ensures x in f.kinds && Distinct(f.stocks[t]) && (x in f.stocks[t] <==> f.kinds[x] == t)
  {
    assert Typed(f, x) && Stocked(f, t);
  }

  // ---------------------------------------------------------------- registration

  function WithType<I, T>(f: Forest<I, T>, t: T): Forest<I, T> {
    f.(stocks := f.stocks[t := []])
  }

  /** A new item is a root and the first of its type; it owns nothing. */
  function WithItem<I, T>(f: Forest<I, T>, item: I, t: T): Forest<I, T>
    requires t in f.stocks
  {
    Forest(f.owners[item := None], f.lists[item := []], [item] + f.roots,
           f.kinds[item := t], f.stocks[t := [item] + f.stocks[t]], f.ranks[item := 0], f.height + 1)
  }

  lemma TypeKeepsForest<I, T>(f: Forest<I, T>, t: T)
    requires ValidForest(f) && t !in f.stocks
    ensures ValidForest(WithType(f, t))
  {
    var g := WithType(f, t);
    forall x | x in g.owners
      ensures Owned(g, x) && Ranked(g, x) && Typed(g, x)
    {
      assert Owned(f, x) && Ranked(f, x) && Typed(f, x);
    }
    forall u | u in g.stocks
      ensures Stocked(g, u)
    {
      if u != t { assert Stocked(f, u); }
    }
  }

  lemma ItemKeepsForest<I, T>(f: Forest<I, T>, item: I, t: T)
    requires ValidForest(f) && item !in f.owners && t in f.stocks
    ensures ValidForest(WithItem(f, item, t))
  {
    var g := WithItem(f, item, t);
    PrependMembers(f.roots, item);
    assert Stocked(f, t);
    PrependMembers(f.stocks[t], item);
    forall x | x in g.owners
      ensures Owned(g, x) && Ranked(g, x) && Typed(g, x)
    {
      if x != item { assert Owned(f, x) && Ranked(f, x) && Typed(f, x); }
    }
    forall u | u in g.stocks
      ensures Stocked(g, u)
    {
      assert Stocked(f, u);
    }
  }

  // ---------------------------------------------------------------- a change of owner

  /** x is top, or one of those that own x, one through the other, is. */
  ghost predicate Below<I, T>(f: Forest<I, T>, x: I, top: I)
    requires forall y {:trigger Ranked(f, y)} :: y in f.owners ==> Ranked(f, y)
    requires x in f.owners && Ranked(f, x)
    decreases f.ranks[x]
  {
    x == top || (f.owners[x].Some? && Below(f, f.owners[x].value, top))
  }

  ghost predicate Beneath<I, T>(f: Forest<I, T>, x: I, top: I)
    requires ValidForest(f)
  {
    x in f.owners && Ranked(f, x) && Below(f, x, top)
  }

  /** A list after item moved: taken off it, put at its front, or both, or neither. */
  function MovedList<I(==)>(s: seq<I>, item: I, from: bool, into: bool): seq<I> {
    var t := if from then Without(s, item) else s;
    if into then [item] + t else t
  }

  lemma MovedMembers<I>(s: seq<I>, item: I, from: bool, into: bool)
    requires Distinct(s) && (!from ==> item !in s)
    ensures var r := MovedList(s, item, from, into);
            && Distinct(r) && (forall y :: y in r ==> (y in s && y != item) || (into && y == item))
            && (forall y :: y in s && y != item ==> y in r) && (into ==> item in r)
  {
    if from {
      WithoutMembers(s, item);
    }
    if into {
      PrependMembers(if from then Without(s, item) else s, item);
    }
  }

  function Raised(r: nat, moves: bool, shift: nat): nat { if moves then r + shift else r }

  /** Item hangs from another owner, or from none; only the two lists change. What moves
      is ranked below the new owner. */
  ghost function WithOwner<I, T>(f: Forest<I, T>, item: I, owner: Option<I>): Forest<I, T>
    requires ValidForest(f) && item in f.owners && (owner.Some? ==> owner.value in f.ranks)
  {
    var shift := if owner.Some? then f.ranks[owner.value] + 1 else 0;
    Forest(f.owners[item := owner],
           map x | x in f.lists :: MovedList(f.lists[x], item, f.owners[item] == Some(x), owner == Some(x)),
           MovedList(f.roots, item, f.owners[item] == None, owner == None),
           f.kinds, f.stocks,
           map x | x in f.owners && Ranked(f, x) :: Raised(f.ranks[x], Below(f, x, item), shift),
           f.height + shift)
  }

  lemma MovedOwned<I, T>(f: Forest<I, T>, item: I, owner: Option<I>, x: I)
    requires ValidForest(f) && item in f.owners && (owner.Some? ==> owner.value in f.owners && owner.value in f.ranks)
    requires x in f.owners
    ensures Owned(WithOwner(f, item, owner), x)
  {
    var g := WithOwner(f, item, owner);
    MovedOnto(f, item, owner, x);
    forall c | c in g.lists[x]
      ensures c in g.owners && g.owners[c] == Some(x)
    {
      assert Owned(f, x);
    }
    if g.owners[x].Some? {
      assert Owned(f, x);
      MovedOnto(f, item, owner, g.owners[x].value);
    }
  }

  /** What is on the list of y after the move. */
  lemma MovedOnto<I, T>(f: Forest<I, T>, item: I, owner: Option<I>, y: I)
    requires ValidForest(f) && item in f.owners && (owner.Some? ==> owner.value in f.owners && owner.value in f.ranks)
    requires y in f.owners
    ensures var g := WithOwner(f, item, owner);
            && y in f.lists && y in g.lists && Distinct(g.lists[y])
            && (forall c :: c in g.lists[y] ==> (c in f.lists[y] && c != item) || (owner == Some(y) && c == item))
            && (forall c :: c in f.lists[y] && c != item ==> c in g.lists[y]) && (owner == Some(y) ==> item in g.lists[y])
  {
    assert Owned(f, y);
    MovedMembers(f.lists[y], item, f.owners[item] == Some(y), owner == Some(y));
  }

  /** Giving an item an owner that is not below it keeps the forest a forest. */
  lemma OwnerKeepsForest<I, T>(f: Forest<I, T>, item: I, owner: Option<I>)
    requires ValidForest(f) && item in f.owners
    requires owner.Some? ==> owner.value in f.owners && owner.value in f.ranks && !Beneath(f, owner.value, item)
    ensures ValidForest(WithOwner(f, item, owner))
  {
    var g := WithOwner(f, item, owner);
    assert owner.Some? ==> Ranked(f, owner.value);
    MovedMembers(f.roots, item, f.owners[item] == None, owner == None);
    forall x | x in g.owners
      ensures Ranked(g, x)
    {
      MovedRanked(f, item, owner, x);
    }
    forall x | x in g.owners
      ensures Owned(g, x)
    {
      MovedOwned(f, item, owner, x);
    }
    SameStocks(f, g);
  }

  lemma SameStocks<I, T>(f: Forest<I, T>, g: Forest<I, T>)
    requires ValidForest(f) && g.kinds == f.kinds && g.stocks == f.stocks
    ensures forall x {:trigger Typed(g, x)} :: x in f.owners ==> Typed(g, x)
    ensures forall t {:trigger Stocked(g, t)} :: t in g.stocks ==> Stocked(g, t)
  {
    forall x | x in f.owners
      ensures Typed(g, x)
    {
      assert Typed(f, x);
    }
    forall t | t in g.stocks
      ensures Stocked(g, t)
    {
      assert Stocked(f, t);
    }
  }

  lemma MovedRanked<I, T>(f: Forest<I, T>, item: I, owner: Option<I>, x: I)
    requires ValidForest(f) && item in f.owners && x in f.owners
    requires owner.Some? ==> owner.value in f.owners && Ranked(f, owner.value) && !Below(f, owner.value, item)
    ensures Ranked(WithOwner(f, item, owner), x)
  {
    assert Ranked(f, x);
    if x != item && f.owners[x].Some? {
      assert Ranked(f, f.owners[x].value);
      assert Below(f, x, item) == Below(f, f.owners[x].value, item);
    }
  }

  /** And the condition is exact: hung from itself or from something below it, the item is
      part of a cycle, which no order of ranks allows. */
  lemma CycleIsNoForest<I, T>(f: Forest<I, T>, item: I, owner: I, ranks: map<I, nat>, height: nat)
    requires ValidForest(f) && item in f.owners && owner in f.ranks && Beneath(f, owner, item)
    ensures !ValidForest(WithOwner(f, item, Some(owner)).(ranks := ranks, height := height))
  {
    var g := WithOwner(f, item, Some(owner)).(ranks := ranks, height := height);
    if ValidForest(g) {
      NoCycle(f, g, owner, item);
    }
  }

  lemma NoCycle<I, T>(f: Forest<I, T>, g: Forest<I, T>, owner: I, item: I)
    requires ValidForest(f) && ValidForest(g) && Beneath(f, owner, item) && item in g.owners
    requires forall y :: y in f.owners && y != item ==> y in g.owners && g.owners[y] == f.owners[y]
    ensures g.owners[item] != Some(owner)
  {
    ChainRank(f, g, owner, item);
    assert Ranked(g, item);
  }

  lemma {:induction false} ChainRank<I, T>(f: Forest<I, T>, g: Forest<I, T>, x: I, item: I)
    requires ValidForest(f) && ValidForest(g) && Beneath(f, x, item) && item in g.owners
    requires forall y :: y in f.owners && y != item ==> y in g.owners && g.owners[y] == f.owners[y]
    ensures x in g.ranks && item in g.ranks && g.ranks[item] <= g.ranks[x]
    decreases f.ranks[x]
  {
    assert Ranked(g, item);
    if x != item {
      assert Ranked(f, f.owners[x].value) && Ranked(g, x);
      ChainRank(f, g, f.owners[x].value, item);
    }
  }

  // ---------------------------------------------------------------- disposal

  /** The item is gone; what it owned has no owner and joins no list. */
  function WithoutItem<I, T>(f: Forest<I, T>, item: I): Forest<I, T>
    requires item in f.owners && item in f.kinds && f.kinds[item] in f.stocks
  {
    Forest(map x | x in f.owners && x != item :: if f.owners[x] == Some(item) then None else f.owners[x],
           map x | x in f.lists && x != item :: if f.owners[item] == Some(x) then Without(f.lists[x], item) else f.lists[x],
           if f.owners[item] == None then Without(f.roots, item) else f.roots,
           map x | x in f.kinds && x != item :: f.kinds[x],
           f.stocks[f.kinds[item] := Without(f.stocks[f.kinds[item]], item)],
           map x | x in f.ranks && x != item :: f.ranks[x],
           f.height)
  }

  /** What is on the list of y after the disposal. */
  lemma DisposedFrom<I, T>(f: Forest<I, T>, item: I, y: I)
    requires ValidForest(f) && item in f.owners && Typed(f, item) && y in f.owners && y != item
    ensures var g := WithoutItem(f, item);
            && y in f.lists && y in g.lists && Distinct(g.lists[y])
            && (forall c :: c in g.lists[y] ==> c in f.lists[y] && c != item)
            && (forall c :: c in f.lists[y] && c != item ==> c in g.lists[y])
  {
    assert Owned(f, y);
    WithoutMembers(f.lists[y], item);
  }

  lemma DisposalOwned<I, T>(f: Forest<I, T>, item: I, x: I)
    requires ValidForest(f) && item in f.owners && Typed(f, item) && x in f.owners && x != item
    ensures Owned(WithoutItem(f, item), x)
  {
    var g := WithoutItem(f, item);
    DisposedFrom(f, item, x);
    forall c | c in g.lists[x]
      ensures c in g.owners && g.owners[c] == Some(x)
    {
      assert Owned(f, x);
    }
    if g.owners[x].Some? {
      assert Owned(f, x);
      DisposedFrom(f, item, g.owners[x].value);
    }
  }

  lemma DisposalTyped<I, T>(f: Forest<I, T>, item: I, x: I)
    requires ValidForest(f) && item in f.owners && Typed(f, item) && x in f.owners && x != item
    ensures Ranked(WithoutItem(f, item), x) && Typed(WithoutItem(f, item), x)
  {
    assert Ranked(f, x) && Typed(f, x) && Stocked(f, f.kinds[item]);
    WithoutMembers(f.stocks[f.kinds[item]], item);
  }

  lemma DisposalStocked<I, T>(f: Forest<I, T>, item: I, t: T)
    requires ValidForest(f) && item in f.owners && Typed(f, item) && t in f.stocks
    ensures Stocked(WithoutItem(f, item), t) && item !in WithoutItem(f, item).stocks[t]
  {
    var g := WithoutItem(f, item);
    assert Stocked(f, t);
    WithoutMembers(f.stocks[t], item);
  }

  lemma DisposalRooted<I, T>(f: Forest<I, T>, item: I)
    requires ValidForest(f) && item in f.owners && Typed(f, item)
    ensures Rooted(WithoutItem(f, item)) && forall x :: x in WithoutItem(f, item).roots ==> x in f.roots && x != item
  {
    WithoutMembers(f.roots, item);
  }

  /** Disposal keeps the forest. */
  lemma DisposalKeepsForest<I, T>(f: Forest<I, T>, item: I)
    requires ValidForest(f) && item in f.owners
    ensures Typed(f, item) && ValidForest(WithoutItem(f, item))
  {
    assert Typed(f, item);
    var g := WithoutItem(f, item);
    DisposalRooted(f, item);
    forall x | x in g.owners
      ensures Owned(g, x)
    {
      DisposalOwned(f, item, x);
    }
    forall x | x in g.owners
      ensures Ranked(g, x) && Typed(g, x)
    {
      DisposalTyped(f, item, x);
    }
    forall t | t in g.stocks
      ensures Stocked(g, t)
    {
      DisposalStocked(f, item, t);
    }
  }

  /** Nothing in the forest mentions the item. */
  ghost predicate Forgotten<I, T>(f: Forest<I, T>, item: I) {
    && item !in f.owners && item !in f.roots
    && (forall x :: x in f.owners ==> f.owners[x] != Some(item))
    && (forall x :: x in f.lists ==> item !in f.lists[x])
    && (forall t :: t in f.stocks ==> item !in f.stocks[t])
  }

  /** After a disposal no item left refers to the one that is gone, and the items that it
      owned have no owner and are on no list of owned items, not even the roots. */
  lemma DisposalForgets<I, T>(f: Forest<I, T>, item: I, c: I)
    requires ValidForest(f) && item in f.owners && Typed(f, item)
    ensures Forgotten(WithoutItem(f, item), item)
    ensures var g := WithoutItem(f, item);
            c in f.owners && f.owners[c] == Some(item) ==>
              c in g.owners && g.owners[c] == None && c !in g.roots && forall x :: x in g.lists ==> c !in g.lists[x]
  {
    var g := WithoutItem(f, item);
    DisposalRooted(f, item);
    forall x | x in g.lists
      ensures item !in g.lists[x] && (c in f.owners && f.owners[c] == Some(item) ==> c !in g.lists[x])
    {
      DisposedFrom(f, item, x);
      assert Owned(f, x);
    }
    forall t | t in g.stocks
      ensures item !in g.stocks[t]
    {
      DisposalStocked(f, item, t);
    }
    if c in f.owners {
      assert Ranked(f, c);
    }
  }
}
