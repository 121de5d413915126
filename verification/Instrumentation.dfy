/** The registry of instrumented items as it runs: records linked from the root list, from
    their owners and from their types, updated in place. */
module Instrumentation {
  import opened UniqueList
  import opened ListenerMask
  import opened Ownership
  import opened ForestListing

  class Type {
    var items: seq<Item>
    var typeID: nat
    const watch: Listened

    /** A statically initialised record, not yet registered. */
    constructor ()
      ensures typeID == 0 && items == [] && fresh(watch) && watch.Valid() && watch.listeners == []
    {
      items, typeID := [], 0;
      watch := new Listened();
    }
  }

  class Item {
    var dispatch: Type?
    var owner: Item?
    var children: seq<Item>
    const watch: Listened

    constructor ()
      ensures dispatch == null && fresh(watch) && watch.Valid() && watch.listeners == []
    {
      dispatch, owner, children := null, null, [];
      watch := new Listened();
    }
  }

  /** The level of the registry's own messages. */
  const MINIMAL: Mask := {0}

  function Opt(x: Item?): Option<Item> {
    if x == null then None else var y: Item := x; Some(y)
  }

  class Registry {
    var roots: seq<Item>
    var types: seq<Type>
    var lastTypeID: nat
    ghost var live: set<Item>
    ghost var ranks: map<Item, nat>
    ghost var height: nat

    constructor ()
      ensures Valid() && live == {} && roots == [] && types == []
    {
      roots, types, lastTypeID, live, ranks, height := [], [], 0, {}, map[], 0;
    }

    /** What the records say. */
    ghost function Image(): Forest<Item, Type?>
      reads this, live, types
    {
      Forest(map x | x in live :: Opt(x.owner), map x | x in live :: x.children, roots,
             map x | x in live :: x.dispatch, map t: Type? | t in types :: t.items, ranks, height)
    }

    ghost predicate Valid()
      reads this, live, types
    {
      ValidForest(Image()) && Numbered()
    }

    ghost predicate Numbered()
      reads this`types, types`typeID
    {
      forall t :: t in types ==> t.typeID != 0
    }

    /** f is what the records say, field by field. */
    ghost predicate Shows(f: Forest<Item, Type?>)
      reads this, live, types
    {
      f.ranks == ranks && f.height == height && LinksShown(f) && StocksShown(f)
    }

    ghost predicate LinksShown(f: Forest<Item, Type?>)
      reads this`live, this`roots, live
    {
      && f.owners.Keys == f.lists.Keys == f.kinds.Keys == live && f.roots == roots
      && forall x :: x in live ==> f.owners[x] == Opt(x.owner) && f.lists[x] == x.children && f.kinds[x] == x.dispatch
    }

    ghost predicate StocksShown(f: Forest<Item, Type?>)
      reads this`types, types`items
    {
      && (forall t :: t in f.stocks ==> t != null && t in types)
      && (forall t :: t in types ==> t in f.stocks && t.items == f.stocks[t])
    }

    lemma ImageIs(f: Forest<Item, Type?>)
      requires Shows(f)
      ensures Image() == f
    {
      assert Image().stocks == f.stocks;
      assert Image().owners == f.owners && Image().lists == f.lists && Image().kinds == f.kinds;
    }

    lemma ImageShows()
      ensures Shows(Image())
    {}

    lemma ValidIs(f: Forest<Item, Type?>)
      requires Shows(f) && ValidForest(f) && Numbered()
      ensures Valid() && Image() == f
    {
      ImageIs(f);
    }

    // -------------------------------------------------------------- registration

    method AddType(dispatch: Type)
      requires Valid() && dispatch.typeID == 0 && dispatch.items == []
      modifies this`types, this`lastTypeID, dispatch`typeID
      ensures Valid() && Image() == WithType(old(Image()), dispatch)
      ensures types == [dispatch] + old(types) && dispatch.typeID == lastTypeID == old(lastTypeID) + 1
    {
      ghost var f := WithType(Image(), dispatch);
      TypeKeepsForest(Image(), dispatch);
      ImageShows();
      lastTypeID := lastTypeID + 1;
      dispatch.typeID := lastTypeID;
      types := [dispatch] + types;
      ValidIs(f);
    }

    /** Put an item on the root list and on the list of its type. */
    method Enter(item: Item, dispatch: Type)
      requires item !in live && dispatch in types
      modifies this`roots, this`live, this`ranks, this`height, item, dispatch`items
      ensures live == old(live) + {item} && ranks == old(ranks)[item := 0] && height == old(height) + 1
      ensures item.dispatch == dispatch && item.owner == null && item.children == []
      ensures roots == [item] + old(roots) && dispatch.items == [item] + old(dispatch.items)
    {
      item.dispatch, item.owner, item.children := dispatch, null, [];
      roots := [item] + roots;
      dispatch.items := [item] + dispatch.items;
      live, ranks, height := live + {item}, ranks[item := 0], height + 1;
    }

    /** The records after an item entered, from what they said before. */
    lemma EnteredShows(f: Forest<Item, Type?>, item: Item, dispatch: Type)
      requires f.owners.Keys == f.lists.Keys == f.kinds.Keys && item !in f.owners && dispatch in types && dispatch in f.stocks
      requires live == f.owners.Keys + {item} && ranks == f.ranks[item := 0] && height == f.height + 1 && roots == [item] + f.roots
      requires item.dispatch == dispatch && item.owner == null && item.children == [] && dispatch.items == [item] + f.stocks[dispatch]
      requires forall x :: x in f.owners ==> f.owners[x] == Opt(x.owner) && f.lists[x] == x.children && f.kinds[x] == x.dispatch
      requires forall t :: t in f.stocks ==> t != null && t in types
      requires forall t :: t in types ==> t in f.stocks && (t != dispatch ==> t.items == f.stocks[t])
      ensures Shows(WithItem(f, item, dispatch))
    {}

    method Link(item: Item, dispatch: Type)
      requires Valid() && item !in live && dispatch in types
      modifies this`roots, this`live, this`ranks, this`height, item, dispatch`items
      ensures Valid() && Image() == WithItem(old(Image()), item, dispatch)
    {
      ghost var f := Image();
      ImageShows();
      Enter(item, dispatch);
      EnteredShows(f, item, dispatch);
      ItemKeepsForest(f, item, dispatch);
      ValidIs(WithItem(f, item, dispatch));
    }

    /** Register an item, and its type too when this is the first of it. The listeners of
        the type hear of it, when the guard lets the message through. */
    method New(item: Item, dispatch: Type) returns (heard: seq<Listener>)
      requires Valid() && item !in live && (if dispatch.typeID == 0 then dispatch.items == [] else dispatch in types)
      requires dispatch.watch.Valid()
      modifies this, item, dispatch
      ensures Valid() && heard == Receivers(dispatch.watch.listeners, MINIMAL)
      ensures var f := old(Image());
              Image() == WithItem(if old(dispatch.typeID) == 0 then WithType(f, dispatch) else f, item, dispatch)
    {
      if dispatch.typeID == 0 {
        AddType(dispatch);
      }
      Link(item, dispatch);
      heard := dispatch.watch.SendGuarded(MINIMAL);
    }

    // -------------------------------------------------------------- ownership

    /** Move an item from the list it is on to the front of another. */
    method Relink(item: Item, owner: Item?)
      requires item in live && (item.owner != null ==> item.owner in live) && (owner != null ==> owner in live)
      modifies this`roots, live`children, item`owner
      ensures item.owner == owner && roots == MovedList(old(roots), item, old(item.owner) == null, owner == null)
      ensures forall x :: x in live ==>
                x.children == MovedList(old(x.children), item, old(Opt(item.owner)) == Some(x), Opt(owner) == Some(x))
    {
      if item.owner == null {
        roots := Without(roots, item);
      } else {
        item.owner.children := Without(item.owner.children, item);
      }
      item.owner := owner;
      if owner == null {
        roots := [item] + roots;
      } else {
        owner.children := [item] + owner.children;
      }
    }

    /** The records after an item was relinked, in terms of what they said before. */
    ghost predicate Relinked(f: Forest<Item, Type?>, item: Item, owner: Item?)
      reads this`live, this`roots, live
    {
      && item in f.owners && live == f.owners.Keys == f.lists.Keys == f.kinds.Keys
      && roots == MovedList(f.roots, item, f.owners[item] == None, owner == null)
      && (forall x :: x in live ==> Opt(x.owner) == if x == item then Opt(owner) else f.owners[x])
      && (forall x :: x in live ==> x.children == MovedList(f.lists[x], item, f.owners[item] == Some(x), Opt(owner) == Some(x)))
      && (forall x :: x in live ==> f.kinds[x] == x.dispatch)
    }

    /** Relink an item, and take over a new order of ranks. */
    method Rehang(item: Item, owner: Item?, ghost f: Forest<Item, Type?>, ghost r: map<Item, nat>, ghost h: nat)
      requires LinksShown(f) && StocksShown(f) && item in live && (item.owner != null ==> item.owner in live) && (owner != null ==> owner in live)
      modifies this`roots, this`ranks, this`height, live`children, item`owner
      ensures Relinked(f, item, owner) && StocksShown(f) && ranks == r && height == h
    {
      ranks, height := r, h;
      RelinkRecords(item, owner, f);
    }

    method RelinkRecords(item: Item, owner: Item?, ghost f: Forest<Item, Type?>)
      requires LinksShown(f) && item in live && (item.owner != null ==> item.owner in live) && (owner != null ==> owner in live)
      modifies this`roots, live`children, item`owner
      ensures Relinked(f, item, owner)
    {
      Relink(item, owner);
    }

    lemma RelinkedShows(f: Forest<Item, Type?>, item: Item, owner: Item?, g: Forest<Item, Type?>)
      requires ValidForest(f) && item in f.owners && (owner != null ==> owner in f.ranks)
      requires g == WithOwner(f, item, Opt(owner)) && Relinked(f, item, owner) && StocksShown(f) && ranks == g.ranks && height == g.height
      ensures Shows(g)
    {}

    /** What the new order of ranks is to be, and what the owners are known to be now. */
    lemma Plan(f: Forest<Item, Type?>, item: Item, owner: Item?) returns (g: Forest<Item, Type?>)
      requires Valid() && f == Image() && item in live && (owner != null ==> owner in live && !Beneath(f, owner, item))
      ensures item in f.owners && (owner != null ==> owner in f.ranks) && (item.owner != null ==> item.owner in live)
      ensures ValidForest(f) && Shows(f)
      ensures g == WithOwner(f, item, Opt(owner)) && ValidForest(g)
    {
      assert Owned(f, item) && Ranked(f, item);
      if owner != null { assert Ranked(f, owner); }
      g := WithOwner(f, item, Opt(owner));
      OwnerKeepsForest(f, item, Opt(owner));
    }

    method Reparent(item: Item, owner: Item?)
      requires Valid() && item in live && (owner != null ==> owner in live && !Beneath(Image(), owner, item))
      modifies this`roots, this`ranks, this`height, live`children, item`owner
      ensures owner != null ==> owner in old(Image()).ranks
      ensures Valid() && Image() == WithOwner(old(Image()), item, Opt(owner))
    {
      ghost var f := Image();
      ghost var g := Plan(f, item, owner);
      Move(item, owner, f, g);
    }

    /** Relink the item, so that the records show g in place of f. */
    method Move(item: Item, owner: Item?, ghost f: Forest<Item, Type?>, ghost g: Forest<Item, Type?>)
      requires Shows(f) && ValidForest(f) && ValidForest(g) && Numbered()
      requires item in f.owners && (owner != null ==> owner in f.ranks && owner in live)
      requires g == WithOwner(f, item, Opt(owner)) && item in live && (item.owner != null ==> item.owner in live)
      modifies this`roots, this`ranks, this`height, live`children, item`owner
      ensures Valid() && Image() == g
    {
      Rehang(item, owner, f, g.ranks, g.height);
      Reparented(f, item, owner, g);
    }

    lemma Reparented(f: Forest<Item, Type?>, item: Item, owner: Item?, g: Forest<Item, Type?>)
      requires ValidForest(f) && item in f.owners && (owner != null ==> owner in f.ranks)
      requires g == WithOwner(f, item, Opt(owner)) && Relinked(f, item, owner) && StocksShown(f) && ranks == g.ranks && height == g.height
      requires ValidForest(g) && Numbered()
      ensures Valid() && Image() == g
    {
      RelinkedShows(f, item, owner, g);
      ValidIs(g);
    }

    /** Give an item a new owner, or none, as long as the new owner is not the item itself
        or one of those below it. The listeners of the item hear of it. */
    method SetOwner(item: Item, owner: Item?) returns (heard: seq<Listener>)
      requires Valid() && item in live && item.watch.Valid()
      requires owner != null ==> owner in live && !Beneath(Image(), owner, item)
      modifies this`roots, this`ranks, this`height, live`children, item`owner
      ensures Valid() && heard == Receivers(item.watch.listeners, MINIMAL)
      ensures owner != null ==> owner in old(Image()).ranks
      ensures Image() == WithOwner(old(Image()), item, Opt(owner))
    {
      Reparent(item, owner);
      heard := item.watch.SendGuarded(MINIMAL);
    }

    // -------------------------------------------------------------- disposal

    /** Detach the children, first to last: each loses its owner and joins no other list. */
    method Orphan(item: Item, ghost among: set<Item>)
      requires item !in among && forall c :: c in item.children ==> c in among
      modifies among`owner, item`children
      ensures item.children == []
      ensures forall x :: x in among ==> x.owner == if x in old(item.children) then null else old(x.owner)
    {
      ghost var all, n := item.children, 0;
      while item.children != []
        invariant 0 <= n <= |all| && item.children == all[n..]
        invariant forall x :: x in among ==> x.owner == if x in all[..n] then null else old(x.owner)
        decreases |item.children|
      {
        assert all[..n + 1] == all[..n] + [item.children[0]];
        item.children[0].owner := null;
        item.children := item.children[1..];
        n := n + 1;
      }
      assert all[..n] == all;
    }

    /** Take an item off the list it is on and off the list of its type. */
    method Leave(item: Item, dispatch: Type, ghost among: set<Item>)
      requires item.owner != item && (item.owner != null ==> item.owner in among)
      modifies this`roots, among`children, dispatch`items
      ensures roots == if item.owner == null then Without(old(roots), item) else old(roots)
      ensures forall x :: x in among ==> x.children == if item.owner == x then Without(old(x.children), item) else old(x.children)
      ensures dispatch.items == Without(old(dispatch.items), item)
    {
      if item.owner == null {
        roots := Without(roots, item);
      } else {
        item.owner.children := Without(item.owner.children, item);
      }
      dispatch.items := Without(dispatch.items, item);
    }

    /** The records after an item left, in terms of what they said before. */
    ghost predicate Left(f: Forest<Item, Type?>, item: Item, dispatch: Type)
      reads this, live, types
    {
      && item in f.owners && live == f.owners.Keys - {item} && f.owners.Keys == f.lists.Keys == f.kinds.Keys
      && roots == (if f.owners[item] == None then Without(f.roots, item) else f.roots)
      && (forall x :: x in live ==> Opt(x.owner) == if f.owners[x] == Some(item) then None else f.owners[x])
      && (forall x :: x in live ==> x.children == if f.owners[item] == Some(x) then Without(f.lists[x], item) else f.lists[x])
      && (forall x :: x in live ==> f.kinds[x] == x.dispatch)
      && dispatch in f.stocks && (forall t :: t in f.stocks ==> t != null && t in types)
      && (forall t :: t in types ==> t in f.stocks && t.items == if t == dispatch then Without(f.stocks[t], item) else f.stocks[t])
      && ranks == (map x | x in f.ranks && x != item :: f.ranks[x]) && height == f.height
    }

    /** What is known of an item before it is disposed of. */
    lemma Familiar(item: Item) returns (f: Forest<Item, Type?>)
      requires Valid() && item in live
      ensures f == Image() && Shows(f) && ValidForest(f) && Typed(f, item)
      ensures item.dispatch in types && item.owner != item && (item.owner != null ==> item.owner in live)
      ensures forall x :: x in live ==> (x in item.children <==> f.owners[x] == Some(item))
      ensures forall c :: c in item.children ==> c in live && c != item
    {
      f := Image();
      assert Typed(f, item) && Owned(f, item) && Ranked(f, item);
      forall x | x in live
        ensures x in item.children <==> f.owners[x] == Some(item)
      {
        ListsExact(f, item, x);
      }
    }

    /** The records between the two halves: the children are detached, the lists as before. */
    ghost predicate Orphaned(f: Forest<Item, Type?>, item: Item)
      reads this, live, item
    {
      && item in f.owners && live == f.owners.Keys - {item} && f.owners.Keys == f.lists.Keys == f.kinds.Keys
      && Opt(item.owner) == f.owners[item] && item.owner != item && (item.owner != null ==> item.owner in live)
      && roots == f.roots && ranks == (map x | x in f.ranks && x != item :: f.ranks[x]) && height == f.height
      && (forall x :: x in live ==> Opt(x.owner) == if f.owners[x] == Some(item) then None else f.owners[x])
      && (forall x :: x in live ==> x.children == f.lists[x] && f.kinds[x] == x.dispatch)
    }

    method OrphanChildren(item: Item, ghost f: Forest<Item, Type?>)
      requires item in f.owners && live == f.owners.Keys - {item} && f.owners.Keys == f.lists.Keys == f.kinds.Keys
      requires roots == f.roots && ranks == (map x | x in f.ranks && x != item :: f.ranks[x]) && height == f.height
      requires item.owner != item && (item.owner != null ==> item.owner in live) && Opt(item.owner) == f.owners[item]
      requires forall x :: x in live ==> f.owners[x] == Opt(x.owner) && f.lists[x] == x.children && f.kinds[x] == x.dispatch
      requires forall x :: x in live ==> (x in item.children <==> f.owners[x] == Some(item))
      requires forall c :: c in item.children ==> c in live
      requires StocksShown(f)
      modifies live`owner, item`children
      ensures Orphaned(f, item) && StocksShown(f) && item.children == []
    {
      Orphan(item, live);
    }

    method Drop(item: Item, ghost f: Forest<Item, Type?>)
      requires StocksShown(f)
      modifies this`live, this`ranks
      ensures StocksShown(f)
      ensures live == old(live) - {item} && ranks == map x | x in old(ranks) && x != item :: old(ranks)[x]
    {
      live, ranks := live - {item}, map x | x in ranks && x != item :: ranks[x];
    }

    method Unlist(item: Item, ghost f: Forest<Item, Type?>, dispatch: Type)
      requires Orphaned(f, item) && StocksShown(f) && dispatch in types && Numbered()
      modifies this`roots, live`children, dispatch`items
      ensures Left(f, item, dispatch) && Numbered()
    {
      Leave(item, dispatch, live);
    }

    lemma Withdrawn(f: Forest<Item, Type?>, item: Item, dispatch: Type)
      requires ValidForest(f) && Typed(f, item) && f.kinds[item] == dispatch && Left(f, item, dispatch)
      requires Numbered()
      ensures Valid() && Image() == WithoutItem(f, item) && Forgotten(Image(), item)
    {
      DisposalKeepsForest(f, item);
      DisposalForgets(f, item, item);
      ValidIs(WithoutItem(f, item));
    }

    method Abandon(item: Item) returns (ghost f: Forest<Item, Type?>)
      requires Valid() && item in live
      modifies this`live, this`ranks, live`owner, item`children
      ensures f == old(Image()) && ValidForest(f) && Typed(f, item) && f.kinds[item] == item.dispatch && item.dispatch in types
      ensures Orphaned(f, item) && StocksShown(f) && item.children == [] && Numbered()
    {
      f := Familiar(item);
      Drop(item, f);
      OrphanChildren(item, f);
    }

    /** The body of the disposal, under the lock. */
    method Withdraw(item: Item, dispatch: Type)
      requires Valid() && item in live && item.dispatch == dispatch
      modifies this`roots, this`live, this`ranks, live`owner, live`children, dispatch`items
      ensures item in old(Image()).owners && Typed(old(Image()), item)
      ensures Valid() && Image() == WithoutItem(old(Image()), item) && Forgotten(Image(), item) && item.children == []
    {
      ghost var f := Abandon(item);
      Unlist(item, f, dispatch);
      Withdrawn(f, item, dispatch);
    }

    method DisposeLive(item: Item, dispatch: Type)
      requires Valid() && item in live && item.dispatch == dispatch && item.watch.Valid()
      modifies this`roots, this`live, this`ranks, live`owner, live`children, dispatch`items, item.watch
      ensures item in old(Image()).owners && Typed(old(Image()), item)
      ensures Valid() && Image() == WithoutItem(old(Image()), item) && Forgotten(Image(), item)
      ensures item.children == [] && item.watch.listeners == []
    {
      Withdraw(item, dispatch);
      item.watch.RemoveAll();
    }

    /** Dispose of an item, wherever it hangs; a null item or one that was never registered
        is left alone. Nothing in the registry refers to it afterwards, its children have
        no owner, and its listeners are gone. */
    method Dispose(item: Item?) returns (heard: seq<Listener>)
      requires Valid()
      requires item == null || item.dispatch == null || (item in live && item.watch.Valid() && item.dispatch.watch.Valid())
      modifies this`roots, this`live, this`ranks, live`owner, live`children
      modifies if item == null || item.dispatch == null then {} else {item.dispatch}
      modifies if item == null then {} else {item.watch}
      ensures Valid()
      ensures item == null || old(item.dispatch) == null ==> Image() == old(Image()) && heard == []
      ensures item != null && old(item.dispatch) != null ==>
                && heard == Receivers(old(item.dispatch.watch.listeners), MINIMAL)
                && item in old(Image()).owners && Typed(old(Image()), item)
                && Image() == WithoutItem(old(Image()), item) && Forgotten(Image(), item)
                && item.children == [] && item.watch.listeners == []
    {
      heard := [];
      if item != null {
        var dispatch := item.dispatch;
        if dispatch != null {
          heard := dispatch.watch.SendGuarded(MINIMAL);
          DisposeLive(item, dispatch);
        }
      }
    }

    // -------------------------------------------------------------- the dump

    /** Print an item and all below it, each indented by its level. */
    method DumpItem(item: Item, level: nat, log: Item?, ghost f: Forest<Item, Type?>) returns (lines: seq<Line<Item>>)
      requires Shows(f) && Known(f, item)
      ensures lines == Listing(f, item, level, Opt(log))
      decreases f.height - f.ranks[item], 0
    {
      if item == log {
        return [];
      }
      ChildrenAreSiblings(f, item);
      var below := DumpList(item.children, level + 1, log, f, Some(item), f.ranks[item] + 1);
      return [Line(item, level)] + below;
    }

    /** Print the items of a list, one after the other. */
    method DumpList(list: seq<Item>, level: nat, log: Item?, ghost f: Forest<Item, Type?>, ghost owner: Option<Item>, ghost floor: nat)
        returns (lines: seq<Line<Item>>)
      requires Shows(f) && Siblings(f, list, owner, floor)
      ensures lines == Listings(f, list, owner, floor, level, Opt(log))
      decreases f.height - floor, |list| + 1
    {
      lines := [];
      var i := 0;
      assert list[0..] == list;
      while i < |list|
        invariant i <= |list| && Siblings(f, list[i..], owner, floor)
        invariant lines + Listings(f, list[i..], owner, floor, level, Opt(log)) == Listings(f, list, owner, floor, level, Opt(log))
      {
        ghost var rest := list[i..];
        assert rest[0] == list[i] && rest[1..] == list[i + 1..];
        TailSiblings(f, rest, owner, floor);
        var next := DumpItem(list[i], level, log, f);
        DumpStep(f, rest, owner, floor, level, Opt(log), lines, next);
        lines := lines + next;
        i := i + 1;
      }
    }

    static lemma TailSiblings(f: Forest<Item, Type?>, rest: seq<Item>, owner: Option<Item>, floor: nat)
      requires Siblings(f, rest, owner, floor) && rest != []
      ensures Siblings(f, rest[1..], owner, floor) && rest[0] in rest && Known(f, rest[0])
    {}

    static lemma DumpStep(f: Forest<Item, Type?>, rest: seq<Item>, owner: Option<Item>, floor: nat, level: nat, log: Option<Item>,
                          lines: seq<Line<Item>>, next: seq<Line<Item>>)
      requires Siblings(f, rest, owner, floor) && rest != [] && Siblings(f, rest[1..], owner, floor)
      requires Known(f, rest[0]) && next == Listing(f, rest[0], level, log)
      ensures lines + next + Listings(f, rest[1..], owner, floor, level, log) == lines + Listings(f, rest, owner, floor, level, log)
    {
      JoinLines(lines, next, Listings(f, rest[1..], owner, floor, level, log));
    }

    static lemma JoinLines(a: seq<Line<Item>>, b: seq<Line<Item>>, c: seq<Line<Item>>)
      ensures a + (b + c) == a + b + c
    {}

    /** Print the whole registry: every item that hangs from a root, and only those, once
        each, indented by its depth. The item of the log file itself is left out. */
    method Dump(log: Item?) returns (lines: seq<Line<Item>>)
      requires Valid()
      ensures Siblings(Image(), roots, None, 0) && lines == Listings(Image(), roots, None, 0, 0, Opt(log)) && Distinct(lines)
      ensures forall y: Item, lv: nat :: Line(y, lv) in lines <==> exists r :: r in roots && ShownAt(Image(), y, r, Opt(log), lv)
    {
      ghost var f := Image();
      ImageShows();
      RootsAreSiblings(f);
      lines := DumpList(roots, 0, log, f, None, 0);
      forall y: Item, lv: nat
        ensures Line(y, lv) in lines <==> exists r :: r in roots && ShownAt(f, y, r, Opt(log), lv)
      {
        DumpExact(f, Opt(log), y, lv);
      }
      ListingsOnce(f, roots, None, 0, 0, Opt(log));
    }
  }
}
