/** The recursive listing of the instrumented items: it ends, and shows every item that
    hangs from the listed ones exactly once, at its depth. */
module ForestListing {
  import opened UniqueList
  import opened Ownership

  /** A line of the listing: an item and how far it is indented. */
  datatype Line<I> = Line(item: I, level: nat)

  ghost predicate Known<I, T>(f: Forest<I, T>, x: I) {
    ValidForest(f) && x in f.owners && Owned(f, x) && Ranked(f, x)
  }

  /** The items of cs have the same owner, and ranks from floor on. */
  ghost predicate Siblings<I, T>(f: Forest<I, T>, cs: seq<I>, owner: Option<I>, floor: nat) {
    && ValidForest(f) && Distinct(cs) && floor <= f.height
    && forall c :: c in cs ==> Known(f, c) && f.owners[c] == owner && floor <= f.ranks[c]
  }

  lemma ChildrenAreSiblings<I, T>(f: Forest<I, T>, x: I)
    requires Known(f, x)
    ensures Siblings(f, f.lists[x], Some(x), f.ranks[x] + 1)
  {
    forall c | c in f.lists[x]
      ensures Known(f, c) && f.owners[c] == Some(x) && f.ranks[x] + 1 <= f.ranks[c]
    {
      assert Owned(f, c) && Ranked(f, c);
    }
  }

  lemma RootsAreSiblings<I, T>(f: Forest<I, T>)
    requires ValidForest(f)
    ensures Siblings(f, f.roots, None, 0)
  {
    forall c | c in f.roots
      ensures Known(f, c)
    {
      assert Owned(f, c) && Ranked(f, c);
    }
  }

  /** The lines for x and all below it; the item of the log file itself is left out. */
  ghost function Listing<I, T>(f: Forest<I, T>, x: I, level: nat, log: Option<I>): seq<Line<I>>
    requires Known(f, x)
    decreases f.height - f.ranks[x], 0
  {
    ChildrenAreSiblings(f, x);
    if log == Some(x) then []
    else [Line(x, level)] + Listings(f, f.lists[x], Some(x), f.ranks[x] + 1, level + 1, log)
  }

  ghost function Listings<I, T>(f: Forest<I, T>, cs: seq<I>, owner: Option<I>, floor: nat, level: nat, log: Option<I>): seq<Line<I>>
    requires Siblings(f, cs, owner, floor)
    decreases f.height - floor, |cs|
  {
    if cs == [] then []
    else Listing(f, cs[0], level, log) + Listings(f, cs[1..], owner, floor, level, log)
  }

  // ---------------------------------------------------------------- what a listing shows

  /** x is top or hangs from it, and the log file's item is not between them. */
  ghost predicate Shown<I, T>(f: Forest<I, T>, x: I, top: I, log: Option<I>)
    requires Known(f, x)
    decreases f.ranks[x]
  {
    && log != Some(x)
    && (x == top || (f.owners[x].Some? && (OwnerKnown(f, x); Shown(f, f.owners[x].value, top, log))))
  }

  lemma OwnerKnown<I, T>(f: Forest<I, T>, x: I)
    requires Known(f, x) && f.owners[x].Some?
    ensures Known(f, f.owners[x].value) && f.ranks[f.owners[x].value] < f.ranks[x]
  {
    assert Owned(f, f.owners[x].value) && Ranked(f, f.owners[x].value);
  }

  ghost function Depth<I, T>(f: Forest<I, T>, x: I, top: I, log: Option<I>): nat
    requires Known(f, x) && Shown(f, x, top, log)
    decreases f.ranks[x]
  {
    if x == top then 0 else OwnerKnown(f, x); 1 + Depth(f, f.owners[x].value, top, log)
  }

  ghost predicate ShownAt<I, T>(f: Forest<I, T>, x: I, top: I, log: Option<I>, depth: int) {
    x in f.owners && Known(f, x) && Shown(f, x, top, log) && depth == Depth(f, x, top, log)
  }

  lemma {:induction false} RankOfShown<I, T>(f: Forest<I, T>, x: I, top: I, log: Option<I>)
    requires Known(f, x) && Known(f, top) && Shown(f, x, top, log)
    ensures x == top || f.ranks[top] < f.ranks[x]
    decreases f.ranks[x]
  {
    if x != top {
      OwnerKnown(f, x);
      RankOfShown(f, f.owners[x].value, top, log);
    }
  }

  /** From below a child to below its owner. */
  lemma {:induction false} OneHigher<I, T>(f: Forest<I, T>, y: I, c: I, x: I, log: Option<I>)
    requires Known(f, y) && Known(f, c) && Known(f, x) && f.owners[c] == Some(x) && log != Some(x) && Shown(f, y, c, log)
    ensures y != x && Shown(f, y, x, log) && Depth(f, y, x, log) == Depth(f, y, c, log) + 1
    decreases f.ranks[y]
  {
    RankOfShown(f, y, c, log);
    OwnerKnown(f, c);
    if y != c {
      OwnerKnown(f, y);
      OneHigher(f, f.owners[y].value, c, x, log);
    }
  }

  /** From below an item to below one of its children. */
  lemma {:induction false} OneLower<I, T>(f: Forest<I, T>, y: I, x: I, log: Option<I>) returns (c: I)
    requires Known(f, y) && Known(f, x) && y != x && Shown(f, y, x, log)
    ensures c in f.lists[x] && Known(f, c) && f.owners[c] == Some(x) && Shown(f, y, c, log)
    decreases f.ranks[y]
  {
    OwnerKnown(f, y);
    var o := f.owners[y].value;
    if o == x {
      c := y;
    } else {
      c := OneLower(f, o, x, log);
      RankOfShown(f, o, c, log);
    }
  }

  /** No item hangs from two siblings. */
  lemma {:induction false} OneSibling<I, T>(f: Forest<I, T>, y: I, a: I, b: I, log: Option<I>)
    requires Known(f, y) && Known(f, a) && Known(f, b) && f.owners[a] == f.owners[b]
    requires Shown(f, y, a, log) && Shown(f, y, b, log)
    ensures a == b
    decreases f.ranks[y]
  {
    if y == a {
      NotAboveItself(f, a, b, log);
    } else if y == b {
      NotAboveItself(f, b, a, log);
    } else {
      OwnerKnown(f, y);
      OneSibling(f, f.owners[y].value, a, b, log);
    }
  }

  lemma NotAboveItself<I, T>(f: Forest<I, T>, a: I, b: I, log: Option<I>)
    requires Known(f, a) && Known(f, b) && f.owners[a] == f.owners[b] && Shown(f, a, b, log)
    ensures a == b
  {
    if a != b {
      OwnerKnown(f, a);
      RankOfShown(f, f.owners[a].value, b, log);
      OwnerKnown(f, b);
    }
  }

  /** The listing of x shows an item exactly when it hangs from x, at its depth. */
  lemma {:induction false} ListingExact<I, T>(f: Forest<I, T>, x: I, level: nat, log: Option<I>, y: I, lv: nat)
    requires Known(f, x)
    ensures Line(y, lv) in Listing(f, x, level, log) <==> ShownAt(f, y, x, log, lv - level)
    decreases f.height - f.ranks[x], 0
  {
    ChildrenAreSiblings(f, x);
    if log != Some(x) {
      ListingsExact(f, f.lists[x], Some(x), f.ranks[x] + 1, level + 1, log, y, lv);
      if ShownAt(f, y, x, log, lv - level) && y != x {
        var c := OneLower(f, y, x, log);
        OneHigher(f, y, c, x, log);
      }
      forall c | c in f.lists[x] && ShownAt(f, y, c, log, lv - level - 1)
        ensures ShownAt(f, y, x, log, lv - level)
      {
        OneHigher(f, y, c, x, log);
      }
    } else if ShownAt(f, y, x, log, lv - level) {
      LogHides(f, y, x, log);
    }
  }

  lemma {:induction false} LogHides<I, T>(f: Forest<I, T>, y: I, x: I, log: Option<I>)
    requires Known(f, y) && Shown(f, y, x, log)
    ensures log != Some(x)
    decreases f.ranks[y]
  {
    if y != x {
      OwnerKnown(f, y);
      LogHides(f, f.owners[y].value, x, log);
    }
  }

  lemma {:induction false} ListingsExact<I, T>(f: Forest<I, T>, cs: seq<I>, owner: Option<I>, floor: nat, level: nat, log: Option<I>, y: I, lv: nat)
    requires Siblings(f, cs, owner, floor)
    ensures Line(y, lv) in Listings(f, cs, owner, floor, level, log) <==>
            exists c :: c in cs && ShownAt(f, y, c, log, lv - level)
    decreases f.height - floor, |cs|
  {
    if cs != [] {
      ListingExact(f, cs[0], level, log, y, lv);
      ListingsExact(f, cs[1..], owner, floor, level, log, y, lv);
      assert forall c :: c in cs[1..] ==> c in cs;
      forall c | c in cs && ShownAt(f, y, c, log, lv - level)
        ensures Line(y, lv) in Listings(f, cs, owner, floor, level, log)
      {
        if c != cs[0] { assert c in cs[1..]; }
      }
      if ShownAt(f, y, cs[0], log, lv - level) { assert cs[0] in cs; }
    }
  }

  lemma DistinctJoin<A>(a: seq<A>, b: seq<A>)
    requires Distinct(a) && Distinct(b) && forall x :: x in a ==> x !in b
    ensures Distinct(a + b)
  {
    var c := a + b;
    forall i, j | 0 <= i < j < |c|
      ensures c[i] != c[j]
    {
      if i < |a| <= j {
        assert c[i] in a && c[j] in b;
      }
    }
  }

  lemma {:induction false} ListingOnce<I, T>(f: Forest<I, T>, x: I, level: nat, log: Option<I>)
    requires Known(f, x)
    ensures Distinct(Listing(f, x, level, log))
    decreases f.height - f.ranks[x], 0
  {
    ChildrenAreSiblings(f, x);
    if log != Some(x) {
      var below := Listings(f, f.lists[x], Some(x), f.ranks[x] + 1, level + 1, log);
      ListingsOnce(f, f.lists[x], Some(x), f.ranks[x] + 1, level + 1, log);
      HeadNotBelow(f, x, level, log);
      DistinctJoin([Line(x, level)], below);
    }
  }

  lemma HeadNotBelow<I, T>(f: Forest<I, T>, x: I, level: nat, log: Option<I>)
    requires Known(f, x) && Siblings(f, f.lists[x], Some(x), f.ranks[x] + 1)
    ensures Line(x, level) !in Listings(f, f.lists[x], Some(x), f.ranks[x] + 1, level + 1, log)
  {
    ListingsExact(f, f.lists[x], Some(x), f.ranks[x] + 1, level + 1, log, x, level);
  }

  lemma {:induction false} ListingsOnce<I, T>(f: Forest<I, T>, cs: seq<I>, owner: Option<I>, floor: nat, level: nat, log: Option<I>)
    requires Siblings(f, cs, owner, floor)
    ensures Distinct(Listings(f, cs, owner, floor, level, log))
    decreases f.height - floor, |cs|
  {
    if cs != [] {
      var a, b := Listing(f, cs[0], level, log), Listings(f, cs[1..], owner, floor, level, log);
      ListingOnce(f, cs[0], level, log);
      ListingsOnce(f, cs[1..], owner, floor, level, log);
      forall l | l in a
        ensures l !in b
      {
        ListingExact(f, cs[0], level, log, l.item, l.level);
        ListingsExact(f, cs[1..], owner, floor, level, log, l.item, l.level);
        forall c | c in cs[1..] && ShownAt(f, l.item, c, log, l.level - level)
          ensures false
        {
          OneSibling(f, l.item, cs[0], c, log);
        }
      }
      DistinctJoin(a, b);
    }
  }

  /** The dump of the whole registry shows every item that hangs from a root, and only
      those, once, indented by its depth. */
  lemma DumpExact<I, T>(f: Forest<I, T>, log: Option<I>, y: I, lv: nat)
    requires ValidForest(f)
    ensures Siblings(f, f.roots, None, 0) && Distinct(Listings(f, f.roots, None, 0, 0, log))
    ensures Line(y, lv) in Listings(f, f.roots, None, 0, 0, log) <==>
            exists r :: r in f.roots && ShownAt(f, y, r, log, lv)
  {
    RootsAreSiblings(f);
    ListingsOnce(f, f.roots, None, 0, 0, log);
    ListingsExact(f, f.roots, None, 0, 0, log, y, lv);
  }
}
