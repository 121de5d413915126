/** The singly linked list under the queues and registries: nodes are linked through
    a next field and relinked in place by walking from the head. */
module LinkedList {
  import opened UniqueList

  class Node<T> {
    var next: Node?<T>
    const data: T

    constructor (data: T)
      ensures this.data == data && next == null
    {
      this.data := data;
      next := null;
    }
  }

  // ---------------------------------------------------------------- sequences of nodes

  /** The next fields chain the nodes of s and end in null. */
  ghost predicate Linked<T>(s: seq<Node<T>>)
    reads s
  {
    Distinct(s) && forall i :: 0 <= i < |s| ==> s[i].next == Follower(s, i)
  }

  function Follower<T>(s: seq<Node<T>>, i: nat): Node?<T>
    requires i < |s|
  {
    if i + 1 < |s| then s[i + 1] else null
  }

  /** What insertion in order puts where: before the first node that el goes before. */
  function Place<T>(cmp: (T, T) -> int, s: seq<T>, el: T): (k: nat)
    ensures k <= |s|
    ensures forall i :: 0 <= i < k ==> cmp(el, s[i]) >= 0
    ensures k < |s| ==> cmp(el, s[k]) < 0
  {
    if s == [] || cmp(el, s[0]) < 0 then 0 else 1 + Place(cmp, s[1..], el)
  }

  function Insert<T>(s: seq<T>, k: nat, el: T): (r: seq<T>)
    requires k <= |s|
    ensures |r| == |s| + 1
    ensures forall i :: 0 <= i < |r| ==> r[i] == if i < k then s[i] else if i == k then el else s[i - 1]
  {
    s[..k] + [el] + s[k..]
  }

  function Delete<T>(s: seq<T>, k: nat): (r: seq<T>)
    requires k < |s|
    ensures |r| == |s| - 1
    ensures forall i :: 0 <= i < |r| ==> r[i] == if i < k then s[i] else s[i + 1]
  {
    s[..k] + s[k + 1..]
  }

  lemma InsertKeepsDistinct<T>(s: seq<Node<T>>, k: nat, el: Node<T>)
    requires k <= |s| && Distinct(s) && el !in s
    ensures Distinct(Insert(s, k, el))
  {}

  lemma InsertFollower<T>(s: seq<Node<T>>, k: nat, el: Node<T>, i: nat)
    requires k <= |s| && i <= |s|
    ensures Follower(Insert(s, k, el), i) ==
            if i + 1 < k then Follower(s, i)
            else if i + 1 == k then el
            else if i == k then (if k < |s| then s[k] else null)
            else Follower(s, i - 1)
  {}

  lemma DeleteKeepsDistinct<T>(s: seq<Node<T>>, k: nat)
    requires k < |s| && Distinct(s)
    ensures Distinct(Delete(s, k)) && s[k] !in Delete(s, k)
  {}

  lemma DeleteFollower<T>(s: seq<Node<T>>, k: nat, i: nat)
    requires k < |s| && i < |s| - 1
    ensures Follower(Delete(s, k), i) ==
            if i + 1 < k then Follower(s, i) else if i + 1 == k then Follower(s, k) else Follower(s, i + 1)
  {}

  function Values<T>(s: seq<Node<T>>): (r: seq<T>)
    ensures |r| == |s| && forall i :: 0 <= i < |s| ==> r[i] == s[i].data
  {
    seq(|s|, i requires 0 <= i < |s| => s[i].data)
  }

  // ---------------------------------------------------------------- order

  ghost predicate Antisymmetric<T>(cmp: (T, T) -> int, a: T, b: T) { cmp(a, b) < 0 <==> cmp(b, a) > 0 }

  ghost predicate Transitive<T>(cmp: (T, T) -> int, a: T, b: T, c: T) {
    cmp(a, b) <= 0 && cmp(b, c) <= 0 ==> cmp(a, c) <= 0
  }

  /** cmp compares by a total preorder, as the library asks of compare functions. */
  ghost predicate TotalPreorder<T(!new)>(cmp: (T, T) -> int) {
    (forall a, b :: Antisymmetric(cmp, a, b)) && (forall a, b, c :: Transitive(cmp, a, b, c))
  }

  ghost predicate Sorted<T>(cmp: (T, T) -> int, s: seq<T>) {
    forall i, j :: 0 <= i < j < |s| ==> cmp(s[i], s[j]) <= 0
  }

  /** Below one value of a sorted list is below all later ones. */
  lemma BelowTheRest<T(!new)>(cmp: (T, T) -> int, el: T, a: T, b: T)
    requires TotalPreorder(cmp) && cmp(el, a) < 0 && cmp(a, b) <= 0
    ensures cmp(el, b) < 0
  {
    assert Antisymmetric(cmp, el, a) && Antisymmetric(cmp, el, b) && Transitive(cmp, a, b, el);
    assert Antisymmetric(cmp, b, el);
  }

  lemma AroundThePlace<T(!new)>(cmp: (T, T) -> int, s: seq<T>, el: T, i: nat)
    requires TotalPreorder(cmp) && Sorted(cmp, s) && i < |s|
    ensures if i < Place(cmp, s, el) then cmp(s[i], el) <= 0 else cmp(el, s[i]) < 0 && cmp(s[i], el) > 0
  {
    var k := Place(cmp, s, el);
    assert Antisymmetric(cmp, el, s[i]) && Antisymmetric(cmp, s[i], el);
    if i < k {
      assert cmp(el, s[i]) >= 0;
    } else if i > k {
      BelowTheRest(cmp, el, s[k], s[i]);
    }
  }

  lemma InsertedPair<T>(cmp: (T, T) -> int, s: seq<T>, k: nat, el: T, i: nat, j: nat)
    requires k <= |s| && i < j <= |s| && Sorted(cmp, s)
    requires j == k ==> cmp(s[i], el) <= 0
    requires i == k ==> cmp(el, s[j - 1]) < 0
    ensures cmp(Insert(s, k, el)[i], Insert(s, k, el)[j]) <= 0
  {}

  lemma PairInPlace<T(!new)>(cmp: (T, T) -> int, s: seq<T>, el: T, i: nat, j: nat)
    requires TotalPreorder(cmp) && Sorted(cmp, s) && i < j <= |s|
    ensures var r := Insert(s, Place(cmp, s, el), el); cmp(r[i], r[j]) <= 0
  {
    AroundThePlace(cmp, s, el, i);
    AroundThePlace(cmp, s, el, j - 1);
    InsertedPair(cmp, s, Place(cmp, s, el), el, i, j);
  }

  /** Insertion keeps a list sorted and puts the new value after all that are equal to it
      or less, and before exactly the greater ones. */
  lemma InsertSortedStable<T(!new)>(cmp: (T, T) -> int, s: seq<T>, el: T)
    requires TotalPreorder(cmp) && Sorted(cmp, s)
    ensures Sorted(cmp, Insert(s, Place(cmp, s, el), el))
    ensures forall i :: 0 <= i < |s| ==> (i < Place(cmp, s, el) <==> cmp(s[i], el) <= 0)
  {
    var k := Place(cmp, s, el);
    forall i, j | 0 <= i < j <= |s|
      ensures cmp(Insert(s, k, el)[i], Insert(s, k, el)[j]) <= 0
    {
      PairInPlace(cmp, s, el, i, j);
    }
    forall i | 0 <= i < |s|
      ensures i < k <==> cmp(s[i], el) <= 0
    {
      AroundThePlace(cmp, s, el, i);
    }
  }

  /** The same for a list of nodes: the values come out sorted, el stands right after the
      nodes that compare equal or less, and taking it out again gives the old list. */
  lemma InsertedListSorted<T(!new)>(cmp: (T, T) -> int, s: seq<Node<T>>, el: Node<T>)
    requires TotalPreorder(cmp) && Sorted(cmp, Values(s))
    ensures var k := Place(cmp, Values(s), el.data);
            var r := Insert(s, k, el);
            && Sorted(cmp, Values(r))
            && (forall i :: 0 <= i < |s| ==> (i < k <==> cmp(s[i].data, el.data) <= 0))
            && r[k] == el && Delete(r, k) == s
  {
    InsertSortedStable(cmp, Values(s), el.data);
    NodesFollowValues(cmp, s, Place(cmp, Values(s), el.data), el);
  }

  lemma NodesFollowValues<T>(cmp: (T, T) -> int, s: seq<Node<T>>, k: nat, el: Node<T>)
    requires k <= |s| && Sorted(cmp, Insert(Values(s), k, el.data))
    requires forall i :: 0 <= i < |s| ==> (i < k <==> cmp(Values(s)[i], el.data) <= 0)
    ensures Sorted(cmp, Values(Insert(s, k, el)))
    ensures forall i :: 0 <= i < |s| ==> (i < k <==> cmp(s[i].data, el.data) <= 0)
    ensures Insert(s, k, el)[k] == el && Delete(Insert(s, k, el), k) == s
  {
    assert Values(Insert(s, k, el)) == Insert(Values(s), k, el.data);
    forall i | 0 <= i < |s|
      ensures i < k <==> cmp(s[i].data, el.data) <= 0
    {
      assert Values(s)[i] == s[i].data;
    }
  }

  // ---------------------------------------------------------------- the list

  class List<T> {
    var head: Node?<T>
    ghost var nodes: seq<Node<T>>

    ghost predicate Valid()
      reads this, nodes
    {
      Linked(nodes) && head == (if nodes == [] then null else nodes[0])
    }

    constructor ()
      ensures Valid() && nodes == []
    {
      head, nodes := null, [];
    }

    method Prepend(el: Node<T>)
      requires Valid() && el !in nodes
      modifies this, el
      ensures Valid() && nodes == [el] + old(nodes)
    {
      if head != null {
        el.next := head;
      } else {
        el.next := null;
      }
      head := el;
      nodes := [el] + nodes;
    }

    method Append(el: Node<T>)
      requires Valid() && el !in nodes
      modifies this, el, nodes
      ensures Valid() && nodes == old(nodes) + [el]
    {
      el.next := null;
      if head != null {
        var cur := Last();
        cur.next := el;
      } else {
        head := el;
      }
      nodes := nodes + [el];
    }

    /** Walk to the end. */
    method Last() returns (cur: Node<T>)
      requires Valid() && head != null
      ensures nodes != [] && cur == nodes[|nodes| - 1]
    {
      cur := head;
      ghost var i := 0;
      while cur.next != null
        invariant 0 <= i < |nodes| && cur == nodes[i]
        decreases |nodes| - i
      {
        cur := cur.next;
        i := i + 1;
      }
    }

    /** Walk to the node before the end. */
    method BeforeLast() returns (cur: Node<T>)
      requires Valid() && head != null && head.next != null
      ensures |nodes| > 1 && cur == nodes[|nodes| - 2]
    {
      cur := head;
      ghost var i := 0;
      while cur.next.next != null
        invariant 0 <= i < |nodes| - 1 && cur == nodes[i] && cur.next == nodes[i + 1]
        decreases |nodes| - i
      {
        cur := cur.next;
        i := i + 1;
      }
    }

    /** Link el in after a node of the list, or at the front. */
    method InsertAfter(el: Node<T>, after: Node?<T>, ghost k: nat)
      requires Valid() && el !in nodes && k <= |nodes|
      requires if k == 0 then after == null else after == nodes[k - 1]
      modifies this, el, nodes
      ensures Valid() && nodes == Insert(old(nodes), k, el)
    {
      if after == null {
        el.next := head;
        head := el;
      } else {
        el.next := after.next;
        after.next := el;
      }
      InsertKeepsDistinct(nodes, k, el);
      forall i | 0 <= i <= |nodes|
        ensures Insert(nodes, k, el)[i].next == Follower(Insert(nodes, k, el), i)
      {
        InsertFollower(nodes, k, el, i);
      }
      nodes := Insert(nodes, k, el);
    }

    method InsertSorted(el: Node<T>, cmp: (T, T) -> int)
      requires Valid() && el !in nodes
      modifies this, el, nodes
      ensures Valid() && nodes == Insert(old(nodes), Place(cmp, Values(old(nodes)), el.data), el)
    {
      ghost var s := nodes;
      if head != null && cmp(el.data, head.data) < 0 {
        assert Values(s)[0] == head.data && Insert(s, 0, el) == [el] + s;
        Prepend(el);
      } else {
        var cur, i := WalkTo(el.data, cmp);
        if cur != null {
          InsertAfter(el, cur, i + 1);
        } else {
          assert Insert(s, |s|, el) == s + [el];
          Append(el);
        }
      }
    }

    /** The first node whose successor compares greater, if there is one. */
    method WalkTo(data: T, cmp: (T, T) -> int) returns (cur: Node?<T>, ghost i: nat)
      requires Valid() && (head != null ==> cmp(data, head.data) >= 0)
      ensures if cur != null then i < |nodes| && cur == nodes[i] && Place(cmp, Values(nodes), data) == i + 1
              else Place(cmp, Values(nodes), data) == |nodes|
    {
      cur, i := head, 0;
      ghost var values := Values(nodes);
      while cur != null
        invariant i <= |nodes| && (cur == if i < |nodes| then nodes[i] else null)
        invariant forall j :: 0 <= j <= i && j < |nodes| ==> cmp(data, values[j]) >= 0
        decreases |nodes| - i
      {
        var next := cur.next;
        assert next == Follower(nodes, i) && (next != null ==> values[i + 1] == next.data);
        if next != null && cmp(data, next.data) < 0 {
          PlaceIs(cmp, values, data, i + 1);
          return;
        }
        cur := next;
        i := i + 1;
      }
      PlaceIs(cmp, values, data, |nodes|);
    }

    method RemoveLast() returns (result: Node?<T>)
      requires Valid()
      modifies this, nodes
      ensures Valid()
      ensures old(nodes) == [] ==> result == null && nodes == []
      ensures old(nodes) != [] ==> result == old(nodes)[|old(nodes)| - 1] && result.next == null
                                   && nodes == old(nodes)[..|old(nodes)| - 1]
    {
      result := null;
      if head != null {
        if head.next == null {
          result := head;
          head := null;
        } else {
          var cur := BeforeLast();
          result := cur.next;
          cur.next := null;
        }
        nodes := nodes[..|nodes| - 1];
      }
    }

    method RemoveFirst() returns (result: Node?<T>)
      requires Valid()
      modifies this, nodes
      ensures Valid()
      ensures old(nodes) == [] ==> result == null && nodes == []
      ensures old(nodes) != [] ==> result == old(nodes)[0] && result.next == null && nodes == old(nodes)[1..]
    {
      result := head;
      if head != null {
        head := head.next;
        nodes := nodes[1..];
      }
      if result != null {
        result.next := null;
      }
    }

    /** The bookkeeping after the node at k has been bypassed. */
    ghost method Unlink(k: nat)
      requires 0 < k < |nodes| && Distinct(nodes) && head == nodes[0]
      requires forall i :: 0 <= i < |nodes| ==>
                 nodes[i].next == if i == k then null else if i == k - 1 then Follower(nodes, k) else Follower(nodes, i)
      modifies `nodes
      ensures Valid() && nodes == Delete(old(nodes), k)
    {
      DeleteKeepsDistinct(nodes, k);
      forall i | 0 <= i < |nodes| - 1
        ensures Delete(nodes, k)[i].next == Follower(Delete(nodes, k), i)
      {
        DeleteFollower(nodes, k, i);
      }
      nodes := Delete(nodes, k);
    }

    /** Unlink el wherever it is; a node that is not in the list leaves it alone. */
    method Remove(el: Node?<T>) returns (found: bool)
      requires Valid()
      modifies this, nodes
      ensures Valid()
      ensures found <==> el != null && el in old(nodes)
      ensures !found ==> nodes == old(nodes)
      ensures found ==> el.next == null
                        && exists k :: 0 <= k < |old(nodes)| && old(nodes)[k] == el && nodes == Delete(old(nodes), k)
    {
      var cur := head;
      if el == null {
        return false;
      }
      if cur == el {
        head := cur.next;
        el.next := null;
        nodes := nodes[1..];
        assert nodes == Delete(old(nodes), 0);
        return true;
      }
      ghost var i := 0;
      while cur != null
        invariant 0 <= i <= |nodes| && (cur == if i < |nodes| then nodes[i] else null)
        invariant Valid() && nodes == old(nodes) && forall j :: 0 <= j <= i && j < |nodes| ==> nodes[j] != el
        decreases |nodes| - i
      {
        if cur.next == el {
          cur.next := el.next;
          el.next := null;
          Unlink(i + 1);
          return true;
        }
        cur := cur.next;
        i := i + 1;
      }
      return false;
    }
  }

  lemma {:induction false} PlaceIs<T>(cmp: (T, T) -> int, s: seq<T>, el: T, k: nat)
    requires k <= |s| && (forall i :: 0 <= i < k ==> cmp(el, s[i]) >= 0) && (k < |s| ==> cmp(el, s[k]) < 0)
    ensures Place(cmp, s, el) == k
  {
    if k > 0 {
      assert cmp(el, s[0]) >= 0;
      PlaceIs(cmp, s[1..], el, k - 1);
    }
  }
}
