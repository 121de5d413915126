/** Listeners attached to an instrumented type or item, with the cached mask of levels
    that guards the sends. */
module ListenerMask {
  import opened UniqueList

  /** A word of level flags, as the set of its bits: or is union, and is intersection. */
  type Mask = set<nat>

  class Listener {
    const level: Mask

    constructor (level: Mask)
      ensures this.level == level
    {
      this.level := level;
    }
  }

  // ---------------------------------------------------------------- specification

  /** The levels of all listeners, or-ed. */
  function Levels(ls: seq<Listener>): Mask {
    if ls == [] then {} else ls[0].level + Levels(ls[1..])
  }

  /** A level and a mask that have a bit in common. */
  predicate Meets(level: Mask, mask: Mask) { level * mask != {} }

  /** The listeners that a message of this level goes to, in list order. */
  function Receivers(ls: seq<Listener>, level: Mask): seq<Listener> {
    if ls == [] then [] else (if Meets(level, ls[0].level) then [ls[0]] else []) + Receivers(ls[1..], level)
  }

  /** A message passes the guard exactly when some listener wants it, so that guarding
      by the or of all levels loses no message and lets none through in vain. */
  lemma {:induction false} GuardExact(ls: seq<Listener>, level: Mask)
    ensures Meets(Levels(ls), level) <==> Receivers(ls, level) != []
  {
    if ls != [] {
      GuardExact(ls[1..], level);
    }
  }

  /** The or of the levels is the least mask that has all their bits. */
  lemma {:induction false} LevelsLeast(ls: seq<Listener>, mask: Mask)
    ensures Levels(ls) <= mask <==> forall l :: l in ls ==> l.level <= mask
  {
    if ls != [] {
      LevelsLeast(ls[1..], mask);
      assert forall l :: l in ls <==> l == ls[0] || l in ls[1..];
    }
  }

  /** The listener has the highest level of all. */
  ghost predicate Highest(l: Listener, ls: seq<Listener>) { forall m :: m in ls ==> m.level <= l.level }

  /** The mask is the maximum of the levels exactly when one level includes all others. */
  lemma MaximumExactly(ls: seq<Listener>)
    ensures (exists l :: l in ls && l.level == Levels(ls)) <==> exists l :: l in ls && Highest(l, ls)
  {
    LevelsLeast(ls, Levels(ls));
    forall l | l in ls
      ensures l.level == Levels(ls) <==> Highest(l, ls)
    {
      LevelsLeast(ls, l.level);
    }
  }

  /** The documented levels: the n-th has a bit of its own and those of the ones before. */
  function UpTo(n: nat): Mask { if n == 0 then {} else UpTo(n - 1) + {n - 1} }

  lemma {:induction false} UpToNested(a: nat, b: nat)
    requires a <= b
    ensures UpTo(a) <= UpTo(b)
  {
    if a < b {
      UpToNested(a, b - 1);
    }
  }

  /** Among these one always includes all others, and the mask is the maximum. */
  lemma {:induction false} NestedHaveMaximum(ls: seq<Listener>, ns: seq<nat>) returns (k: nat)
    requires |ls| == |ns| > 0 && forall i :: 0 <= i < |ls| ==> ls[i].level == UpTo(ns[i])
    ensures k < |ls| && ls[k].level == Levels(ls)
  {
    if |ls| == 1 {
      k := 0;
    } else {
      k := NestedHaveMaximum(ls[1..], ns[1..]);
      if ns[0] <= ns[k + 1] {
        UpToNested(ns[0], ns[k + 1]);
        k := k + 1;
      } else {
        UpToNested(ns[k + 1], ns[0]);
        k := 0;
      }
    }
  }

  /** Two listeners for one bit each have no maximum: the mask is neither's level. */
  lemma NoMaximum(a: Listener, b: Listener)
    requires a.level == {0} && b.level == {1}
    ensures Levels([a, b]) == {0, 1} && !exists l :: l in [a, b] && l.level == Levels([a, b])
  {
    assert [a, b][1..] == [b] && [b][1..] == [];
    assert Levels([b]) == {1} + {};
  }

  lemma {:induction false} LevelsAppend(ls: seq<Listener>, l: Listener)
    ensures Levels(ls + [l]) == Levels(ls) + l.level
  {
    if ls == [] {
      assert ls + [l] == [l];
    } else {
      LevelsAppend(ls[1..], l);
      assert (ls + [l])[1..] == ls[1..] + [l];
    }
  }

  // ---------------------------------------------------------------- the list and its mask

  class Listened {
    var listeners: seq<Listener>
    var listenerLevel: Mask

    /** The cache is the or of the levels of exactly the listeners attached. */
    predicate Valid()
      reads this
    {
      listenerLevel == Levels(listeners)
    }

    /** A cleared record. */
    constructor ()
      ensures Valid() && listeners == []
    {
      listeners, listenerLevel := [], {};
    }

    method Add(level: Mask) returns (listener: Listener)
      requires Valid()
      modifies this
      ensures Valid() && fresh(listener) && listener.level == level && listeners == [listener] + old(listeners)
    {
      listener := new Listener(level);
      assert ([listener] + listeners)[1..] == listeners;
      listenerLevel := listenerLevel + level;
      listeners := [listener] + listeners;
    }

    /** Detach a listener and add the levels of the others up again. */
    method Remove(listener: Listener)
      requires Valid()
      modifies this
      ensures Valid() && listeners == Without(old(listeners), listener)
    {
      Unlink(listener);
      listenerLevel := {};
      var walker := 0;
      while walker < |listeners|
        invariant listeners == Without(old(listeners), listener) && walker <= |listeners|
        invariant listenerLevel == Levels(listeners[..walker])
      {
        LevelsAppend(listeners[..walker], listeners[walker]);
        assert listeners[..walker + 1] == listeners[..walker] + [listeners[walker]];
        listenerLevel := listenerLevel + listeners[walker].level;
        walker := walker + 1;
      }
      assert listeners[..walker] == listeners;
    }

    /** FskListRemove on the listener list. */
    method Unlink(listener: Listener)
      modifies `listeners
      ensures listeners == Without(old(listeners), listener)
    {
      var k := 0;
      while k < |listeners| && listeners[k] != listener
        invariant k <= |listeners| && forall i :: 0 <= i < k ==> listeners[i] != listener
      {
        k := k + 1;
      }
      if k < |listeners| {
        WithoutUnlinks(listeners, k);
        listeners := listeners[..k] + listeners[k + 1..];
      } else {
        WithoutAbsent(listeners, listener);
      }
    }

    method RemoveAll()
      requires Valid()
      modifies this
      ensures Valid() && listeners == []
    {
      while listeners != []
        invariant Valid()
        decreases |listeners|
      {
        Remove(listeners[0]);
      }
    }

    /** Deliver a message to the listeners that want its level, in order. */
    method Send(level: Mask) returns (received: seq<Listener>)
      ensures received == Receivers(listeners, level)
    {
      received := [];
      var i := 0;
      while i < |listeners|
        invariant i <= |listeners| && received + Receivers(listeners[i..], level) == Receivers(listeners, level)
      {
        var l := listeners[i];
        assert listeners[i..][1..] == listeners[i + 1..];
        if Meets(level, l.level) {
          Reassociate(received, l, Receivers(listeners[i + 1..], level));
          received := received + [l];
        }
        i := i + 1;
      }
    }

    /** The sends that the library makes first look at the mask; nobody misses anything. */
    method SendGuarded(level: Mask) returns (received: seq<Listener>)
      requires Valid()
      ensures received == Receivers(listeners, level)
      ensures received != [] <==> exists l :: l in listeners && Meets(level, l.level)
    {
      GuardExact(listeners, level);
      received := [];
      if Meets(listenerLevel, level) {
        received := Send(level);
      }
      ReceiversWant(listeners, level);
      assert received != [] ==> received[0] in listeners && Meets(level, received[0].level);
    }
  }

  lemma Reassociate(a: seq<Listener>, l: Listener, b: seq<Listener>)
    ensures a + ([l] + b) == (a + [l]) + b
  {}

  lemma {:induction false} ReceiversWant(ls: seq<Listener>, level: Mask)
    ensures forall l :: l in Receivers(ls, level) <==> l in ls && Meets(level, l.level)
  {
    if ls != [] {
      ReceiversWant(ls[1..], level);
    }
  }
}
