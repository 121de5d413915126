/** How long a bitmap lives: a use count shared by its owners and by the read and write
    brackets open on it, a surface lock that the brackets share, and storage that goes
    with the last of them. */
module BitmapLifetime {

  // ---------------------------------------------------------------- the protocol

  /** The counters of the record, the lock on its surface, and how often it was freed. */
  datatype Life = Life(useCount: int, readLock: int, writeLock: int, writeSeed: nat, locked: bool, freed: nat)

  datatype Step = Use | Dispose | ReadBegin | ReadEnd | WriteBegin | WriteEnd

  /** A new bitmap: its one owner is not counted. */
  const NEW := Life(0, 0, 0, 0, false, 0)

  /** Give one reference up; the storage goes when there was none to give up. */
  function Disposed(l: Life): Life {
    var m := l.(useCount := l.useCount - 1);
    if m.useCount >= 0 then m else m.(freed := m.freed + 1)
  }

  /** Close a bracket whose counter is already taken down. */
  function Closed(l: Life): Life {
    var m := l.(locked := if l.readLock + l.writeLock == 0 then false else l.locked, useCount := l.useCount - 1);
    if m.useCount < 0 then Disposed(m) else m
  }

  function Opened(l: Life): Life {
    l.(locked := if l.readLock + l.writeLock == 0 then true else l.locked)
  }

  function Apply(l: Life, step: Step): Life {
    match step
    case Use => l.(useCount := l.useCount + 1)
    case Dispose => Disposed(l)
    case ReadBegin => Opened(l).(readLock := l.readLock + 1, useCount := l.useCount + 1)
    case ReadEnd => Closed(l.(readLock := l.readLock - 1))
    case WriteBegin =>
      Opened(l).(writeLock := l.writeLock + 1, writeSeed := l.writeSeed + 1, useCount := l.useCount + 1)
    case WriteEnd => Closed(l.(writeLock := l.writeLock - 1))
  }

  function After(l: Life, steps: seq<Step>): Life {
    if steps == [] then l else Apply(After(l, steps[..|steps| - 1]), steps[|steps| - 1])
  }

  // ---------------------------------------------------------------- who holds it

  /** The references that are out: owners, and brackets not yet closed. */
  datatype Holders = Holders(owners: int, readers: int, writers: int) {
    function Count(): int { owners + readers + writers }
  }

  const CREATOR := Holders(1, 0, 0)

  function Held(h: Holders, step: Step): Holders {
    match step
    case Use => h.(owners := h.owners + 1)
    case Dispose => h.(owners := h.owners - 1)
    case ReadBegin => h.(readers := h.readers + 1)
    case ReadEnd => h.(readers := h.readers - 1)
    case WriteBegin => h.(writers := h.writers + 1)
    case WriteEnd => h.(writers := h.writers - 1)
  }

  function HeldAfter(steps: seq<Step>): Holders {
    if steps == [] then CREATOR else Held(HeldAfter(steps[..|steps| - 1]), steps[|steps| - 1])
  }

  /** Only a holder acts on the bitmap, and gives up only what it has. */
  predicate Allowed(h: Holders, step: Step) {
    match step
    case Use => h.Count() > 0
    case Dispose => h.owners > 0
    case ReadBegin => h.Count() > 0
    case ReadEnd => h.readers > 0
    case WriteBegin => h.Count() > 0
    case WriteEnd => h.writers > 0
  }

  predicate Fair(steps: seq<Step>) {
    forall i :: 0 <= i < |steps| ==> Allowed(HeldAfter(steps[..i]), steps[i])
  }

  // ---------------------------------------------------------------- whole runs

  /** The counters tell who holds the bitmap; it is locked while brackets are open, and
      freed, once, when no one is left. */
  predicate Tells(l: Life, h: Holders) {
    && h.owners >= 0 && h.readers >= 0 && h.writers >= 0
    && l.readLock == h.readers && l.writeLock == h.writers
    && (l.locked <==> h.readers + h.writers > 0)
    && (if h.Count() > 0 then l.freed == 0 && l.useCount + 1 == h.Count() else l.freed == 1)
  }

  lemma {:induction false} FairPrefix(steps: seq<Step>, n: nat)
    requires Fair(steps) && n <= |steps|
    ensures Fair(steps[..n])
  {
    forall i | 0 <= i < n
      ensures Allowed(HeldAfter(steps[..n][..i]), steps[..n][i])
    {
      assert steps[..n][..i] == steps[..i];
    }
  }

  /** In any run in which only holders act, and each gives up only what it has: the use
      count plus one is the number of owners and open brackets, the surface is locked
      exactly while a bracket is open, and the storage is freed exactly when the last
      reference goes, which can be an End that outlives the last owner; and only once. */
  lemma {:induction false} LifetimeHolds(steps: seq<Step>)
    requires Fair(steps)
    ensures Tells(After(NEW, steps), HeldAfter(steps))
    decreases |steps|
  {
    if steps != [] {
      var n := |steps| - 1;
      FairPrefix(steps, n);
      LifetimeHolds(steps[..n]);
      StepTells(After(NEW, steps[..n]), HeldAfter(steps[..n]), steps[n]);
    }
  }

  /** Every step of a holder keeps what the counters tell. */
  lemma StepTells(l: Life, h: Holders, step: Step)
    requires Tells(l, h) && Allowed(h, step)
    ensures Tells(Apply(l, step), Held(h, step))
  {}

  /** A step frees the storage exactly when it gives up the last reference; the run ends
      there, as no one is left to take a step. */
  lemma FreedByTheLast(steps: seq<Step>, step: Step)
    requires Fair(steps + [step])
    ensures After(NEW, steps).freed == 0 && HeldAfter(steps).Count() > 0
    ensures After(NEW, steps + [step]).freed == 1 <==> HeldAfter(steps + [step]).Count() == 0
    ensures HeldAfter(steps + [step]).Count() == 0 ==> forall next :: !Fair(steps + [step] + [next])
  {
    var all := steps + [step];
    assert all[..|steps|] == steps && Allowed(HeldAfter(all[..|steps|]), all[|steps|]);
    FairPrefix(all, |steps|);
    LifetimeHolds(steps);
    LifetimeHolds(all);
    forall next | HeldAfter(all).Count() == 0
      ensures !Fair(all + [next])
    {
      var more := all + [next];
      assert more[..|all|] == all && more[|all|] == next;
      assert !Allowed(HeldAfter(more[..|all|]), more[|all|]);
    }
  }

  /** Every write bracket, and nothing else, changes the seed that tells caches apart. */
  lemma {:induction false} SeedCountsWrites(steps: seq<Step>)
    ensures After(NEW, steps).writeSeed == |Writes(steps)|
    decreases |steps|
  {
    if steps != [] {
      SeedCountsWrites(steps[..|steps| - 1]);
    }
  }

  function Writes(steps: seq<Step>): seq<Step> {
    if steps == [] then []
    else Writes(steps[..|steps| - 1]) + if steps[|steps| - 1].WriteBegin? then [WriteBegin] else []
  }

  /** An owner too many frees the storage under an open bracket: being a holder is needed. */
  lemma UnfairDisposeFreesEarly()
    ensures var steps := [ReadBegin, Dispose, Dispose];
            !Fair(steps) && After(NEW, steps).freed == 1 && HeldAfter(steps).readers == 1
  {
    var steps := [ReadBegin, Dispose, Dispose];
    assert steps[..2] == [ReadBegin, Dispose] && steps[..1] == [ReadBegin] && steps[..0] == [];
    assert [ReadBegin, Dispose][..1] == [ReadBegin] && [ReadBegin][..0] == [];
    assert HeldAfter(steps[..2]) == Holders(0, 1, 0);
    assert !Allowed(HeldAfter(steps[..2]), steps[2]);
  }

  // ---------------------------------------------------------------- the record

  class Bitmap {
    var useCount: int
    var readLock: int
    var writeLock: int
    var writeSeed: nat
    var locked: bool
    ghost var freed: nat
    ghost var holders: Holders

    constructor ()
      ensures Valid() && State() == NEW && holders == CREATOR
    {
      useCount, readLock, writeLock, writeSeed, locked, freed, holders := 0, 0, 0, 0, false, 0, CREATOR;
    }

    ghost function State(): Life
      reads this
    {
      Life(useCount, readLock, writeLock, writeSeed, locked, freed)
    }

    /** The counters tell who holds the bitmap. */
    ghost predicate Valid()
      reads this
    {
      Tells(State(), holders)
    }

    method Dispose()
      requires Valid() && Allowed(holders, Step.Dispose)
      modifies this
      ensures Valid() && holders == Held(old(holders), Step.Dispose) && writeSeed == old(writeSeed)
      ensures freed == 1 <==> holders.Count() == 0
      ensures State() == Apply(old(State()), Step.Dispose)
    {
      Release();
      holders := Held(holders, Step.Dispose);
    }

    /** What an owner and the last bracket have in common: one reference less. */
    method Release()
      modifies `useCount, `freed
      ensures State() == Disposed(old(State()))
    {
      useCount := useCount - 1;
      if useCount >= 0 {
        return;
      }
      freed := freed + 1;
    }

    method Use()
      requires Valid() && Allowed(holders, Step.Use)
      modifies this
      ensures Valid() && holders == Held(old(holders), Step.Use) && writeSeed == old(writeSeed) && freed == 0
      ensures State() == Apply(old(State()), Step.Use)
    {
      useCount := useCount + 1;
      holders := Held(holders, Step.Use);
    }

    method ReadBegin()
      requires Valid() && Allowed(holders, Step.ReadBegin)
      modifies this
      ensures Valid() && holders == Held(old(holders), Step.ReadBegin) && writeSeed == old(writeSeed) && locked && freed == 0
      ensures State() == Apply(old(State()), Step.ReadBegin)
    {
      if readLock + writeLock == 0 {
        locked := true;
      }
      readLock := readLock + 1;
      useCount := useCount + 1;
      holders := Held(holders, Step.ReadBegin);
    }

    method ReadEnd()
      requires Valid() && Allowed(holders, Step.ReadEnd)
      modifies this
      ensures Valid() && holders == Held(old(holders), Step.ReadEnd) && writeSeed == old(writeSeed)
      ensures freed == 1 <==> holders.Count() == 0
      ensures State() == Apply(old(State()), Step.ReadEnd)
    {
      readLock := readLock - 1;
      Close();
      holders := Held(holders, Step.ReadEnd);
    }

    /** Close a bracket whose counter is already taken down. */
    method Close()
      modifies `locked, `useCount, `freed
      ensures State() == Closed(old(State()))
    {
      if readLock + writeLock == 0 {
        locked := false;
      }
      useCount := useCount - 1;
      if useCount < 0 {
        Release();
      }
    }

    method WriteBegin()
      requires Valid() && Allowed(holders, Step.WriteBegin)
      modifies this
      ensures Valid() && holders == Held(old(holders), Step.WriteBegin) && writeSeed == old(writeSeed) + 1 && locked && freed == 0
      ensures State() == Apply(old(State()), Step.WriteBegin)
    {
      if readLock + writeLock == 0 {
        locked := true;
      }
      writeLock := writeLock + 1;
      writeSeed := writeSeed + 1;
      useCount := useCount + 1;
      holders := Held(holders, Step.WriteBegin);
    }

    method WriteEnd()
      requires Valid() && Allowed(holders, Step.WriteEnd)
      modifies this
      ensures Valid() && holders == Held(old(holders), Step.WriteEnd) && writeSeed == old(writeSeed)
      ensures freed == 1 <==> holders.Count() == 0
      ensures State() == Apply(old(State()), Step.WriteEnd)
    {
      writeLock := writeLock - 1;
      Close();
      holders := Held(holders, Step.WriteEnd);
    }
  }
}
