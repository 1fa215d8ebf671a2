// Swap slots that nobody will give back: which steps leave them, exactly, and a run that fills
// the swap file with two pages.

module SwapLeak {
  import opened SwapModel
  import opened SwapSafety
  import opened SwapFault
  import opened SwapRuns
  import opened SwapReached

  predicate Named(metas: seq<Meta>, s: nat) {
    exists i :: 0 <= i < |metas| && metas[i].inSwap && metas[i].slot == s
  }

  // Taken slots that belong to no page.
  ghost function Leaked(m: Memory): set<nat> {
    set s: nat | s < |m.slots| && m.slots[s] && !Named(m.metas, s)
  }

  // What a step adds to them. An eviction forgets the slot that the victim still has from its
  // last time in the swap file, when it gives it a new one or finds it has no page.
  function Leaks(m: Memory, a: Act): set<nat> {
    if a.Out? && a.b < |m.metas| && m.metas[a.b].inSwap
       && (KindOf(m, a.hasSwap, a.b, a.room).Stale? || KindOf(m, a.hasSwap, a.b, a.room).Swapped?)
    then {m.metas[a.b].slot}
    else {}
  }

  // The same pages have the same slots.
  ghost predicate SameNames(metas: seq<Meta>, metas2: seq<Meta>) {
    && |metas| == |metas2|
    && forall i | 0 <= i < |metas| :: metas2[i].inSwap == metas[i].inSwap && (metas[i].inSwap ==> metas2[i].slot == metas[i].slot)
  }

  lemma NamedSame(metas: seq<Meta>, metas2: seq<Meta>, s: nat)
    requires SameNames(metas, metas2)
    ensures Named(metas, s) <==> Named(metas2, s)
  {
    if i :| 0 <= i < |metas| && metas[i].inSwap && metas[i].slot == s { assert metas2[i].inSwap; }
    if i :| 0 <= i < |metas2| && metas2[i].inSwap && metas2[i].slot == s { assert metas[i].inSwap; }
  }

  lemma LeakedSame(m: Memory, t: Memory)
    requires SameNames(m.metas, t.metas) && t.slots == m.slots
    ensures Leaked(t) == Leaked(m)
  {
    hide Named;
    forall s: nat | s < |m.slots| ensures s in Leaked(t) <==> s in Leaked(m) { NamedSame(m.metas, t.metas, s); }
  }

  // Every other step but a page-in from swap.
  lemma QuietNames(prog: Program, m: Memory, bad: set<nat>, a: Act)
    requires Inv(prog, m, bad) && Ready(prog, m, a) && !a.Out? && !a.In?
    ensures SameNames(m.metas, Next(prog, m, a).metas) && Next(prog, m, a).slots == m.slots
  {
    hide PageOk, EntryOk, Distinct, Slotted, BadOk, AllocMeta, Find;
    NoneAtZero(m);
    match a
    case Enter(v) => AllocKeeps(m.metas, v);
    case MayWrite(v) => AllocKeeps(m.metas, v);
    case Load(v) => AllocKeeps(m.metas, v);
    case _ =>
  }

  lemma InLeaksNone(prog: Program, m: Memory, va: nat, k: nat)
    requires Slotted(m) && Ready(prog, m, In(va, k))
    ensures Leaked(Next(prog, m, In(va, k))) == Leaked(m)
  {
    hide ReadAt;
    var t := Next(prog, m, In(va, k));
    SwapHasIt(m, k);
    forall s: nat | s < |m.slots|
      ensures s in Leaked(t) <==> s in Leaked(m)
    {
      if s == m.metas[k].slot {
        assert Named(m.metas, s) && !t.slots[s];
      } else {
        NamedBut(m.metas, t.metas, k, s);
      }
    }
  }

  // Only entry k has changed, and it names s neither before nor after.
  lemma NamedBut(metas: seq<Meta>, metas2: seq<Meta>, k: nat, s: nat)
    requires |metas| == |metas2| && k < |metas| && forall i | 0 <= i < |metas| && i != k :: metas2[i] == metas[i]
    requires metas[k].inSwap ==> metas[k].slot != s
    requires metas2[k].inSwap ==> metas2[k].slot != s
    ensures Named(metas, s) <==> Named(metas2, s)
  {
    if i :| 0 <= i < |metas| && metas[i].inSwap && metas[i].slot == s { assert metas2[i].inSwap; }
    if i :| 0 <= i < |metas2| && metas2[i].inSwap && metas2[i].slot == s { assert metas[i].inSwap; }
  }

  lemma OutLeaks(prog: Program, m: Memory, b: nat, hasSwap: bool, room: nat)
    requires Slotted(m) && Ready(prog, m, Out(b, hasSwap, room))
    ensures Leaked(Next(prog, m, Out(b, hasSwap, room))) == Leaked(m) + Leaks(m, Out(b, hasSwap, room))
  {
    hide WriteAt;
    var t, e, slot := Next(prog, m, Out(b, hasSwap, room)), m.metas[b], FirstFree(m.slots, 0);
    var kind := KindOf(m, hasSwap, b, room);
    if kind.Stale? || kind.Swapped? {
      forall s: nat | s < |m.slots|
        ensures s in Leaked(t) <==> s in Leaked(m) || (e.inSwap && s == e.slot)
      {
        if kind.Swapped? && s == slot {
          assert t.metas[b].inSwap && Named(t.metas, s) && !m.slots[s];
        } else if e.inSwap && s == e.slot {
          assert Named(m.metas, s) && m.slots[s] && !Named(t.metas, s);
        } else {
          NamedBut(m.metas, t.metas, b, s);
        }
      }
    } else {
      LeakedSame(m, t);
    }
  }

  // What each step adds, exactly; and no step takes any away.
  lemma StepLeaks(prog: Program, m: Memory, bad: set<nat>, a: Act)
    requires Inv(prog, m, bad) && Ready(prog, m, a)
    ensures Leaked(Next(prog, m, a)) == Leaked(m) + Leaks(m, a) && Leaked(m) !! Leaks(m, a)
  {
    hide Ready, Next, KindOf, PageOk, EntryOk, Slotted, Distinct, BadOk;
    match a
    case Out(b, hasSwap, room) =>
      OutLeaks(prog, m, b, hasSwap, room);
    case In(va, k) => InLeaksNone(prog, m, va, k);
    case _ =>
      QuietNames(prog, m, bad, a);
      LeakedSame(m, Next(prog, m, a));
  }

  // Segment pages leak nothing: only a heap or stack page keeps its slot when it comes back.
  lemma OnlyHeapLeaks(prog: Program, m: Memory, bad: set<nat>, a: Act)
    requires Inv(prog, m, bad) && Ready(prog, m, a) && Leaks(m, a) != {}
    ensures a.Out? && m.metas[a.b].resident && m.metas[a.b].inSwap && !InSeg(prog, m.metas[a.b].va)
  {
    hide Slotted, Distinct, BadOk;
    assert EntryOk(prog, m, bad, m.metas[a.b]);
  }

  // So a slot, once leaked, is lost to the process for good.
  lemma {:induction false} LeakIsForGood(prog: Program, m: Memory, bad: set<nat>, acts: seq<Act>, t: Memory)
    requires Inv(prog, m, bad) && Run(prog, m, acts, t)
    ensures Leaked(m) <= Leaked(t)
    decreases |acts|
  {
    hide Inv, Ready, Next, Leaked, Leaks;
    if acts != [] {
      StepLeaks(prog, m, bad, acts[0]);
      NextKeepsInv(prog, m, bad, acts[0]);
      LeakIsForGood(prog, Next(prog, m, acts[0]), bad + Spoils(prog, acts[0]), acts[1..], t);
    }
  }

  // The page at va is in, and to be written; it has been in n slots, and the first n slots are
  // the ones taken.
  ghost predicate Filled(m: Memory, va: nat, u: nat, n: nat) {
    && Duo(m, va, u, n > 0) && va in m.pages && u !in m.pages && |m.pages[va].data| == PGSIZE && m.metas[0].dirty
    && (if n == 0 then !m.metas[0].inSwap else m.metas[0].inSwap && m.metas[0].slot == n - 1 && !m.metas[1].inSwap)
    && (forall s: nat | s < SLOTS :: m.slots[s] <==> s < n) && n * PGSIZE <= |m.swap|
  }

  // It is out, in slot n, and the page at u has its frame.
  ghost predicate Swapped(m: Memory, va: nat, u: nat, n: nat) {
    && Duo(m, va, u, true) && va !in m.pages && u in m.pages && !m.metas[0].dirty
    && m.metas[0].inSwap && m.metas[0].slot == n && !m.metas[1].inSwap
    && (forall s: nat | s < SLOTS :: m.slots[s] <==> s <= n) && (n + 1) * PGSIZE <= |m.swap|
  }

  lemma FirstAfter(slots: seq<bool>, n: nat)
    requires n < |slots| && forall s: nat | s < |slots| :: slots[s] <==> s < n
    ensures FirstFree(slots, 0) == n
  {
    var k := FirstFree(slots, 0);
    assert k < 0 || !slots[k];
    assert !slots[n];
  }

  lemma EvictTo(m: Memory, va: nat, n: nat, room: nat)
    requires Sized(m) && m.metas[0].va == va && m.metas[0].dirty && va in m.pages && |m.pages[va].data| == PGSIZE
    requires FirstFree(m.slots, 0) == n && n * PGSIZE <= |m.swap| <= MAXBYTES
    ensures if n < MAXHELD && room >= PGSIZE then
              var w := WriteAt(m.swap, n * PGSIZE, m.pages[va].data, room).0;
              && (n + 1) * PGSIZE <= |w| <= MAXBYTES
              && Evict(m, true, 0, room) == Step(true, Unmapped(m.(swap := w, slots := m.slots[n := true],
                                                                 metas := m.metas[0 := m.metas[0].(inSwap := true, slot := n)]), 0))
            else !Evict(m, true, 0, room).ok
  {
    hide FirstFree;
    WriteGrows(m.swap, n * PGSIZE, m.pages[va].data, room);
    if n < MAXHELD && room >= PGSIZE { WriteThere(m.swap, n, m.pages[va].data, room); }
  }

  // The page at u is touched.
  lemma OutAgain(prog: Program, m: Memory, va: nat, u: nat, n: nat, room: nat)
    requires Filled(m, va, u, n) && n < SLOTS && !InSeg(prog, u)
    ensures var f := Fault(prog, m, Fifo, true, u, Read, true, Tight(room));
            && f.ok == (n < MAXHELD && room >= PGSIZE)
            && (f.ok ==> Swapped(f.m, va, u, n))
  {
    hide AllocMeta, FirstFree, OldestOf, Evict, WriteAt;
    DuoFinds(m, va, u, n > 0);
    FirstAfter(m.slots, n);
    var m1 := if n > 0 then m else m.(metas := m.metas[1 := Fresh(u)]);
    OnlyVictim(m1, 0);
    EvictTo(m1, va, n, room);
    DuoFinds(m1, va, u, true);
  }

  // The page at va is read and written again. It keeps the slot.
  lemma BackAgain(prog: Program, m: Memory, va: nat, u: nat, n: nat, room: nat)
    requires Swapped(m, va, u, n) && !InSeg(prog, va)
    ensures var t := Fault(prog, m, Fifo, true, va, Read, true, Tight(room)).m;
            Sized(t) && Filled(Fault(prog, t, Fifo, true, va, Write, true, Ample()).m, va, u, n + 1)
  {
    hide AllocMeta, TryEvict;
    DuoFinds(m, va, u, true);
    Discards(m, 1, room);
    var t := Fault(prog, m, Fifo, true, va, Read, true, Tight(room)).m;
    DuoFinds(t, va, u, true);
  }

  lemma FilledLeaks(m: Memory, va: nat, u: nat, n: nat)
    requires Filled(m, va, u, n)
    ensures forall s: nat :: s in Leaked(m) <==> s + 1 < n && s < SLOTS
  {
    forall s: nat | s < SLOTS
      ensures Named(m.metas, s) <==> s + 1 == n
    {
      if s + 1 == n { assert m.metas[0].inSwap && m.metas[0].slot == s; }
    }
  }

  function Round(va: nat, u: nat, room: nat): seq<Event> {
    [Faults(u, Read, true, true, Tight(room)), Faults(va, Read, true, true, Tight(room)), Faults(va, Write, true, true, Ample())]
  }

  function Rounds(va: nat, u: nat, room: nat, n: nat): seq<Event> {
    if n == 0 then [] else Round(va, u, room) + Rounds(va, u, room, n - 1)
  }

  lemma {:induction false} RoundsFill(prog: Program, m: Memory, va: nat, u: nat, i: nat, n: nat, room: nat) returns (t: Memory)
    requires Filled(m, va, u, i) && Sized(m) && !InSeg(prog, va) && !InSeg(prog, u) && i + n <= MAXHELD && room >= PGSIZE
    ensures Lives(prog, m, Fifo, Rounds(va, u, room, n)) && t == End(prog, m, Fifo, Rounds(va, u, room, n))
    ensures Filled(t, va, u, i + n) && Sized(t)
    decreases n
  {
    hide Fault, Filled, Swapped;
    if n == 0 {
      t := m;
    } else {
      var touch, back, write := Faults(u, Read, true, true, Tight(room)), Faults(va, Read, true, true, Tight(room)), Faults(va, Write, true, true, Ample());
      OutAgain(prog, m, va, u, i, room);
      var m1 := Then(prog, m, Fifo, touch);
      SwappedSized(m1, va, u, i);
      BackAgain(prog, m1, va, u, i, room);
      var m2 := Then(prog, m1, Fifo, back);
      var m3 := Then(prog, m2, Fifo, write);
      FilledSized(m3, va, u, i + 1);
      t := RoundsFill(prog, m3, va, u, i + 1, n - 1, room);
      var more := Rounds(va, u, room, n - 1);
      LivesOn(prog, m2, write, more);
      LivesOn(prog, m1, back, [write] + more);
      LivesOn(prog, m, touch, [back] + ([write] + more));
      assert [touch] + ([back] + ([write] + more)) == Round(va, u, room) + more;
    }
  }

  lemma SwappedSized(m: Memory, va: nat, u: nat, n: nat)
    requires Swapped(m, va, u, n)
    ensures Sized(m)
  {
  }

  lemma FilledSized(m: Memory, va: nat, u: nat, n: nat)
    requires Filled(m, va, u, n)
    ensures Sized(m)
  {
  }

  // From exec, with two heap pages: every turn leaks one slot more. When there have been 67 the
  // swap file is full, 66 slots belong to nobody, and no page that was written can be evicted.
  lemma TwoPagesFillSwap(prog: Program, m: Memory, va: nat, u: nat, n: nat, room: nat) returns (t: Memory)
    requires Started(prog, m) && va != 0 && u != 0 && va != u && va !in m.pages && u !in m.pages
    requires !InSeg(prog, va) && !InSeg(prog, u) && n <= MAXHELD && room >= PGSIZE
    ensures var events := WriteEvents(va, false, 0, 1) + Rounds(va, u, room, n);
            Lives(prog, m, Fifo, events) && t == End(prog, m, Fifo, events)
    ensures forall s: nat :: s in Leaked(t) <==> s + 1 < n
    ensures Sized(t) && (n == MAXHELD ==> forall r: nat :: !Fault(prog, t, Fifo, true, u, Read, true, Tight(r)).ok)
  {
    hide Fault, Filled, Leaked, Zeros, Started;
    var w := WriteLives(prog, m, va, u, 0, 1);
    StartFills(prog, m, w, va, u);
    t := RoundsFill(prog, w, va, u, 0, n, room);
    LivesAppend(prog, m, WriteEvents(va, false, 0, 1), Rounds(va, u, room, n));
    FilledLeaks(t, va, u, n);
    if n == MAXHELD {
      forall r: nat ensures !Fault(prog, t, Fifo, true, u, Read, true, Tight(r)).ok { OutAgain(prog, t, va, u, n, r); }
    }
  }

  lemma StartFills(prog: Program, m: Memory, w: Memory, va: nat, u: nat)
    requires Started(prog, m) && Duo(w, va, u, false) && va in w.pages && |w.pages[va].data| == PGSIZE
    requires w.slots == m.slots && w.metas[0].dirty && !w.metas[0].inSwap
    ensures Filled(w, va, u, 0) && Sized(w)
  {
  }

  lemma {:induction false} LivesAppend(prog: Program, m: Memory, events: seq<Event>, more: seq<Event>)
    requires Lives(prog, m, Fifo, events) && Lives(prog, End(prog, m, Fifo, events), Fifo, more)
    ensures Lives(prog, m, Fifo, events + more) && End(prog, m, Fifo, events + more) == End(prog, End(prog, m, Fifo, events), Fifo, more)
    decreases |events|
  {
    hide Possible, Then;
    if events == [] {
      assert events + more == more;
    } else {
      LivesAppend(prog, Then(prog, m, Fifo, events[0]), events[1..], more);
      assert (events + more)[1..] == events[1..] + more;
    }
  }
}
