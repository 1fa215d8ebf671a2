// Runs from exec that reach what demand paging gets wrong.

module SwapReached {
  import opened Bytes
  import opened SwapModel
  import opened SwapSafety
  import opened SwapFault
  import opened SwapOrder
  import opened SwapRuns

  // The first entry handed out is entry 0.
  lemma FirstEntry(prog: Program, m: Memory, va: nat)
    requires Started(prog, m) && va != 0
    ensures |m.metas| == PGMETA_SIZE && AllocMeta(m.metas, va) == (m.metas[0 := Fresh(va)], 0)
    ensures Find(m.metas, va, 0) == -1 && FirstFree(m.slots, 0) == 0
  {
    assert m.metas[0] == Fresh(0) && !m.slots[0];
    assert Find(m.metas, 0, 0) == 0;
  }

  lemma LoadFirst(prog: Program, m: Memory, va: nat)
    requires Started(prog, m) && va != 0 && InSeg(prog, va) && Readable(prog, va)
    ensures Ready(prog, m, Load(va))
    ensures var t := Next(prog, m, Load(va));
            Sized(t) && Resident(t.metas[0]) && t.metas[0].referenced && forall i | 1 <= i < |t.metas| :: t.metas[i] == Fresh(0)
  {
    hide AllocMeta, Original, Readable;
    FirstEntry(prog, m, va);
    NothingSwapped(prog, m, va);
  }

  // With memory to spare, and when every page has to come from another one.
  function Ample(): Luck { Luck(true, true, 0, true) }
  function Tight(room: nat): Luck { Luck(false, true, room, true) }

  // Entry 0 is for the page at va, and entry 1, when it is in use, for a heap page at u that
  // has not been written; no other entry is in use.
  ghost predicate Duo(m: Memory, va: nat, u: nat, both: bool) {
    && Sized(m) && va != 0 && u != 0 && va != u && m.metas[0].va == va
    && (m.metas[0].resident <==> va in m.pages)
    && (if both then m.metas[1].va == u && !m.metas[1].dirty && (m.metas[1].resident <==> u in m.pages)
        else m.metas[1] == Fresh(0) && u !in m.pages)
    && (forall i | 2 <= i < |m.metas| :: m.metas[i] == Fresh(0))
    && (u in m.pages ==> !m.pages[u].w) && |m.swap| <= MAXBYTES
  }

  lemma DuoFinds(m: Memory, va: nat, u: nat, both: bool)
    requires Duo(m, va, u, both)
    ensures Find(m.metas, va, 0) == 0 && AllocMeta(m.metas, va) == (m.metas, 0)
    ensures if both then Find(m.metas, u, 0) == 1 && AllocMeta(m.metas, u) == (m.metas, 1)
            else Find(m.metas, u, 0) == -1 && AllocMeta(m.metas, u) == (m.metas[1 := Fresh(u)], 1)
  {
    assert !both ==> Find(m.metas, 0, 0) == 1;
  }

  // FIFO takes the only page there is.
  lemma OnlyVictim(m: Memory, b: nat)
    requires b < |m.metas| && Resident(m.metas[b]) && forall i | 0 <= i < |m.metas| && i != b :: !Resident(m.metas[i])
    ensures OldestOf(m.metas, m.ctr, |m.metas|) == b
  {
  }

  // A read brings in the first page of all.
  lemma FirstIn(prog: Program, m: Memory, va: nat, u: nat, hasSwap: bool)
    requires Started(prog, m) && va != 0 && u != 0 && va != u && va !in m.pages && u !in m.pages
    requires InSeg(prog, va) ==> Readable(prog, va)
    ensures var t := Fault(prog, m, Fifo, hasSwap, va, Read, !InSeg(prog, va), Ample()).m;
            && Duo(t, va, u, false) && va in t.pages && !t.metas[0].inSwap && t.slots == m.slots && FirstFree(t.slots, 0) == 0
            && (if InSeg(prog, va) then
                  var g := SegAt(prog, va);
                  t.metas[0].perm == Perm(g.w, g.x) && t.pages[va] == Frame(Original(prog, va), g.w, g.x)
                else t.pages[va] == Frame(Zeros(), false, false))
  {
    hide AllocMeta, Original, Readable;
    FirstEntry(prog, m, va);
    if InSeg(prog, va) { NothingSwapped(prog, m, va); }
  }

  // The process is let write it, and does.
  lemma ThenWritten(prog: Program, m: Memory, va: nat, u: nat, hasSwap: bool, k: nat, x: byte)
    requires Duo(m, va, u, false) && va in m.pages && !m.pages[va].w && k < |m.pages[va].data|
    ensures var f, m1 := m.pages[va], Fault(prog, m, Fifo, hasSwap, va, Write, true, Ample()).m;
            && Sized(m1) && Ready(prog, m1, Put(va, k, x))
            && var t := Next(prog, m1, Put(va, k, x));
            && Duo(t, va, u, false) && t.metas[0] == m.metas[0].(dirty := true, referenced := true)
            && t.pages[va] == Frame(f.data[k := x], true, f.x) && va in t.pages && t.slots == m.slots
  {
    hide AllocMeta;
    DuoFinds(m, va, u, false);
  }

  // The heap page at u takes its frame: it is swapped out.
  lemma ThenSwappedOut(prog: Program, m: Memory, va: nat, u: nat, room: nat)
    requires Duo(m, va, u, false) && va in m.pages && m.metas[0].dirty && |m.pages[va].data| == PGSIZE
    requires FirstFree(m.slots, 0) == 0 && !InSeg(prog, u) && room >= PGSIZE
    ensures var t := Fault(prog, m, Fifo, true, u, Read, true, Tight(room)).m;
            && Duo(t, va, u, true) && va !in t.pages && u in t.pages
            && t.metas[0] == m.metas[0].(resident := false, dirty := false, inSwap := true, slot := 0)
            && ReadAt(t.swap, 0, PGSIZE) == m.pages[va].data
  {
    hide AllocMeta, ReadAt, WriteAt, FirstFree, OldestOf, Evict;
    DuoFinds(m, va, u, false);
    var m1 := m.(metas := m.metas[1 := Fresh(u)]);
    OnlyVictim(m1, 0);
    SwapOutZero(m1, va, room);
    DuoFinds(m1, va, u, true);
  }

  lemma SwapOutZero(m: Memory, va: nat, room: nat)
    requires Sized(m) && m.metas[0].va == va && m.metas[0].dirty && va in m.pages && |m.pages[va].data| == PGSIZE
    requires FirstFree(m.slots, 0) == 0 && room >= PGSIZE && |m.swap| <= MAXBYTES
    ensures var w := WriteAt(m.swap, 0, m.pages[va].data, room).0;
            && ReadAt(w, 0, PGSIZE) == m.pages[va].data && |w| <= MAXBYTES
            && Evict(m, true, 0, room) == Step(true, Unmapped(m.(swap := w, slots := m.slots[0 := true],
                                                               metas := m.metas[0 := m.metas[0].(inSwap := true, slot := 0)]), 0))
  {
    hide FirstFree;
    WriteThere(m.swap, 0, m.pages[va].data, room);
    WriteGrows(m.swap, 0, m.pages[va].data, room);
  }

  // One of the two pages takes the frame of the other, which has not been written since it
  // came in and is dropped.
  lemma Discards(m: Memory, b: nat, room: nat)
    requires b < |m.metas| && Sized(m) && Resident(m.metas[b]) && !m.metas[b].dirty && m.metas[b].va in m.pages && !m.pages[m.metas[b].va].w
    requires forall i | 0 <= i < |m.metas| && i != b :: !Resident(m.metas[i])
    ensures TryEvict(m, Fifo, true, room) == Step(true, Unmapped(m, b))
  {
    OnlyVictim(m, b);
  }

  // The page at va comes back from swap, as its segment would have it: not to be written.
  lemma ThenBackIn(prog: Program, m: Memory, va: nat, u: nat, room: nat)
    requires Duo(m, va, u, true) && InSeg(prog, va) && va !in m.pages && u in m.pages && !m.metas[0].dirty
    requires m.metas[0].inSwap && m.metas[0].slot == 0 && |ReadAt(m.swap, 0, PGSIZE)| == PGSIZE && m.metas[0].perm.Perm? && !m.metas[0].perm.w
    ensures var t := Fault(prog, m, Fifo, true, va, Read, false, Tight(room)).m;
            && Duo(t, va, u, true) && va in t.pages && u !in t.pages && !t.metas[0].dirty && !t.metas[0].inSwap && !t.pages[va].w
  {
    hide AllocMeta, ReadAt, TryEvict;
    DuoFinds(m, va, u, true);
    Discards(m, 1, room);
  }

  // It is dropped in its turn.
  lemma ThenDropped(prog: Program, m: Memory, va: nat, u: nat, room: nat)
    requires Duo(m, va, u, true) && va in m.pages && u !in m.pages && !InSeg(prog, u)
    requires !m.metas[0].dirty && !m.metas[0].inSwap && !m.pages[va].w
    ensures var t := Fault(prog, m, Fifo, true, u, Read, true, Tight(room)).m;
            Duo(t, va, u, true) && va !in t.pages && !t.metas[0].inSwap
  {
    hide AllocMeta, TryEvict;
    DuoFinds(m, va, u, true);
    Discards(m, 0, room);
  }

  // And read again from the program file.
  lemma ThenReadAgain(prog: Program, m: Memory, va: nat, u: nat)
    requires Duo(m, va, u, true) && InSeg(prog, va) && Readable(prog, va) && va !in m.pages && !m.metas[0].inSwap
    ensures var t := Fault(prog, m, Fifo, true, va, Read, false, Ample()).m; va in t.pages && t.pages[va].data == Original(prog, va)
  {
    hide AllocMeta, Original, Readable;
    DuoFinds(m, va, u, true);
  }

  // A heap page comes in again with nothing in it.
  lemma ThenZero(prog: Program, m: Memory, va: nat, u: nat, room: nat)
    requires Duo(m, va, u, true) && !InSeg(prog, va) && va !in m.pages && u in m.pages
    ensures var t := Fault(prog, m, Fifo, true, va, Read, true, Tight(room)).m; va in t.pages && t.pages[va].data == Zeros()
  {
    hide AllocMeta, TryEvict;
    DuoFinds(m, va, u, true);
    Discards(m, 1, room);
  }

  lemma LivesOn(prog: Program, m: Memory, e: Event, events: seq<Event>)
    requires Possible(prog, m, e) && Lives(prog, Then(prog, m, Fifo, e), Fifo, events)
    ensures Lives(prog, m, Fifo, [e] + events) && End(prog, m, Fifo, [e] + events) == End(prog, Then(prog, m, Fifo, e), Fifo, events)
  {
    hide Possible, Then;
    assert ([e] + events)[1..] == events;
  }

  // The process reads a page and then stores a byte in it.
  function WriteEvents(va: nat, seg: bool, k: nat, x: byte): seq<Event> {
    [Faults(va, Read, !seg, true, Ample()), Faults(va, Write, true, true, Ample()), Does(Put(va, k, x))]
  }

  lemma WriteLives(prog: Program, m: Memory, va: nat, u: nat, k: nat, x: byte) returns (w: Memory)
    requires Started(prog, m) && va != 0 && u != 0 && va != u && va !in m.pages && u !in m.pages && k < PGSIZE
    requires InSeg(prog, va) ==> Readable(prog, va) && !SegAt(prog, va).w
    ensures var events, page := WriteEvents(va, InSeg(prog, va), k, x), if InSeg(prog, va) then Original(prog, va) else Zeros();
            && Lives(prog, m, Fifo, events) && w == End(prog, m, Fifo, events)
            && Duo(w, va, u, false) && va in w.pages && w.pages[va].data == page[k := x] && w.slots == m.slots && FirstFree(w.slots, 0) == 0
            && w.metas[0].dirty && !w.metas[0].inSwap
            && (InSeg(prog, va) ==> w.metas[0].perm == Perm(false, SegAt(prog, va).x))
  {
    hide Fault, Next, Ready, Duo, Original, Zeros, Readable;
    var e1, e2, e3 := Faults(va, Read, !InSeg(prog, va), true, Ample()), Faults(va, Write, true, true, Ample()), Does(Put(va, k, x));
    FirstIn(prog, m, va, u, true);
    var m1 := Then(prog, m, Fifo, e1);
    DuoSized(m1, va, u, false);
    ThenWritten(prog, m1, va, u, true, k, x);
    var m2 := Then(prog, m1, Fifo, e2);
    w := Then(prog, m2, Fifo, e3);
    LivesOn(prog, m2, e3, []);
    LivesOn(prog, m1, e2, [e3]);
    LivesOn(prog, m, e1, [e2, e3]);
    assert [e1] + [e2, e3] == WriteEvents(va, InSeg(prog, va), k, x);
  }

  lemma DuoSized(m: Memory, va: nat, u: nat, both: bool)
    requires Duo(m, va, u, both)
    ensures Sized(m)
  {
  }

  // A run from exec that loses a store. The process reads a page of its program text, with the
  // stack pointer just above it writes to it, and touches a heap page when memory is short,
  // the text again, and the heap page again. Then it reads the text as it was at first.
  lemma TextStoreIsLost(prog: Program, m: Memory, va: nat, u: nat, k: nat, x: byte, room: nat) returns (w: Memory, t: Memory)
    requires Started(prog, m) && va != 0 && InSeg(prog, va) && !SegAt(prog, va).w && Readable(prog, va)
    requires u != 0 && !InSeg(prog, u) && u !in m.pages
    requires k < PGSIZE && x != Original(prog, va)[k] && room >= PGSIZE
    ensures var early := WriteEvents(va, true, k, x);
            && Lives(prog, m, Fifo, early) && w == End(prog, m, Fifo, early)
            && va in w.pages && w.pages[va].data == Original(prog, va)[k := x]
    ensures var touch := Faults(u, Read, true, true, Tight(room));
            var late := [touch, Faults(va, Read, false, true, Tight(room)), touch, Faults(va, Read, false, true, Ample())];
            && Lives(prog, w, Fifo, late) && t == End(prog, w, Fifo, late)
            && va in t.pages && t.pages[va].data == Original(prog, va) != Original(prog, va)[k := x]
  {
    hide Fault, Next, Ready, Duo, Original, Readable, ReadAt;
    NothingSwapped(prog, m, va);
    w := WriteLives(prog, m, va, u, k, x);
    DuoSized(w, va, u, false);
    var touch, back, again := Faults(u, Read, true, true, Tight(room)), Faults(va, Read, false, true, Tight(room)), Faults(va, Read, false, true, Ample());
    ThenSwappedOut(prog, w, va, u, room);
    var w1 := Then(prog, w, Fifo, touch);
    DuoSized(w1, va, u, true);
    ThenBackIn(prog, w1, va, u, room);
    var w2 := Then(prog, w1, Fifo, back);
    DuoSized(w2, va, u, true);
    ThenDropped(prog, w2, va, u, room);
    var w3 := Then(prog, w2, Fifo, touch);
    DuoSized(w3, va, u, true);
    ThenReadAgain(prog, w3, va, u);
    t := Then(prog, w3, Fifo, again);
    LivesOn(prog, w3, again, []);
    LivesOn(prog, w2, touch, [again]);
    LivesOn(prog, w1, back, [touch, again]);
    LivesOn(prog, w, touch, [back, touch, again]);
    assert [touch] + [back, touch, again] == [touch, back, touch, again];
  }

  // A run from exec after which a heap page that was written is zero again: it is touched when
  // another heap page has taken its frame.
  lemma HeapStoreIsLost(prog: Program, m: Memory, va: nat, u: nat, k: nat, x: byte, room: nat) returns (w: Memory, t: Memory)
    requires Started(prog, m) && va != 0 && !InSeg(prog, va) && va !in m.pages && k < PGSIZE && x != 0 && room >= PGSIZE
    requires u != 0 && u != va && !InSeg(prog, u) && u !in m.pages
    ensures var early := WriteEvents(va, false, k, x);
            && Lives(prog, m, Fifo, early) && w == End(prog, m, Fifo, early)
            && va in w.pages && w.pages[va].data == Zeros()[k := x]
    ensures var late := [Faults(u, Read, true, true, Tight(room)), Faults(va, Read, true, true, Tight(room))];
            && Lives(prog, w, Fifo, late) && t == End(prog, w, Fifo, late)
            && va in t.pages && t.pages[va].data == Zeros() != Zeros()[k := x]
  {
    hide Fault, Next, Ready, Duo, ReadAt;
    w := WriteLives(prog, m, va, u, k, x);
    DuoSized(w, va, u, false);
    var touch, back := Faults(u, Read, true, true, Tight(room)), Faults(va, Read, true, true, Tight(room));
    ThenSwappedOut(prog, w, va, u, room);
    var w1 := Then(prog, w, Fifo, touch);
    DuoSized(w1, va, u, true);
    ThenZero(prog, w1, va, u, room);
    t := Then(prog, w1, Fifo, back);
    LivesOn(prog, w1, back, []);
    LivesOn(prog, w, touch, [back]);
    assert [touch] + [back] == [touch, back];
    assert Zeros()[k := x][k] == x;
  }

  // After the first page-in since exec the clock finds no victim, and on the next try does.
  lemma FirstScanFails(prog: Program, m: Memory, va: nat, hasSwap: bool, room: nat)
    requires Started(prog, m) && va != 0 && InSeg(prog, va) && Readable(prog, va)
    ensures Run(prog, m, [Load(va)], LoadSeg(prog, m, va))
    ensures var t := LoadSeg(prog, m, va);
            && Sized(t) && !TryEvict(t, Clock, hasSwap, room).ok
            && var u := TryEvict(t, Clock, hasSwap, room).m; Sweep(u.metas, u.hand % PGMETA_SIZE, 0) < PGMETA_SIZE
  {
    hide Ready, Next, TryEvict, Sweep, Evict;
    LoadFirst(prog, m, va);
    RunOne(prog, m, Load(va));
    assert Next(prog, m, Load(va)) == LoadSeg(prog, m, va) by { LoadIsNext(prog, m, va); }
    var t := LoadSeg(prog, m, va);
    forall i | 0 <= i < |t.metas| && Resident(t.metas[i]) ensures t.metas[i].referenced {}
    assert Resident(t.metas[0]);
    ClockFailsOnce(t, hasSwap, room);
  }

  lemma LoadIsNext(prog: Program, m: Memory, va: nat)
    requires Ready(prog, m, Load(va))
    ensures Next(prog, m, Load(va)) == LoadSeg(prog, m, va)
  {
  }
}
