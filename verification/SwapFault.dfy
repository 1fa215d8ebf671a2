// Choosing a victim, and a whole page fault, as functions of the process's memory.

module SwapFault {
  import opened Bytes
  import opened SwapModel
  import opened SwapSafety

  datatype Policy = Fifo | Clock

  // FIFO's loop over the first n entries: -1 if none is resident.
  function OldestOf(metas: seq<Meta>, now: nat, n: nat): (b: int)
    requires n <= |metas|
    ensures -1 <= b < n && (b >= 0 ==> IsOldest(metas, now, n, b))
    ensures b == -1 ==> forall j | 0 <= j < n :: !Resident(metas[j])
  {
    if n == 0 then -1
    else
      var b := OldestOf(metas, now, n - 1);
      if Resident(metas[n - 1]) && (b < 0 || Age(metas[n - 1], now) > Age(metas[b], now)) then n - 1 else b
  }

  // The entry d places after the hand.
  function Under(start: nat, d: nat): nat { (start + d) % PGMETA_SIZE }

  lemma UnderHand(start: nat, i: nat)
    requires start < PGMETA_SIZE && i < PGMETA_SIZE
    ensures (i - start) % PGMETA_SIZE < PGMETA_SIZE && Under(start, (i - start) % PGMETA_SIZE) == i
  {
  }

  lemma UnderDistance(start: nat, d: nat)
    requires start < PGMETA_SIZE && d < PGMETA_SIZE
    ensures (Under(start, d) - start) % PGMETA_SIZE == d
  {
  }

  // How far the hand goes to the first resident entry that is not referenced: all the way
  // around if there is none.
  function Sweep(metas: seq<Meta>, start: nat, d: nat): (r: nat)
    requires |metas| == PGMETA_SIZE && d <= PGMETA_SIZE
    ensures d <= r <= PGMETA_SIZE
    ensures r < PGMETA_SIZE ==> Resident(metas[Under(start, r)]) && !metas[Under(start, r)].referenced
    ensures forall e | d <= e < r :: Resident(metas[Under(start, e)]) ==> metas[Under(start, e)].referenced
    decreases PGMETA_SIZE - d
  {
    if d == PGMETA_SIZE then d
    else if Resident(metas[Under(start, d)]) && !metas[Under(start, d)].referenced then d
    else Sweep(metas, start, d + 1)
  }

  // try_evict_one
  function TryEvict(m: Memory, policy: Policy, hasSwap: bool, room: nat): (r: Step)
    requires Sized(m)
    ensures Sized(r.m)
  {
    if policy.Fifo? then
      var b := OldestOf(m.metas, m.ctr, |m.metas|);
      if b < 0 then Step(false, m) else Evict(m, hasSwap, b, room)
    else
      var start := m.hand % PGMETA_SIZE;
      var d := Sweep(m.metas, start, 0);
      var p := m.(metas := Passed(m.metas, start, d));
      if d == PGMETA_SIZE then Step(false, p) else Evict(p, hasSwap, Under(start, d), room)
  }

  // What a fault depends on besides the process: whether kalloc succeeds, and again after an
  // eviction, how much the disk takes, and whether mappages finds memory.
  datatype Luck = Luck(mem: bool, again: bool, room: nat, maps: bool)

  // kalloc_or_evict
  function GetFrame(m: Memory, policy: Policy, hasSwap: bool, luck: Luck): (r: Step)
    requires Sized(m)
    ensures Sized(r.m)
  {
    if luck.mem then Step(true, m)
    else
      var e := TryEvict(m, policy, hasSwap, luck.room);
      Step(e.ok && luck.again, e.m)
  }

  datatype Access = Read | Write | Execute

  // vmfault at a page that is mapped
  function FaultMapped(prog: Program, m: Memory, va: nat, access: Access, anon: bool): Step
    requires va in m.pages
  {
    var f := m.pages[va];
    var seg := InSeg(prog, va);
    if access.Write? && !f.w && (anon || (seg && SegAt(prog, va).w)) then Step(true, GiveWrite(m, va))
    else if access.Execute? && !f.x && seg && SegAt(prog, va).x then
      Step(true, m.(pages := m.pages[va := f.(x := true)]))
    else Step(false, m)
  }

  // vmfault at a page of a segment; k is its entry, or -1
  function FaultSeg(prog: Program, m: Memory, va: nat, access: Access, k: int, got: Step, luck: Luck): Step
    requires InSeg(prog, va) && k < |m.metas| == |got.m.metas|
  {
    if k >= 0 && m.metas[k].inSwap then
      if got.ok && |ReadAt(got.m.swap, got.m.metas[k].slot * PGSIZE, PGSIZE)| == PGSIZE && luck.maps
      then Step(true, SwapIn(prog, got.m, va, k))
      else Step(false, got.m)
    else if got.ok && Readable(prog, va) && (access.Execute? ==> SegAt(prog, va).x) && luck.maps
    then Step(true, LoadSeg(prog, got.m, va))
    else Step(false, got.m)
  }

  // vmfault. anon: the page is in the heap, or is the one below the stack pointer.
  function Fault(prog: Program, m: Memory, policy: Policy, hasSwap: bool, va: nat, access: Access, anon: bool, luck: Luck): Step
    requires Sized(m)
  {
    if va in m.pages then FaultMapped(prog, m, va, access, anon)
    else if InSeg(prog, va) then
      FaultSeg(prog, m, va, access, Find(m.metas, va, 0), GetFrame(m, policy, hasSwap, luck), luck)
    else if anon then
      var a := AllocMeta(m.metas, va);
      var got := GetFrame(m.(metas := a.0), policy, hasSwap, luck);
      if got.ok && luck.maps then Step(true, LoadZero(got.m, va, a.1)) else Step(false, got.m)
    else Step(false, m)
  }

  // The steps an eviction and a fault are made of.
  function EvictActs(m: Memory, policy: Policy, hasSwap: bool, room: nat): seq<Act>
    requires Sized(m)
  {
    if policy.Fifo? then
      var b := OldestOf(m.metas, m.ctr, |m.metas|);
      if b < 0 then [] else [Out(b, hasSwap, room)]
    else
      var start := m.hand % PGMETA_SIZE;
      var d := Sweep(m.metas, start, 0);
      if d == PGMETA_SIZE then [Pass(start, d)] else [Pass(start, d), Out(Under(start, d), hasSwap, room)]
  }

  function FrameActs(m: Memory, policy: Policy, hasSwap: bool, luck: Luck): seq<Act>
    requires Sized(m)
  {
    if luck.mem then [] else EvictActs(m, policy, hasSwap, luck.room)
  }

  function FaultActs(prog: Program, m: Memory, policy: Policy, hasSwap: bool, va: nat, access: Access, anon: bool, luck: Luck): seq<Act>
    requires Sized(m)
  {
    var f := Fault(prog, m, policy, hasSwap, va, access, anon, luck);
    if va in m.pages then (if f.ok && access.Write? then [MayWrite(va)] else [])
    else if InSeg(prog, va) then
      var k := Find(m.metas, va, 0);
      FrameActs(m, policy, hasSwap, luck)
      + (if !f.ok then [] else if k >= 0 && m.metas[k].inSwap then [In(va, k)] else [Load(va)])
    else if anon then
      var a := AllocMeta(m.metas, va);
      [Enter(va)] + FrameActs(m.(metas := a.0), policy, hasSwap, luck) + (if f.ok then [Zero(va, a.1)] else [])
    else []
  }

  lemma {:induction false} RunOn(prog: Program, m: Memory, acts: seq<Act>, t: Memory, more: seq<Act>, u: Memory)
    requires Run(prog, m, acts, t) && Run(prog, t, more, u)
    ensures Run(prog, m, acts + more, u)
    decreases |acts|
  {
    hide Ready, Next;
    if acts == [] {
      assert acts + more == more;
    } else {
      RunOn(prog, Next(prog, m, acts[0]), acts[1..], t, more, u);
      assert (acts + more)[1..] == acts[1..] + more;
    }
  }

  lemma RunOne(prog: Program, m: Memory, a: Act)
    requires Ready(prog, m, a)
    ensures Run(prog, m, [a], Next(prog, m, a))
  {
    hide Ready, Next;
    assert [a][1..] == [];
  }

  lemma PassedResident(metas: seq<Meta>, start: nat, d: nat, i: nat)
    requires i < |metas|
    ensures Passed(metas, start, d)[i].va == metas[i].va && (Resident(Passed(metas, start, d)[i]) <==> Resident(metas[i]))
  {
  }

  lemma EvictIsRun(prog: Program, m: Memory, policy: Policy, hasSwap: bool, room: nat)
    requires Sized(m)
    ensures Run(prog, m, EvictActs(m, policy, hasSwap, room), TryEvict(m, policy, hasSwap, room).m)
  {
    hide Run, Evict, Passed, Sweep, OldestOf;
    if policy.Fifo? {
      var b := OldestOf(m.metas, m.ctr, |m.metas|);
      if b < 0 { RunNone(prog, m); } else { RunOne(prog, m, Out(b, hasSwap, room)); }
    } else {
      var start := m.hand % PGMETA_SIZE;
      var d := Sweep(m.metas, start, 0);
      RunOne(prog, m, Pass(start, d));
      if d < PGMETA_SIZE {
        var b := Under(start, d);
        PassedResident(m.metas, start, d, b);
        var p := Next(prog, m, Pass(start, d));
        RunOne(prog, p, Out(b, hasSwap, room));
        RunOn(prog, m, [Pass(start, d)], p, [Out(b, hasSwap, room)], Next(prog, p, Out(b, hasSwap, room)));
        assert [Pass(start, d)] + [Out(b, hasSwap, room)] == [Pass(start, d), Out(b, hasSwap, room)];
      }
    }
  }

  lemma RunNone(prog: Program, m: Memory)
    ensures Run(prog, m, [], m)
  {
  }

  // What stays the same when a frame has been found, by eviction or not.
  ghost predicate Kept(m: Memory, t: Memory, va: nat) {
    && |t.metas| == |m.metas| && (va !in m.pages ==> va !in t.pages)
    && (forall i | 0 <= i < |m.metas| :: t.metas[i].va == m.metas[i].va)
    && (forall i | 0 <= i < |m.metas| && m.metas[i].va == va :: t.metas[i].inSwap == m.metas[i].inSwap)
  }

  lemma EvictKeeps(m: Memory, policy: Policy, hasSwap: bool, room: nat, va: nat)
    requires Sized(m) && va !in m.pages
    requires TryEvict(m, policy, hasSwap, room).ok
    ensures Kept(m, TryEvict(m, policy, hasSwap, room).m, va)
  {
    hide WriteAt, Sweep, OldestOf;
  }

  lemma FrameIsRun(prog: Program, m: Memory, policy: Policy, hasSwap: bool, luck: Luck)
    requires Sized(m)
    ensures Run(prog, m, FrameActs(m, policy, hasSwap, luck), GetFrame(m, policy, hasSwap, luck).m)
    ensures forall va | va !in m.pages && GetFrame(m, policy, hasSwap, luck).ok :: Kept(m, GetFrame(m, policy, hasSwap, luck).m, va)
  {
    hide TryEvict, EvictActs, Run;
    if luck.mem {
      RunNone(prog, m);
    } else {
      EvictIsRun(prog, m, policy, hasSwap, luck.room);
      forall va | va !in m.pages && GetFrame(m, policy, hasSwap, luck).ok
        ensures Kept(m, GetFrame(m, policy, hasSwap, luck).m, va)
      {
        EvictKeeps(m, policy, hasSwap, luck.room, va);
      }
    }
  }

  lemma SegFaultIsRun(prog: Program, m: Memory, policy: Policy, hasSwap: bool, va: nat, access: Access, anon: bool, luck: Luck)
    requires Sized(m) && va !in m.pages && InSeg(prog, va)
    ensures Run(prog, m, FaultActs(prog, m, policy, hasSwap, va, access, anon, luck), Fault(prog, m, policy, hasSwap, va, access, anon, luck).m)
  {
    hide Run, GetFrame, FrameActs, Kept, AllocMeta, SwapIn, LoadSeg, LoadZero, Readable;
    var k := Find(m.metas, va, 0);
    FrameIsRun(prog, m, policy, hasSwap, luck);
    var got := GetFrame(m, policy, hasSwap, luck);
    var f := Fault(prog, m, policy, hasSwap, va, access, anon, luck);
    var acts := FrameActs(m, policy, hasSwap, luck);
    if f.ok {
      KeptFind(m, got.m, va);
      var last := if k >= 0 && m.metas[k].inSwap then In(va, k) else Load(va);
      RunOne(prog, got.m, last);
      RunOn(prog, m, acts, got.m, [last], f.m);
    } else {
      assert acts + [] == acts;
    }
  }

  lemma AnonFaultIsRun(prog: Program, m: Memory, policy: Policy, hasSwap: bool, va: nat, access: Access, luck: Luck)
    requires Sized(m) && Distinct(m.metas) && va !in m.pages && !InSeg(prog, va)
    ensures Run(prog, m, FaultActs(prog, m, policy, hasSwap, va, access, true, luck), Fault(prog, m, policy, hasSwap, va, access, true, luck).m)
  {
    hide Run, GetFrame, FrameActs, Kept, AllocMeta, SwapIn, LoadSeg, LoadZero, Readable, Distinct;
    var a := AllocMeta(m.metas, va);
    var e := m.(metas := a.0);
    AllocKeeps(m.metas, va);
    FrameIsRun(prog, e, policy, hasSwap, luck);
    var got := GetFrame(e, policy, hasSwap, luck);
    var acts := FrameActs(e, policy, hasSwap, luck);
    RunOne(prog, m, Enter(va));
    RunOn(prog, m, [Enter(va)], e, acts, got.m);
    var f := Fault(prog, m, policy, hasSwap, va, access, true, luck);
    if f.ok {
      KeptFind(e, got.m, va);
      assert Find(e.metas, va, 0) == a.1;
      RunOne(prog, got.m, Zero(va, a.1));
      RunOn(prog, m, [Enter(va)] + acts, got.m, [Zero(va, a.1)], f.m);
    } else {
      assert [Enter(va)] + acts + [] == [Enter(va)] + acts;
    }
  }

  // Every fault is a run of the machine's steps, so what holds of all runs holds of faults.
  lemma FaultIsRun(prog: Program, m: Memory, bad: set<nat>, policy: Policy, hasSwap: bool, va: nat, access: Access, anon: bool, luck: Luck)
    requires Inv(prog, m, bad)
    ensures Run(prog, m, FaultActs(prog, m, policy, hasSwap, va, access, anon, luck), Fault(prog, m, policy, hasSwap, va, access, anon, luck).m)
  {
    hide Distinct, Slotted, BadOk, PageOk, EntryOk, Run, GetFrame, FrameActs, AllocMeta, FaultMapped, FaultSeg;
    if va in m.pages {
      UpgradeIsStep(prog, m, bad, va, access, anon);
    } else if InSeg(prog, va) {
      SegFaultIsRun(prog, m, policy, hasSwap, va, access, anon, luck);
    } else if anon {
      AnonFaultIsRun(prog, m, policy, hasSwap, va, access, luck);
    } else {
      RunNone(prog, m);
    }
  }

  lemma KeptFind(m: Memory, t: Memory, va: nat)
    requires Kept(m, t, va) && va !in m.pages
    ensures |t.metas| == |m.metas| && va !in t.pages && Find(t.metas, va, 0) == Find(m.metas, va, 0)
    ensures Find(m.metas, va, 0) >= 0 ==> t.metas[Find(m.metas, va, 0)].inSwap == m.metas[Find(m.metas, va, 0)].inSwap
  {
  }

  // A mapped page of a segment never needs more than the segment allows it; only heap and
  // stack pages are upgraded, and what vmfault takes for them.
  lemma UpgradeIsStep(prog: Program, m: Memory, bad: set<nat>, va: nat, access: Access, anon: bool)
    requires Inv(prog, m, bad) && va in m.pages
    ensures var f := FaultMapped(prog, m, va, access, anon);
            Run(prog, m, if f.ok && access.Write? then [MayWrite(va)] else [], f.m)
    ensures FaultMapped(prog, m, va, access, anon).ok ==> access.Write? && anon
  {
    hide Distinct, Slotted, EntryOk, Run, GiveWrite;
    assert PageOk(prog, m, bad, va);
    RunNone(prog, m);
    if FaultMapped(prog, m, va, access, anon).ok {
      RunOne(prog, m, MayWrite(va));
    }
  }

  predicate NoStore(acts: seq<Act>) { forall i | 0 <= i < |acts| :: !acts[i].Put? }

  lemma {:induction false} StoredNone(page: seq<byte>, acts: seq<Act>, va: nat)
    requires NoStore(acts)
    ensures Stored(page, acts, va) == page
    decreases |acts|
  {
    if acts != [] {
      assert !acts[0].Put?;
      StoredNone(page, acts[1..], va);
    }
  }

  lemma {:induction false} SpoiledNone(prog: Program, acts: seq<Act>)
    requires forall i | 0 <= i < |acts| :: !acts[i].MayWrite?
    ensures SpoiledBy(prog, acts) == {}
  {
    if acts != [] {
      assert !acts[0].MayWrite?;
      SpoiledNone(prog, acts[1..]);
    }
  }

  lemma FrameActsPlain(m: Memory, policy: Policy, hasSwap: bool, luck: Luck)
    requires Sized(m)
    ensures var acts := FrameActs(m, policy, hasSwap, luck);
            forall i | 0 <= i < |acts| :: acts[i].Out? || acts[i].Pass?
  {
  }

  lemma FaultActsPlain(prog: Program, m: Memory, policy: Policy, hasSwap: bool, va: nat, access: Access, anon: bool, luck: Luck)
    requires Sized(m)
    ensures var acts := FaultActs(prog, m, policy, hasSwap, va, access, anon, luck);
            NoStore(acts) && (va !in m.pages ==> forall i | 0 <= i < |acts| :: !acts[i].MayWrite?)
  {
    hide FrameActs, Fault;
    FrameActsPlain(m, policy, hasSwap, luck);
    FrameActsPlain(m.(metas := AllocMeta(m.metas, va).0), policy, hasSwap, luck);
  }

  // A fault at a page that is not mapped changes the bytes of no segment page, whatever it
  // evicts to make room.
  lemma FaultKeepsViews(prog: Program, m: Memory, bad: set<nat>, policy: Policy, hasSwap: bool, va: nat, access: Access, anon: bool, luck: Luck, u: nat)
    requires Inv(prog, m, bad) && va !in m.pages && InSeg(prog, u) && u !in bad
    ensures var f := Fault(prog, m, policy, hasSwap, va, access, anon, luck);
            Inv(prog, f.m, bad) && View(prog, f.m, u) == View(prog, m, u)
  {
    hide Distinct, Slotted, BadOk, PageOk, EntryOk, Run, Fault, FaultActs, View;
    var acts := FaultActs(prog, m, policy, hasSwap, va, access, anon, luck);
    var t := Fault(prog, m, policy, hasSwap, va, access, anon, luck).m;
    FaultIsRun(prog, m, bad, policy, hasSwap, va, access, anon, luck);
    FaultActsPlain(prog, m, policy, hasSwap, va, access, anon, luck);
    SpoiledNone(prog, acts);
    assert bad + {} == bad;
    RunKeepsInv(prog, m, bad, acts, t);
    RunKeepsView(prog, m, bad, acts, t, u);
    StoredNone(View(prog, m, u), acts, u);
  }

  lemma FaultMaps(prog: Program, m: Memory, bad: set<nat>, policy: Policy, hasSwap: bool, va: nat, access: Access, anon: bool, luck: Luck)
    requires Inv(prog, m, bad) && va !in m.pages
    ensures var f := Fault(prog, m, policy, hasSwap, va, access, anon, luck);
            && (f.ok ==> va in f.m.pages && (InSeg(prog, va) || anon))
            && (f.ok && !InSeg(prog, va) ==> f.m.pages[va] == Frame(Zeros(), false, false))
  {
    hide Distinct, Slotted, BadOk, PageOk, EntryOk, GetFrame, AllocMeta;
  }

  // A segment page that was evicted comes back as it left: with its bytes, and with the
  // permissions of its segment.
  lemma FaultBringsPageBack(prog: Program, m: Memory, bad: set<nat>, policy: Policy, hasSwap: bool, va: nat, access: Access, anon: bool, luck: Luck)
    requires Inv(prog, m, bad) && va !in m.pages && InSeg(prog, va) && va !in bad
    requires Fault(prog, m, policy, hasSwap, va, access, anon, luck).ok
    ensures var t := Fault(prog, m, policy, hasSwap, va, access, anon, luck).m;
            va in t.pages && t.pages[va] == Frame(View(prog, m, va), SegAt(prog, va).w, SegAt(prog, va).x)
  {
    hide Distinct, Slotted, BadOk, EntryOk, Fault;
    FaultKeepsViews(prog, m, bad, policy, hasSwap, va, access, anon, luck, va);
    FaultMaps(prog, m, bad, policy, hasSwap, va, access, anon, luck);
    assert PageOk(prog, Fault(prog, m, policy, hasSwap, va, access, anon, luck).m, bad, va);
  }

  // When a fault at a segment page succeeds: the swap file never falls short.
  lemma SegFaultSucceedsIff(prog: Program, m: Memory, bad: set<nat>, policy: Policy, hasSwap: bool, va: nat, access: Access, anon: bool, luck: Luck)
    requires Inv(prog, m, bad) && va !in m.pages && InSeg(prog, va)
    ensures Fault(prog, m, policy, hasSwap, va, access, anon, luck).ok <==>
            && GetFrame(m, policy, hasSwap, luck).ok && luck.maps
            && (SlotOf(m.metas, va) >= 0 || (Readable(prog, va) && (access.Execute? ==> SegAt(prog, va).x)))
  {
    hide Distinct, Slotted, BadOk, EntryOk, PageOk, GetFrame, Kept;
    var k := Find(m.metas, va, 0);
    FrameIsRun(prog, m, policy, hasSwap, luck);
    var got := GetFrame(m, policy, hasSwap, luck);
    if got.ok && k >= 0 && m.metas[k].inSwap {
      KeptFind(m, got.m, va);
      RunKeepsInv(prog, m, bad, FrameActs(m, policy, hasSwap, luck), got.m);
      SwapHasIt(got.m, k);
    }
  }

  // An eviction that has to write finds no room in a full swap file: 67 pages, no more.
  lemma SwapIsFullIff(m: Memory, room: nat, data: seq<byte>)
    requires Sized(m) && Slotted(m) && |data| == PGSIZE && room >= PGSIZE && FirstFree(m.slots, 0) >= 0
    ensures WriteAt(m.swap, FirstFree(m.slots, 0) * PGSIZE, data, room).1 == PGSIZE
            <==> exists k: nat :: k < MAXHELD && !m.slots[k]
  {
    NoGap(m);
    var f := FirstFree(m.slots, 0);
    if f >= MAXHELD {
      forall k: nat | k < MAXHELD ensures m.slots[k] {}
    }
  }

  // When a victim's frame can be had: it need not be written, or there are a swap file, room on
  // the disk and a slot within it. And when the process is killed for it: it must be written, and
  // there is no swap file or no slot at all.
  lemma EvictOutcome(prog: Program, m: Memory, bad: set<nat>, b: nat, hasSwap: bool, room: nat)
    requires Inv(prog, m, bad) && b < |m.metas|
    ensures var e, va := Evict(m, hasSwap, b, room), m.metas[b].va;
            var written := va in m.pages && (m.metas[b].dirty || m.pages[va].w);
            && (e.ok <==> va in m.pages && (written ==> hasSwap && room >= 4096 && exists k: nat :: k < 67 && !m.slots[k]))
            && (e.m.killed <==> m.killed || (written && (!hasSwap || forall k: nat | k < 1024 :: m.slots[k])))
            && (!e.ok ==> e.m.pages == m.pages && e.m.slots == m.slots && e.m.hand == m.hand)
  {
    hide BadOk, EntryOk, WriteAt, Distinct;
    var va := m.metas[b].va;
    if va in m.pages {
      assert PageOk(prog, m, bad, va);
      if FirstFree(m.slots, 0) >= 0 {
        ShortWrite(m.swap, FirstFree(m.slots, 0) * PGSIZE, m.pages[va].data, room);
        if room >= PGSIZE { SwapIsFullIff(m, room, m.pages[va].data); }
      }
    }
  }

  lemma ShortWrite(file: seq<byte>, off: nat, data: seq<byte>, room: nat)
    ensures room < |data| ==> WriteAt(file, off, data, room).1 != |data|
  {
  }

  // A page that has come in is noted as just used and the youngest of all, and as not written
  // yet; memory for it was there, at once or after an eviction.
  lemma FaultNotesPage(prog: Program, m: Memory, bad: set<nat>, policy: Policy, hasSwap: bool, va: nat, access: Access, anon: bool, luck: Luck)
    requires Inv(prog, m, bad) && va !in m.pages && va != 0
    requires Fault(prog, m, policy, hasSwap, va, access, anon, luck).ok
    ensures luck.maps && (luck.mem || luck.again)
    ensures NotesPage(m, Fault(prog, m, policy, hasSwap, va, access, anon, luck).m, va)
  {
    hide Inv, Fault, NotesPage;
    if InSeg(prog, va) {
      SegFaultNotes(prog, m, bad, policy, hasSwap, va, access, anon, luck);
    } else {
      AnonFaultNotes(prog, m, bad, policy, hasSwap, va, access, anon, luck);
    }
  }

  // The entry of page va says that it has just come in; without an entry the table is full.
  ghost predicate NotesPage(m: Memory, t: Memory, va: nat) {
    var k := Find(t.metas, va, 0);
    if k < 0 then forall i | 0 <= i < |m.metas| :: m.metas[i].va != 0
    else t.metas[k].resident && t.metas[k].referenced && t.metas[k].stamp == m.ctr && t.ctr == (m.ctr + 1) % WRAP
  }

  lemma TableIsFull(metas: seq<Meta>, va: nat)
    requires AllocMeta(metas, va).1 < 0
    ensures forall i | 0 <= i < |metas| :: metas[i].va != 0
  {
  }

  lemma SegFaultNotes(prog: Program, m: Memory, bad: set<nat>, policy: Policy, hasSwap: bool, va: nat, access: Access, anon: bool, luck: Luck)
    requires Inv(prog, m, bad) && va !in m.pages && va != 0 && InSeg(prog, va)
    requires Fault(prog, m, policy, hasSwap, va, access, anon, luck).ok
    ensures luck.maps && (luck.mem || luck.again) && NotesPage(m, Fault(prog, m, policy, hasSwap, va, access, anon, luck).m, va)
  {
    hide Slotted, BadOk, EntryOk, PageOk, GetFrame, AllocMeta, ReadAt, Kept, Readable, NotesPage, SwapIn, LoadSeg;
    FrameKeeps(prog, m, bad, policy, hasSwap, luck, va);
    var got, k := GetFrame(m, policy, hasSwap, luck).m, Find(m.metas, va, 0);
    if k >= 0 && m.metas[k].inSwap { InNotes(prog, m, got, va, k); } else { LoadNotes(prog, m, got, va); }
  }

  lemma InNotes(prog: Program, m: Memory, got: Memory, va: nat, k: nat)
    requires Distinct(got.metas) && |got.metas| == |m.metas| && got.ctr == m.ctr && InSeg(prog, va) && va != 0
    requires k < |got.metas| && got.metas[k].va == va && |ReadAt(got.swap, got.metas[k].slot * PGSIZE, PGSIZE)| == PGSIZE
    ensures NotesPage(m, SwapIn(prog, got, va, k), va)
  {
    hide ReadAt;
    var t := SwapIn(prog, got, va, k);
    assert Distinct(t.metas) && t.metas[k].va == va;
    FindIs(t.metas, k);
  }

  lemma LoadNotes(prog: Program, m: Memory, got: Memory, va: nat)
    requires Distinct(got.metas) && Kept(m, got, va) && got.ctr == m.ctr && InSeg(prog, va) && va != 0
    ensures NotesPage(m, LoadSeg(prog, got, va), va)
  {
    hide AllocMeta, Original;
    AllocKeeps(got.metas, va);
    var a, t := AllocMeta(got.metas, va), LoadSeg(prog, got, va);
    if a.1 < 0 {
      TableIsFull(got.metas, va);
    } else {
      assert Distinct(t.metas) && t.metas[a.1].va == va;
      FindIs(t.metas, a.1);
    }
  }

  lemma AnonFaultNotes(prog: Program, m: Memory, bad: set<nat>, policy: Policy, hasSwap: bool, va: nat, access: Access, anon: bool, luck: Luck)
    requires Inv(prog, m, bad) && va !in m.pages && va != 0 && !InSeg(prog, va)
    requires Fault(prog, m, policy, hasSwap, va, access, anon, luck).ok
    ensures luck.maps && (luck.mem || luck.again) && NotesPage(m, Fault(prog, m, policy, hasSwap, va, access, anon, luck).m, va)
  {
    hide Slotted, BadOk, EntryOk, PageOk, GetFrame, AllocMeta, Kept, NotesPage, LoadZero;
    var a := AllocMeta(m.metas, va);
    var e := m.(metas := a.0);
    AllocKeeps(m.metas, va);
    EnterKeeps(prog, m, bad, va);
    FrameKeeps(prog, e, bad, policy, hasSwap, luck, va);
    ZeroNotes(prog, m, e, GetFrame(e, policy, hasSwap, luck).m, va);
  }

  lemma ZeroNotes(prog: Program, m: Memory, e: Memory, got: Memory, va: nat)
    requires Distinct(m.metas) && Distinct(got.metas) && e == m.(metas := AllocMeta(m.metas, va).0)
    requires Kept(e, got, va) && got.ctr == m.ctr && va != 0
    ensures NotesPage(m, LoadZero(got, va, AllocMeta(m.metas, va).1), va)
  {
    hide AllocMeta;
    AllocKeeps(m.metas, va);
    var k := AllocMeta(m.metas, va).1;
    var t := LoadZero(got, va, k);
    if k < 0 {
      TableIsFull(m.metas, va);
      assert forall i | 0 <= i < |got.metas| :: got.metas[i].va != va;
    } else {
      assert Distinct(t.metas) && t.metas[k].va == va;
      FindIs(t.metas, k);
    }
  }

  // Finding a frame leaves the page's entry, the counter and the free entries alone.
  lemma FrameKeeps(prog: Program, m: Memory, bad: set<nat>, policy: Policy, hasSwap: bool, luck: Luck, va: nat)
    requires Inv(prog, m, bad) && va !in m.pages && GetFrame(m, policy, hasSwap, luck).ok
    ensures luck.mem || luck.again
    ensures var t := GetFrame(m, policy, hasSwap, luck).m;
            Inv(prog, t, bad) && Kept(m, t, va) && t.ctr == m.ctr && Find(t.metas, va, 0) == Find(m.metas, va, 0)
  {
    hide Distinct, Slotted, BadOk, EntryOk, PageOk, Run, FrameActs, TryEvict;
    FrameIsRun(prog, m, policy, hasSwap, luck);
    var acts := FrameActs(m, policy, hasSwap, luck);
    FrameActsPlain(m, policy, hasSwap, luck);
    SpoiledNone(prog, acts);
    assert bad + {} == bad;
    RunKeepsInv(prog, m, bad, acts, GetFrame(m, policy, hasSwap, luck).m);
    KeptFind(m, GetFrame(m, policy, hasSwap, luck).m, va);
    EvictKeepsCount(m, policy, hasSwap, luck.room);
  }

  lemma EvictKeepsCount(m: Memory, policy: Policy, hasSwap: bool, room: nat)
    requires Sized(m)
    ensures TryEvict(m, policy, hasSwap, room).m.ctr == m.ctr
  {
    hide WriteAt, FirstFree, Sweep, OldestOf;
  }

  // vmfault lets the page below the stack pointer be written even where the program text is.
  // Then the change is lost: the page is swapped out, comes back without the permission, and
  // the next eviction takes it for unchanged.
  lemma WriteIntoTextIsLost(prog: Program, m: Memory, bad: set<nat>, b: nat, room: nat, room2: nat)
    requires Inv(prog, m, bad) && Ready(prog, m, Out(b, true, room)) && KindOf(m, true, b, room).Swapped?
    requires var va := m.metas[b].va;
             InSeg(prog, va) && va in bad && m.pages[va].data != Original(prog, va) && m.metas[b].perm == Perm(false, SegAt(prog, va).x)
    ensures var va := m.metas[b].va;
            var swapped := Next(prog, m, Out(b, true, room));
            && Ready(prog, swapped, In(va, b))
            && var back := Next(prog, swapped, In(va, b));
               && Ready(prog, back, Out(b, true, room2))
               && View(prog, back, va) == m.pages[va].data
               && View(prog, Next(prog, back, Out(b, true, room2)), va) == Original(prog, va)
  {
    hide WriteAt, ReadAt, Slotted, EntryOk, Original;
    var va := m.metas[b].va;
    var t := Next(prog, m, Out(b, true, room));
    assert PageOk(prog, m, bad, va);
    OutKeeps(prog, m, bad, b, true, room);
    FindIs(t.metas, b);
    WriteThere(m.swap, FirstFree(m.slots, 0), m.pages[va].data, room);
    var back := Next(prog, t, In(va, b));
    InKeeps(prog, t, bad, va, b);
    var gone := Next(prog, back, Out(b, true, room2));
    OutKeeps(prog, back, bad, b, true, room2);
    FindIs(gone.metas, b);
  }
}
