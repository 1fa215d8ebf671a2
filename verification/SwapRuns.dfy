// Runs of faults, from exec on.

module SwapRuns {
  import opened SwapModel
  import opened SwapSafety
  import opened SwapFault
  import opened SwapOrder

  // What happens to a process: a fault, or something it does itself to a page that is mapped.
  datatype Event =
    | Faults(va: nat, access: Access, anon: bool, hasSwap: bool, luck: Luck)
    | Does(a: Act)

  predicate Own(a: Act) { a.Put? || a.Drop? }

  ghost predicate Possible(prog: Program, m: Memory, e: Event) {
    Sized(m) && (e.Does? ==> Own(e.a) && Ready(prog, m, e.a))
  }

  function ActsOf(prog: Program, m: Memory, policy: Policy, e: Event): seq<Act>
    requires Possible(prog, m, e)
  {
    match e
    case Faults(va, access, anon, hasSwap, luck) => FaultActs(prog, m, policy, hasSwap, va, access, anon, luck)
    case Does(a) => [a]
  }

  function Then(prog: Program, m: Memory, policy: Policy, e: Event): Memory
    requires Possible(prog, m, e)
  {
    match e
    case Faults(va, access, anon, hasSwap, luck) => Fault(prog, m, policy, hasSwap, va, access, anon, luck).m
    case Does(a) => Next(prog, m, a)
  }

  ghost predicate Lives(prog: Program, m: Memory, policy: Policy, events: seq<Event>)
    decreases |events|
  {
    events != [] ==> Possible(prog, m, events[0]) && Lives(prog, Then(prog, m, policy, events[0]), policy, events[1..])
  }

  // The steps of all the events.
  ghost function Steps(prog: Program, m: Memory, policy: Policy, events: seq<Event>): seq<Act>
    requires Lives(prog, m, policy, events)
    decreases |events|
  {
    if events == [] then []
    else ActsOf(prog, m, policy, events[0]) + Steps(prog, Then(prog, m, policy, events[0]), policy, events[1..])
  }

  ghost function End(prog: Program, m: Memory, policy: Policy, events: seq<Event>): Memory
    requires Lives(prog, m, policy, events)
    decreases |events|
  {
    if events == [] then m else End(prog, Then(prog, m, policy, events[0]), policy, events[1..])
  }

  lemma EventIsRun(prog: Program, m: Memory, bad: set<nat>, policy: Policy, e: Event)
    requires Inv(prog, m, bad) && Possible(prog, m, e)
    ensures var acts, t := ActsOf(prog, m, policy, e), Then(prog, m, policy, e);
            Run(prog, m, acts, t) && Inv(prog, t, bad + SpoiledBy(prog, acts))
  {
    hide Inv, Run, Fault, FaultActs, Ready, Next, SpoiledBy;
    match e {
      case Faults(va, access, anon, hasSwap, luck) => FaultIsRun(prog, m, bad, policy, hasSwap, va, access, anon, luck);
      case Does(a) => RunOne(prog, m, a);
    }
    RunKeepsInv(prog, m, bad, ActsOf(prog, m, policy, e), Then(prog, m, policy, e));
  }

  // So whatever holds of every run of steps holds of every run of faults.
  lemma {:induction false} EventsAreRun(prog: Program, m: Memory, bad: set<nat>, policy: Policy, events: seq<Event>)
    requires Inv(prog, m, bad) && Lives(prog, m, policy, events)
    ensures Run(prog, m, Steps(prog, m, policy, events), End(prog, m, policy, events))
    decreases |events|
  {
    hide Inv, Run, Possible, ActsOf, Then, SpoiledBy;
    if events == [] {
      RunNone(prog, m);
    } else {
      var e := events[0];
      var acts, t := ActsOf(prog, m, policy, e), Then(prog, m, policy, e);
      EventIsRun(prog, m, bad, policy, e);
      EventsAreRun(prog, t, bad + SpoiledBy(prog, acts), policy, events[1..]);
      RunOn(prog, m, acts, t, Steps(prog, t, policy, events[1..]), End(prog, t, policy, events[1..]));
    }
  }

  // Runs in which every victim is the oldest page by its age, wrapped or not.
  ghost predicate TakesOldest(prog: Program, m: Memory, acts: seq<Act>)
    decreases |acts|
  {
    acts != [] ==>
      && Ready(prog, m, acts[0])
      && (acts[0].Out? ==> IsOldest(m.metas, m.ctr, |m.metas|, acts[0].b))
      && TakesOldest(prog, Next(prog, m, acts[0]), acts[1..])
  }

  lemma {:induction false} TakesOn(prog: Program, m: Memory, acts: seq<Act>, t: Memory, more: seq<Act>)
    requires TakesOldest(prog, m, acts) && Run(prog, m, acts, t) && TakesOldest(prog, t, more)
    ensures TakesOldest(prog, m, acts + more)
    decreases |acts|
  {
    hide Ready, Next, IsOldest;
    if acts == [] {
      assert acts + more == more;
    } else {
      TakesOn(prog, Next(prog, m, acts[0]), acts[1..], t, more);
      assert (acts + more)[1..] == acts[1..] + more;
    }
  }

  // Without evictions there is nothing to choose.
  lemma {:induction false} NoVictim(prog: Program, m: Memory, acts: seq<Act>, t: Memory)
    requires Run(prog, m, acts, t) && forall i | 0 <= i < |acts| :: !acts[i].Out?
    ensures TakesOldest(prog, m, acts)
    decreases |acts|
  {
    hide Ready, Next;
    if acts != [] { NoVictim(prog, Next(prog, m, acts[0]), acts[1..], t); }
  }

  lemma FrameTakesOldest(prog: Program, m: Memory, hasSwap: bool, luck: Luck)
    requires Sized(m)
    ensures var acts := FrameActs(m, Fifo, hasSwap, luck);
            Run(prog, m, acts, GetFrame(m, Fifo, hasSwap, luck).m) && TakesOldest(prog, m, acts)
  {
    hide Next, IsOldest, OldestOf, GetFrame;
    FrameIsRun(prog, m, Fifo, hasSwap, luck);
    var acts := FrameActs(m, Fifo, hasSwap, luck);
    if acts != [] { assert acts[1..] == []; }
  }

  // The steps of a fault: an entry perhaps, a frame perhaps, and the page itself.
  lemma ThreeParts(prog: Program, m: Memory, e: Act, t: Memory, hasSwap: bool, luck: Luck, last: seq<Act>, u: Memory)
    requires Ready(prog, m, e) && e.Enter? && t == Next(prog, m, e) && Sized(t) && |last| <= 1
    requires Run(prog, m, [e] + FrameActs(t, Fifo, hasSwap, luck) + last, u) && forall i | 0 <= i < |last| :: !last[i].Out?
    ensures TakesOldest(prog, m, [e] + FrameActs(t, Fifo, hasSwap, luck) + last)
  {
    hide Ready, Next, FrameActs, GetFrame, TakesOldest, Run;
    var acts := FrameActs(t, Fifo, hasSwap, luck);
    RunOne(prog, m, e);
    NoVictim(prog, m, [e], t);
    FrameTakesOldest(prog, t, hasSwap, luck);
    TakesOn(prog, m, [e], t, acts);
    var v := GetFrame(t, Fifo, hasSwap, luck).m;
    RunOn(prog, m, [e], t, acts, v);
    RunSplit(prog, m, [e] + acts, v, last, u);
    NoVictim(prog, v, last, u);
    TakesOn(prog, m, [e] + acts, v, last);
  }

  // A run's second part starts where the first ends.
  lemma {:induction false} RunSplit(prog: Program, m: Memory, acts: seq<Act>, t: Memory, more: seq<Act>, u: Memory)
    requires Run(prog, m, acts, t) && Run(prog, m, acts + more, u)
    ensures Run(prog, t, more, u)
    decreases |acts|
  {
    hide Ready, Next;
    if acts == [] {
      assert acts + more == more;
    } else {
      assert (acts + more)[1..] == acts[1..] + more;
      RunSplit(prog, Next(prog, m, acts[0]), acts[1..], t, more, u);
    }
  }

  lemma TwoParts(prog: Program, m: Memory, hasSwap: bool, luck: Luck, last: seq<Act>, u: Memory)
    requires Sized(m) && Run(prog, m, FrameActs(m, Fifo, hasSwap, luck) + last, u) && forall i | 0 <= i < |last| :: !last[i].Out?
    ensures TakesOldest(prog, m, FrameActs(m, Fifo, hasSwap, luck) + last)
  {
    hide Ready, Next, FrameActs, GetFrame, TakesOldest, Run;
    var acts, v := FrameActs(m, Fifo, hasSwap, luck), GetFrame(m, Fifo, hasSwap, luck).m;
    FrameTakesOldest(prog, m, hasSwap, luck);
    RunSplit(prog, m, acts, v, last, u);
    NoVictim(prog, v, last, u);
    TakesOn(prog, m, acts, v, last);
  }

  // A fault under FIFO evicts the oldest page or none.
  lemma FaultTakesOldest(prog: Program, m: Memory, bad: set<nat>, hasSwap: bool, va: nat, access: Access, anon: bool, luck: Luck)
    requires Inv(prog, m, bad)
    ensures TakesOldest(prog, m, FaultActs(prog, m, Fifo, hasSwap, va, access, anon, luck))
  {
    hide Distinct, Slotted, BadOk, PageOk, EntryOk, Run, TakesOldest, FrameActs, AllocMeta, Fault;
    FaultIsRun(prog, m, bad, Fifo, hasSwap, va, access, anon, luck);
    var f := Fault(prog, m, Fifo, hasSwap, va, access, anon, luck);
    var acts := FaultActs(prog, m, Fifo, hasSwap, va, access, anon, luck);
    if va in m.pages {
      NoVictim(prog, m, acts, f.m);
    } else if InSeg(prog, va) {
      var k := Find(m.metas, va, 0);
      TwoParts(prog, m, hasSwap, luck, if !f.ok then [] else if k >= 0 && m.metas[k].inSwap then [In(va, k)] else [Load(va)], f.m);
    } else if anon {
      var a := AllocMeta(m.metas, va);
      ThreeParts(prog, m, Enter(va), m.(metas := a.0), hasSwap, luck, if f.ok then [Zero(va, a.1)] else [], f.m);
    } else {
      NoVictim(prog, m, acts, f.m);
    }
  }

  lemma {:induction false} EventsTakeOldest(prog: Program, m: Memory, bad: set<nat>, events: seq<Event>)
    requires Inv(prog, m, bad) && Lives(prog, m, Fifo, events)
    ensures TakesOldest(prog, m, Steps(prog, m, Fifo, events))
    decreases |events|
  {
    hide Inv, Run, TakesOldest, FaultActs, Fault, SpoiledBy, Ready, Next;
    if events == [] {
      RunNone(prog, m);
      NoVictim(prog, m, [], m);
    } else {
      var e := events[0];
      var acts, t := ActsOf(prog, m, Fifo, e), Then(prog, m, Fifo, e);
      EventIsRun(prog, m, bad, Fifo, e);
      match e {
        case Faults(va, access, anon, hasSwap, luck) => FaultTakesOldest(prog, m, bad, hasSwap, va, access, anon, luck);
        case Does(a) => NoVictim(prog, m, acts, t);
      }
      EventsTakeOldest(prog, t, bad + SpoiledBy(prog, acts), events[1..]);
      TakesOn(prog, m, acts, t, Steps(prog, t, Fifo, events[1..]));
    }
  }

  // No page has been resident through 2^64 page-ins when a victim is chosen.
  ghost predicate StaysYoung(prog: Program, m: Memory, h: History, acts: seq<Act>)
    decreases |acts|
  {
    && |h.births| == |m.metas|
    && (acts != [] ==>
          && Ready(prog, m, acts[0])
          && (acts[0].Out? ==> Young(m, h))
          && StaysYoung(prog, Next(prog, m, acts[0]), After(prog, m, h, acts[0]), acts[1..]))
  }

  lemma {:induction false} YoungAndOldest(prog: Program, m: Memory, h: History, acts: seq<Act>)
    requires TakesOldest(prog, m, acts) && StaysYoung(prog, m, h, acts)
    ensures FifoRun(prog, m, h, acts)
    decreases |acts|
  {
    hide Ready, Next, After, Young, IsOldest;
    if acts != [] { YoungAndOldest(prog, Next(prog, m, acts[0]), After(prog, m, h, acts[0]), acts[1..]); }
  }

  // Which is so for the first 2^64 steps.
  lemma {:induction false} FewIsYoung(prog: Program, m: Memory, bad: set<nat>, h: History, acts: seq<Act>, t: Memory)
    requires Inv(prog, m, bad) && Run(prog, m, acts, t) && |h.births| == |m.metas| && h.faults + |acts| <= WRAP
    ensures StaysYoung(prog, m, h, acts)
    decreases |acts|
  {
    hide Inv, Ready, Next, After;
    if acts != [] {
      InvSized(prog, m, bad);
      NextKeepsInv(prog, m, bad, acts[0]);
      InvSized(prog, Next(prog, m, acts[0]), bad + Spoils(prog, acts[0]));
      AfterCounts(prog, m, h, acts[0]);
      FewIsYoung(prog, Next(prog, m, acts[0]), bad + Spoils(prog, acts[0]), After(prog, m, h, acts[0]), acts[1..], t);
    }
  }

  lemma AfterCounts(prog: Program, m: Memory, h: History, a: Act)
    requires Ready(prog, m, a) && |h.births| == |m.metas|
    ensures |After(prog, m, h, a).births| == |h.births| && After(prog, m, h, a).faults <= h.faults + 1
  {
    hide AllocMeta, Evict, ReadAt;
  }

  lemma InvSized(prog: Program, m: Memory, bad: set<nat>)
    requires Inv(prog, m, bad)
    ensures |m.metas| == PGMETA_SIZE
  {
  }

  // exec starts the count at 1.
  ghost function FirstHistory(): History { History(seq(PGMETA_SIZE, _ => 0), 1, 0) }

  // From exec on, whatever the process touches, FIFO evicts the pages in the order in which
  // they came in.
  lemma FifoEvictsInOrder(prog: Program, m: Memory, events: seq<Event>)
    requires Started(prog, m) && Lives(prog, m, Fifo, events)
    requires StaysYoung(prog, m, FirstHistory(), Steps(prog, m, Fifo, events))
    ensures FifoRun(prog, m, FirstHistory(), Steps(prog, m, Fifo, events))
    ensures Rising(Victims(prog, m, FirstHistory(), Steps(prog, m, Fifo, events)), 0)
  {
    hide Inv, Lives, Steps, FifoRun, StaysYoung, TakesOldest, Victims;
    StartIsOk(prog, m);
    EventsTakeOldest(prog, m, {}, events);
    YoungAndOldest(prog, m, FirstHistory(), Steps(prog, m, Fifo, events));
    VictimsRise(prog, m, {}, FirstHistory(), Steps(prog, m, Fifo, events));
  }
}
