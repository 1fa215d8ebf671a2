// The order in which pages are evicted: under FIFO, and by the clock.

module SwapOrder {
  import opened SwapModel
  import opened SwapSafety
  import opened SwapFault

  // When each entry's page came in, counting all page-ins; how many there have been, and the
  // birth of the last page evicted. The kernel keeps the counts modulo 2^64.
  datatype History = History(births: seq<nat>, faults: nat, last: int)

  ghost predicate Dated(m: Memory, h: History) {
    && |h.births| == |m.metas| && m.ctr == h.faults % WRAP && h.last < h.faults
    && (forall i | 0 <= i < |m.metas| && Resident(m.metas[i]) ::
          h.last < h.births[i] < h.faults && m.metas[i].stamp == h.births[i] % WRAP)
    && (forall i, j | 0 <= i < j < |m.metas| && Resident(m.metas[i]) && Resident(m.metas[j]) :: h.births[i] != h.births[j])
  }

  // No page has been resident through 2^64 page-ins.
  ghost predicate Young(m: Memory, h: History)
    requires |h.births| == |m.metas|
  {
    forall i | 0 <= i < |m.metas| && Resident(m.metas[i]) :: h.faults < h.births[i] + WRAP
  }

  function Born(h: History, k: int): History
    requires k < |h.births|
  {
    h.(births := if k < 0 then h.births else h.births[k := h.faults], faults := h.faults + 1)
  }

  // The history after a step.
  function After(prog: Program, m: Memory, h: History, a: Act): History
    requires Ready(prog, m, a) && |h.births| == |m.metas|
  {
    match a
    case Out(b, hasSwap, room) => if Evict(m, hasSwap, b, room).ok then h.(last := h.births[b]) else h
    case In(va, k) => if |ReadAt(m.swap, m.metas[k].slot * PGSIZE, PGSIZE)| == PGSIZE then Born(h, k) else h
    case Load(va) => Born(h, AllocMeta(m.metas, va).1)
    case Zero(va, k) => Born(h, k)
    case _ => h
  }

  // Age, computed in 64 bits that may have wrapped, is the true age.
  lemma AgeIsTrue(birth: nat, faults: nat, m: Meta, now: nat)
    requires birth < faults < birth + WRAP && m.stamp == birth % WRAP && now == faults % WRAP
    ensures Age(m, now) == faults - birth
  {
    var q, r := birth / WRAP, faults / WRAP;
    assert birth == q * WRAP + m.stamp && faults == r * WRAP + now;
    assert (now - m.stamp) == (faults - birth) + (q - r) * WRAP;
    ModShift(faults - birth, q - r);
  }

  lemma ModShift(x: nat, k: int)
    requires x < WRAP
    ensures (x + k * WRAP) % WRAP == x
  {
    var y := x + k * WRAP;
    assert y / WRAP == k;
  }

  // FIFO's choice was born first.
  lemma OldestIsFirst(m: Memory, h: History, b: nat)
    requires Dated(m, h) && Young(m, h) && b < |m.metas| && IsOldest(m.metas, m.ctr, |m.metas|, b)
    ensures forall j | 0 <= j < |m.metas| && Resident(m.metas[j]) && j != b :: h.births[b] < h.births[j]
  {
    AgeIsTrue(h.births[b], h.faults, m.metas[b], m.ctr);
    forall j | 0 <= j < |m.metas| && Resident(m.metas[j]) && j != b
      ensures h.births[b] < h.births[j]
    {
      AgeIsTrue(h.births[j], h.faults, m.metas[j], m.ctr);
      if j < b { assert h.births[j] != h.births[b]; } else { assert h.births[b] != h.births[j]; }
    }
  }

  // The entries a page-in changes.
  lemma BornIsDated(m: Memory, t: Memory, h: History, k: int)
    requires Dated(m, h) && |t.metas| == |m.metas| && k < |m.metas| && t.ctr == (m.ctr + 1) % WRAP
    requires forall i | 0 <= i < |m.metas| && i != k && Resident(t.metas[i]) :: Resident(m.metas[i]) && t.metas[i].stamp == m.metas[i].stamp
    requires k >= 0 ==> t.metas[k].stamp == m.ctr
    ensures Dated(t, Born(h, k))
  {
    var g := Born(h, k);
    assert (h.faults + 1) % WRAP == (h.faults % WRAP + 1) % WRAP by { CountOn(h.faults); }
    forall i | 0 <= i < |t.metas| && Resident(t.metas[i])
      ensures g.last < g.births[i] < g.faults && t.metas[i].stamp == g.births[i] % WRAP
    {
    }
  }

  lemma CountOn(n: nat)
    ensures (n + 1) % WRAP == (n % WRAP + 1) % WRAP
  {
    var q, r := n / WRAP, n % WRAP;
    assert n == q * WRAP + r;
    if r + 1 < WRAP { ModShift(r + 1, q); } else { ModShift(0, q + 1); }
  }

  lemma SameDates(m: Memory, t: Memory, h: History)
    requires Dated(m, h) && |t.metas| == |m.metas| && t.ctr == m.ctr
    requires forall i | 0 <= i < |m.metas| && Resident(t.metas[i]) :: Resident(m.metas[i]) && t.metas[i].stamp == m.metas[i].stamp
    ensures Dated(t, h)
  {
  }

  lemma OutIsDated(prog: Program, m: Memory, h: History, a: Act)
    requires Dated(m, h) && Young(m, h) && Ready(prog, m, a) && a.Out? && IsOldest(m.metas, m.ctr, |m.metas|, a.b)
    ensures Dated(Next(prog, m, a), After(prog, m, h, a))
    ensures Evict(m, a.hasSwap, a.b, a.room).ok ==> h.last < After(prog, m, h, a).last == h.births[a.b]
  {
    hide IsOldest, WriteAt, Young;
    OldestIsFirst(m, h, a.b);
  }

  predicate PagesIn(a: Act) { a.In? || a.Load? || a.Zero? }

  lemma PageInIsDated(prog: Program, m: Memory, h: History, a: Act)
    requires Dated(m, h) && Distinct(m.metas) && Ready(prog, m, a) && PagesIn(a)
    ensures Dated(Next(prog, m, a), After(prog, m, h, a))
  {
    hide Dated, Distinct, AllocMeta, ReadAt;
    DatedSize(m, h);
    match a
    case In(va, k) => if |ReadAt(m.swap, m.metas[k].slot * PGSIZE, PGSIZE)| == PGSIZE { BornIsDated(m, Next(prog, m, a), h, k); }
    case Load(va) =>
      AllocKeeps(m.metas, va);
      BornIsDated(m, Next(prog, m, a), h, AllocMeta(m.metas, va).1);
    case Zero(va, k) => BornIsDated(m, Next(prog, m, a), h, k);
  }

  lemma OtherIsDated(prog: Program, m: Memory, h: History, a: Act)
    requires Dated(m, h) && Distinct(m.metas) && Ready(prog, m, a) && !PagesIn(a) && !a.Out?
    ensures Dated(Next(prog, m, a), h)
  {
    hide Dated, Distinct, AllocMeta;
    if a.Enter? || a.MayWrite? { AllocKeeps(m.metas, a.va); }
    SameDates(m, Next(prog, m, a), h);
  }

  lemma StepIsDated(prog: Program, m: Memory, h: History, a: Act)
    requires Dated(m, h) && Distinct(m.metas) && Ready(prog, m, a)
    requires a.Out? ==> Young(m, h) && IsOldest(m.metas, m.ctr, |m.metas|, a.b)
    ensures |h.births| == |m.metas| && Dated(Next(prog, m, a), After(prog, m, h, a))
  {
    hide Dated, Young, IsOldest, Distinct, AllocMeta, ReadAt, Ready, Next, Evict;
    DatedSize(m, h);
    if PagesIn(a) {
      PageInIsDated(prog, m, h, a);
    } else if a.Out? {
      OutIsDated(prog, m, h, a);
    } else {
      OtherIsDated(prog, m, h, a);
    }
  }

  lemma DatedSize(m: Memory, h: History)
    requires Dated(m, h)
    ensures |h.births| == |m.metas|
  {
  }

  // Runs in which every victim is FIFO's choice.
  ghost predicate FifoRun(prog: Program, m: Memory, h: History, acts: seq<Act>)
    decreases |acts|
  {
    && |h.births| == |m.metas|
    && (acts != [] ==>
          && Ready(prog, m, acts[0])
          && (acts[0].Out? ==> Young(m, h) && IsOldest(m.metas, m.ctr, |m.metas|, acts[0].b))
          && FifoRun(prog, Next(prog, m, acts[0]), After(prog, m, h, acts[0]), acts[1..]))
  }

  // The births of the pages that were evicted, in the order they were.
  ghost function Victims(prog: Program, m: Memory, h: History, acts: seq<Act>): seq<int>
    requires FifoRun(prog, m, h, acts)
    decreases |acts|
  {
    if acts == [] then []
    else
      var a := acts[0];
      (if a.Out? && Evict(m, a.hasSwap, a.b, a.room).ok then [h.births[a.b]] else [])
      + Victims(prog, Next(prog, m, a), After(prog, m, h, a), acts[1..])
  }

  ghost predicate Rising(s: seq<int>, low: int) {
    (forall i | 0 <= i < |s| :: low < s[i]) && forall i, j | 0 <= i < j < |s| :: s[i] < s[j]
  }

  // Under FIFO pages leave in the order they came.
  lemma {:induction false} VictimsRise(prog: Program, m: Memory, bad: set<nat>, h: History, acts: seq<Act>)
    requires Inv(prog, m, bad) && Dated(m, h) && FifoRun(prog, m, h, acts)
    ensures Rising(Victims(prog, m, h, acts), h.last)
    decreases |acts|
  {
    hide Ready, Next, Inv, Dated, After, Evict, IsOldest, Young;
    if acts != [] {
      var a := acts[0];
      InvDistinct(prog, m, bad);
      StepIsDated(prog, m, h, a);
      NextKeepsInv(prog, m, bad, a);
      LastRises(prog, m, h, a);
      VictimsRise(prog, Next(prog, m, a), bad + Spoils(prog, a), After(prog, m, h, a), acts[1..]);
    }
  }

  lemma LastRises(prog: Program, m: Memory, h: History, a: Act)
    requires Dated(m, h) && Ready(prog, m, a)
    requires a.Out? ==> Young(m, h) && IsOldest(m.metas, m.ctr, |m.metas|, a.b)
    ensures h.last <= After(prog, m, h, a).last
    ensures a.Out? && Evict(m, a.hasSwap, a.b, a.room).ok ==> h.last < h.births[a.b] == After(prog, m, h, a).last
  {
    hide IsOldest, Young, AllocMeta;
    if a.Out? { OutIsDated(prog, m, h, a); }
  }

  lemma InvDistinct(prog: Program, m: Memory, bad: set<nat>)
    requires Inv(prog, m, bad)
    ensures Distinct(m.metas)
  {
  }

  predicate Referenced(metas: seq<Meta>) {
    forall i | 0 <= i < |metas| && Resident(metas[i]) :: metas[i].referenced
  }

  // The clock takes the first unreferenced resident page from the hand on, and every
  // resident page it passes loses its second chance.
  lemma ClockTakesFirst(metas: seq<Meta>, start: nat)
    requires |metas| == PGMETA_SIZE && start < PGMETA_SIZE
    ensures var d := Sweep(metas, start, 0);
            && (d == PGMETA_SIZE <==> Referenced(metas))
            && (forall i | 0 <= i < |metas| ::
                  Passed(metas, start, d)[i] == if Resident(metas[i]) && (i - start) % PGMETA_SIZE < d then metas[i].(referenced := false) else metas[i])
            && (d < PGMETA_SIZE ==>
                  forall i | 0 <= i < |metas| && Resident(metas[i]) && !metas[i].referenced :: (i - start) % PGMETA_SIZE >= d)
  {
    hide Resident, Sweep;
    var d := Sweep(metas, start, 0);
    forall i | 0 <= i < |metas| && Resident(metas[i]) && (i - start) % PGMETA_SIZE < d
      ensures metas[i].referenced
    {
      UnderHand(start, i);
      assert Resident(metas[Under(start, (i - start) % PGMETA_SIZE)]);
    }
    if d == PGMETA_SIZE {
      forall i | 0 <= i < |metas| && Resident(metas[i]) ensures metas[i].referenced { UnderHand(start, i); }
    }
  }

  // A scan finds nothing exactly when every resident page is referenced; then the next one
  // succeeds if any page is resident at all.
  lemma ClockFailsOnce(m: Memory, hasSwap: bool, room: nat)
    requires Sized(m) && Referenced(m.metas)
    ensures var again := TryEvict(m, Clock, hasSwap, room);
            && !again.ok && again.m.pages == m.pages && again.m.hand == m.hand
            && (Sweep(again.m.metas, m.hand % PGMETA_SIZE, 0) < PGMETA_SIZE <==> exists i :: 0 <= i < |m.metas| && Resident(m.metas[i]))
  {
    hide Resident, Sweep, Passed, Evict;
    var start := m.hand % PGMETA_SIZE;
    ClockTakesFirst(m.metas, start);
    var p := Passed(m.metas, start, PGMETA_SIZE);
    ClockTakesFirst(p, start);
    forall i | 0 <= i < |m.metas|
      ensures p[i] == if Resident(m.metas[i]) then m.metas[i].(referenced := false) else m.metas[i]
      ensures Resident(p[i]) <==> Resident(m.metas[i])
    {
      UnderHand(start, i);
      PassedResident(m.metas, start, PGMETA_SIZE, i);
    }
    if i :| 0 <= i < |m.metas| && Resident(m.metas[i]) {
      assert Resident(p[i]) && !p[i].referenced;
    }
  }
}
