// Sleep locks: acquiresleep and releasesleep of kernel/sleeplock.c with sleep and wakeup
// of kernel/proc.c, one atomic step at a time, in every interleaving.

module SleepLock {
  const NOBODY: int := -1

  // Where a process is. Between the steps of sleep it holds its own p->lock; the scheduler
  // lets go of it after the switch, and takes it again before switching back.
  datatype Pc =
    | Idle                  // not using the lock
    | Acquire               // acquiresleep: before acquire(&lk->lk)
    | Test                  // while (lk->locked)
    | LockSelf              // sleep: acquire(&p->lock)
    | Unlock                // sleep: release(lk)
    | Doze                  // sleep: p->chan = chan, p->state = SLEEPING
    | Switch                // sched, until the scheduler releases p->lock
    | Asleep                // waiting to be made runnable and picked
    | Awake                 // back from sched: p->chan = 0, release(&p->lock)
    | Take                  // lk->locked = 1, lk->pid = p
    | Leave                 // release(&lk->lk), acquiresleep returns
    | Holding               // the lock is held
    | Release               // releasesleep: before acquire(&lk->lk)
    | Drop                  // lk->locked = 0
    | WakeLock(i: nat)      // wakeup: acquire(&proc[i].lock)
    | WakeTest(i: nat)      // wakeup: if proc[i] sleeps on lk, make it runnable
    | WakeUnlock(i: nat)    // wakeup: release(&proc[i].lock)
    | Finish                // release(&lk->lk), releasesleep returns

  // spin and plock say who holds lk->lk and each p->lock; asleep[p] is p->state == SLEEPING,
  // on[p] is p->chan == lk.
  datatype System = System(spin: int, plock: seq<int>, locked: bool, owner: int, pc: seq<Pc>, asleep: seq<bool>, on: seq<bool>)
  {
    ghost predicate Shaped() {
      |plock| == |pc| == |asleep| == |on|
    }

    function Goto(p: nat, c: Pc): System
      requires p < |pc|
    {
      this.(pc := pc[p := c])
    }
  }

  // Move(p): p takes its next step. Kill(q): kkill finds q asleep and makes it runnable.
  datatype Act = Move(p: nat) | Kill(q: nat)

  // p can step: the lock it wants is free, or, if it sleeps, somebody has woken it.
  ghost predicate Enabled(y: System, a: Act)
    requires y.Shaped()
  {
    match a
    case Kill(q) => q < |y.pc| && y.plock[q] == NOBODY && y.asleep[q]
    case Move(p) =>
      && p < |y.pc|
      && match y.pc[p] {
           case Acquire => y.spin == NOBODY
           case Release => y.spin == NOBODY
           case LockSelf => y.plock[p] == NOBODY
           case Asleep => !y.asleep[p] && y.plock[p] == NOBODY
           case WakeLock(i) => i < |y.pc| && i != p ==> y.plock[i] == NOBODY
           case _ => true
         }
  }

  predicate Waking(c: Pc) { c.WakeLock? || c.WakeTest? || c.WakeUnlock? || c.Finish? }

  predicate Sleeping(c: Pc) { c.LockSelf? || c.Unlock? || c.Doze? || c.Switch? || c.Asleep? || c.Awake? }

  // The steps of sleep.
  function SleepStep(y: System, p: nat): System
    requires p < |y.pc| == |y.plock| == |y.asleep| == |y.on| && Sleeping(y.pc[p])
  {
    match y.pc[p]
    case LockSelf => y.(plock := y.plock[p := p]).Goto(p, Unlock)
    case Unlock => y.(spin := NOBODY).Goto(p, Doze)
    case Doze => y.(asleep := y.asleep[p := true], on := y.on[p := true]).Goto(p, Switch)
    case Switch => y.(plock := y.plock[p := NOBODY]).Goto(p, Asleep)
    case Asleep => y.(plock := y.plock[p := p]).Goto(p, Awake)
    case Awake => y.(on := y.on[p := false], plock := y.plock[p := NOBODY]).Goto(p, Acquire)
  }

  // The steps of wakeup, and the end of releasesleep.
  function WakeStep(y: System, p: nat): System
    requires p < |y.pc| == |y.plock| == |y.asleep| == |y.on| && Waking(y.pc[p])
  {
    match y.pc[p]
    case WakeLock(i) =>
      if i >= |y.pc| then y.Goto(p, Finish)
      else if i == p then y.Goto(p, WakeLock(i + 1))
      else y.(plock := y.plock[i := p]).Goto(p, WakeTest(i))
    case WakeTest(i) =>
      if i < |y.pc| && y.asleep[i] && y.on[i] then y.(asleep := y.asleep[i := false]).Goto(p, WakeUnlock(i))
      else y.Goto(p, WakeUnlock(i))
    case WakeUnlock(i) => (if i < |y.pc| then y.(plock := y.plock[i := NOBODY]) else y).Goto(p, WakeLock(i + 1))
    case Finish => y.(spin := NOBODY).Goto(p, Idle)
  }

  // The other steps of acquiresleep and releasesleep.
  function LockStep(y: System, p: nat): System
    requires p < |y.pc| && !Sleeping(y.pc[p]) && !Waking(y.pc[p])
  {
    match y.pc[p]
    case Idle => y.Goto(p, Acquire)
    case Acquire => y.(spin := p).Goto(p, Test)
    case Test => y.Goto(p, if y.locked then LockSelf else Take)
    case Take => y.(locked := true, owner := p).Goto(p, Leave)
    case Leave => y.(spin := NOBODY).Goto(p, Holding)
    case Holding => y.Goto(p, Release)
    case Release => y.(spin := p).Goto(p, Drop)
    case Drop => y.(locked := false, owner := NOBODY).Goto(p, WakeLock(0))
  }

  ghost function Next(y: System, a: Act): System
    requires y.Shaped() && Enabled(y, a)
  {
    match a
    case Kill(q) => y.(asleep := y.asleep[q := false])
    case Move(p) => if Sleeping(y.pc[p]) then SleepStep(y, p) else if Waking(y.pc[p]) then WakeStep(y, p) else LockStep(y, p)
  }

  // Inside the spin lock's critical sections.
  predicate Inside(c: Pc) {
    c.Test? || c.LockSelf? || c.Unlock? || c.Take? || c.Leave? || c.Drop? || c.WakeLock? || c.WakeTest? || c.WakeUnlock? || c.Finish?
  }

  // From taking the sleep lock to giving it up.
  predicate Owns(c: Pc) { c.Leave? || c.Holding? || c.Release? || c.Drop? }

  predicate HoldsSelf(c: Pc) { c.Unlock? || c.Doze? || c.Switch? || c.Awake? }

  // Committed to sleeping: lk->lk is released, or about to be, and nobody has woken it.
  predicate Committed(y: System, q: nat)
    requires y.Shaped() && q < |y.pc|
  {
    y.pc[q].LockSelf? || y.pc[q].Unlock? || y.pc[q].Doze? || (y.asleep[q] && (y.pc[q].Switch? || y.pc[q].Asleep?))
  }

  // A wakeup is under way that has not yet dealt with q.
  predicate Coming(c: Pc, q: nat) {
    (c.WakeLock? && c.i <= q) || (c.WakeTest? && c.i <= q) || (c.WakeUnlock? && c.i < q)
  }

  // lk->lk has one owner, the process inside its critical section.
  ghost predicate SpinInv(y: System)
    requires y.Shaped()
  {
    && (y.spin == NOBODY || 0 <= y.spin < |y.pc|)
    && forall p | 0 <= p < |y.pc| :: Inside(y.pc[p]) <==> y.spin == p
  }

  // A p->lock is held by its process around the switch, or by a wakeup.
  ghost predicate PLockInv(y: System)
    requires y.Shaped()
  {
    && (forall p | 0 <= p < |y.pc| :: PLockRight(y, p))
    && (forall p | 0 <= p < |y.pc| :: WakerHolds(y, p))
  }

  ghost predicate PLockRight(y: System, p: nat)
    requires y.Shaped() && p < |y.pc|
  {
    var o := y.plock[p];
    && (HoldsSelf(y.pc[p]) <==> o == p)
    && (o == NOBODY || o == p || (0 <= o < |y.pc| && (y.pc[o] == WakeTest(p) || y.pc[o] == WakeUnlock(p))))
  }

  ghost predicate WakerHolds(y: System, p: nat)
    requires y.Shaped() && p < |y.pc|
  {
    y.pc[p].WakeTest? || y.pc[p].WakeUnlock? ==> y.pc[p].i < |y.pc| && y.pc[p].i != p && y.plock[y.pc[p].i] == p
  }

  // Who sleeps, and where.
  ghost predicate SleepInv(y: System)
    requires y.Shaped()
  {
    forall p | 0 <= p < |y.pc| ::
      (y.asleep[p] ==> y.pc[p].Switch? || y.pc[p].Asleep?) && (y.on[p] <==> y.pc[p].Switch? || y.pc[p].Asleep? || y.pc[p].Awake?)
  }

  // The sleep lock has one owner.
  ghost predicate OwnerInv(y: System)
    requires y.Shaped()
  {
    && (forall p | 0 <= p < |y.pc| :: Owns(y.pc[p]) <==> y.locked && y.owner == p)
    && (y.locked ==> 0 <= y.owner < |y.pc|) && (!y.locked ==> y.owner == NOBODY)
    && (forall p | 0 <= p < |y.pc| && y.pc[p].Take? :: !y.locked)
  }

  // No lost wakeup: whoever is committed to sleep will be dealt with.
  ghost predicate WakeInv(y: System)
    requires y.Shaped()
  {
    forall q | 0 <= q < |y.pc| :: Attended(y, q)
  }

  ghost predicate Attended(y: System, q: nat)
    requires y.Shaped() && q < |y.pc|
  {
    Committed(y, q) ==> y.locked || (0 <= y.spin < |y.pc| && y.spin != q && Coming(y.pc[y.spin], q))
  }

  ghost predicate Inv(y: System) {
    y.Shaped() && SpinInv(y) && PLockInv(y) && SleepInv(y) && OwnerInv(y) && WakeInv(y)
  }

  lemma SleepKeepsSpinInv(y: System, p: nat)
    requires Inv(y) && Enabled(y, Move(p)) && Sleeping(y.pc[p])
    ensures var z := SleepStep(y, p); z.Shaped() && |z.pc| == |y.pc| && SpinInv(z)
  {
    hide PLockInv, WakeInv, SleepInv, OwnerInv;
  }

  lemma SleepKeepsSleepInv(y: System, p: nat)
    requires Inv(y) && Enabled(y, Move(p)) && Sleeping(y.pc[p])
    ensures var z := SleepStep(y, p); z.Shaped() && |z.pc| == |y.pc| && SleepInv(z)
  {
    hide PLockInv, WakeInv, SpinInv, OwnerInv;
  }

  lemma SleepKeepsOwnerInv(y: System, p: nat)
    requires Inv(y) && Enabled(y, Move(p)) && Sleeping(y.pc[p])
    ensures var z := SleepStep(y, p); z.Shaped() && |z.pc| == |y.pc| && OwnerInv(z)
  {
    hide PLockInv, WakeInv, SleepInv;
  }

  lemma SleepKeepsPLock(y: System, p: nat, r: nat)
    requires Inv(y) && Enabled(y, Move(p)) && Sleeping(y.pc[p]) && r < |y.pc|
    ensures var z := SleepStep(y, p); z.Shaped() && |z.pc| == |y.pc| && PLockRight(z, r) && WakerHolds(z, r)
  {
    hide WakeInv, SleepInv, OwnerInv, SpinInv, PLockInv;
    PLockNow(y, r);
    PLockNow(y, p);
  }

  lemma SleepKeepsAttended(y: System, p: nat, q: nat)
    requires Inv(y) && Enabled(y, Move(p)) && Sleeping(y.pc[p]) && q < |y.pc|
    ensures var z := SleepStep(y, p); z.Shaped() && |z.pc| == |y.pc| && Attended(z, q)
  {
    hide WakeInv, PLockInv, SleepInv;
    AttendedNow(y, q);
    AttendedNow(y, p);
    PLockNow(y, q);
    PLockNow(y, p);
    SleepNow(y, q);
  }

  lemma WakeKeepsSpinInv(y: System, p: nat)
    requires Inv(y) && Enabled(y, Move(p)) && Waking(y.pc[p])
    ensures var z := WakeStep(y, p); z.Shaped() && |z.pc| == |y.pc| && SpinInv(z)
  {
    hide PLockInv, WakeInv, SleepInv, OwnerInv;
  }

  lemma WakeKeepsSleepInv(y: System, p: nat)
    requires Inv(y) && Enabled(y, Move(p)) && Waking(y.pc[p])
    ensures var z := WakeStep(y, p); z.Shaped() && |z.pc| == |y.pc| && SleepInv(z)
  {
    hide PLockInv, WakeInv, SpinInv, OwnerInv;
  }

  lemma WakeKeepsOwnerInv(y: System, p: nat)
    requires Inv(y) && Enabled(y, Move(p)) && Waking(y.pc[p])
    ensures var z := WakeStep(y, p); z.Shaped() && |z.pc| == |y.pc| && OwnerInv(z)
  {
    hide PLockInv, WakeInv, SleepInv;
  }

  lemma WakeKeepsPLock(y: System, p: nat, r: nat)
    requires Inv(y) && Enabled(y, Move(p)) && Waking(y.pc[p]) && r < |y.pc|
    ensures var z := WakeStep(y, p); z.Shaped() && |z.pc| == |y.pc| && PLockRight(z, r) && WakerHolds(z, r)
  {
    hide WakeInv, SleepInv, OwnerInv, SpinInv, PLockInv;
    PLockNow(y, r);
    PLockNow(y, p);
  }

  lemma WakeKeepsAttended(y: System, p: nat, q: nat)
    requires Inv(y) && Enabled(y, Move(p)) && Waking(y.pc[p]) && q < |y.pc|
    ensures var z := WakeStep(y, p); z.Shaped() && |z.pc| == |y.pc| && Attended(z, q)
  {
    hide WakeInv, PLockInv, SleepInv;
    AttendedNow(y, q);
    AttendedNow(y, p);
    PLockNow(y, q);
    PLockNow(y, p);
    SleepNow(y, q);
  }

  lemma LockKeepsSpinInv(y: System, p: nat)
    requires Inv(y) && Enabled(y, Move(p)) && !Sleeping(y.pc[p]) && !Waking(y.pc[p])
    ensures var z := LockStep(y, p); z.Shaped() && |z.pc| == |y.pc| && SpinInv(z)
  {
    hide PLockInv, WakeInv, SleepInv, OwnerInv;
  }

  lemma LockKeepsSleepInv(y: System, p: nat)
    requires Inv(y) && Enabled(y, Move(p)) && !Sleeping(y.pc[p]) && !Waking(y.pc[p])
    ensures var z := LockStep(y, p); z.Shaped() && |z.pc| == |y.pc| && SleepInv(z)
  {
    hide PLockInv, WakeInv, SpinInv, OwnerInv;
  }

  lemma LockKeepsOwnerInv(y: System, p: nat)
    requires Inv(y) && Enabled(y, Move(p)) && !Sleeping(y.pc[p]) && !Waking(y.pc[p])
    ensures var z := LockStep(y, p); z.Shaped() && |z.pc| == |y.pc| && OwnerInv(z)
  {
    hide PLockInv, WakeInv, SleepInv;
  }

  lemma LockKeepsPLock(y: System, p: nat, r: nat)
    requires Inv(y) && Enabled(y, Move(p)) && !Sleeping(y.pc[p]) && !Waking(y.pc[p]) && r < |y.pc|
    ensures var z := LockStep(y, p); z.Shaped() && |z.pc| == |y.pc| && PLockRight(z, r) && WakerHolds(z, r)
  {
    hide WakeInv, SleepInv, OwnerInv, SpinInv, PLockInv;
    PLockNow(y, r);
    PLockNow(y, p);
  }

  lemma LockKeepsAttended(y: System, p: nat, q: nat)
    requires Inv(y) && Enabled(y, Move(p)) && !Sleeping(y.pc[p]) && !Waking(y.pc[p]) && q < |y.pc|
    ensures var z := LockStep(y, p); z.Shaped() && |z.pc| == |y.pc| && Attended(z, q)
  {
    hide WakeInv, PLockInv, SleepInv;
    AttendedNow(y, q);
    AttendedNow(y, p);
    PLockNow(y, q);
    PLockNow(y, p);
    SleepNow(y, q);
  }

  lemma KillKeepsInv(y: System, q: nat)
    requires Inv(y) && Enabled(y, Kill(q))
    ensures Inv(Next(y, Kill(q)))
  {
    var z := Next(y, Kill(q));
    forall r | 0 <= r < |y.pc|
      ensures PLockRight(z, r) && WakerHolds(z, r) && Attended(z, r)
    {
      PLockNow(y, r);
      AttendedNow(y, r);
    }
  }

  lemma AttendedNow(y: System, q: nat)
    requires Inv(y) && q < |y.pc|
    ensures Attended(y, q)
  {
  }

  lemma PLockNow(y: System, q: nat)
    requires Inv(y) && q < |y.pc|
    ensures PLockRight(y, q) && WakerHolds(y, q)
  {
    hide WakeInv, SleepInv, OwnerInv, SpinInv;
  }

  lemma SleepNow(y: System, q: nat)
    requires Inv(y) && q < |y.pc|
    ensures y.asleep[q] ==> y.on[q]
  {
    hide WakeInv, PLockInv, OwnerInv, SpinInv;
  }

  lemma NextKeepsInv(y: System, a: Act)
    requires Inv(y) && Enabled(y, a)
    ensures Inv(Next(y, a))
  {
    hide SleepInv, OwnerInv, SpinInv, PLockRight, WakerHolds, Attended, Waking, Sleeping, SleepStep, WakeStep, LockStep, Enabled;
    if a.Kill? {
      KillKeepsInv(y, a.q);
    } else {
      InRange(y, a.p);
      var z, p := Next(y, a), a.p;
      if Sleeping(y.pc[p]) {
        SleepKeepsSpinInv(y, p);
        SleepKeepsSleepInv(y, p);
        SleepKeepsOwnerInv(y, p);
      } else if Waking(y.pc[p]) {
        WakeKeepsSpinInv(y, p);
        WakeKeepsSleepInv(y, p);
        WakeKeepsOwnerInv(y, p);
      } else {
        LockKeepsSpinInv(y, p);
        LockKeepsSleepInv(y, p);
        LockKeepsOwnerInv(y, p);
      }
      forall r | 0 <= r < |y.pc|
        ensures PLockRight(z, r) && WakerHolds(z, r) && Attended(z, r)
      {
        if Sleeping(y.pc[p]) {
          SleepKeepsPLock(y, p, r);
          SleepKeepsAttended(y, p, r);
        } else if Waking(y.pc[p]) {
          WakeKeepsPLock(y, p, r);
          WakeKeepsAttended(y, p, r);
        } else {
          LockKeepsPLock(y, p, r);
          LockKeepsAttended(y, p, r);
        }
      }
    }
  }

  lemma InRange(y: System, p: nat)
    requires y.Shaped() && Enabled(y, Move(p))
    ensures p < |y.pc|
  {
  }

  // n processes that do not use the lock.
  ghost predicate Initial(y: System) {
    && y.Shaped() && y.spin == NOBODY && !y.locked && y.owner == NOBODY
    && forall p | 0 <= p < |y.pc| :: y.pc[p].Idle? && y.plock[p] == NOBODY && !y.asleep[p] && !y.on[p]
  }

  lemma InitialInv(y: System)
    requires Initial(y)
    ensures Inv(y)
  {
  }

  ghost predicate CanRun(y: System, run: seq<Act>)
    requires y.Shaped()
    decreases |run|
  {
    run == [] || (Enabled(y, run[0]) && Next(y, run[0]).Shaped() && CanRun(Next(y, run[0]), run[1..]))
  }

  ghost function After(y: System, run: seq<Act>): System
    requires y.Shaped() && CanRun(y, run)
    decreases |run|
  {
    if run == [] then y else After(Next(y, run[0]), run[1..])
  }

  lemma {:induction false} RunKeepsInv(y: System, run: seq<Act>)
    requires Inv(y) && CanRun(y, run)
    ensures Inv(After(y, run))
    decreases |run|
  {
    hide Enabled, Next, WakeInv, PLockInv, SleepInv, OwnerInv, SpinInv;
    if run != [] {
      NextKeepsInv(y, run[0]);
      RunKeepsInv(Next(y, run[0]), run[1..]);
    }
  }

  // In every interleaving at most one process holds the sleep lock, and lk->pid names it.
  lemma MutualExclusion(y: System, run: seq<Act>)
    requires Initial(y) && CanRun(y, run)
    ensures var z := After(y, run);
            && z.Shaped()
            && (forall p | 0 <= p < |z.pc| && z.pc[p].Holding? :: z.locked && z.owner == p)
            && (forall p, q | 0 <= p < |z.pc| && 0 <= q < |z.pc| && z.pc[p].Holding? && z.pc[q].Holding? :: p == q)
  {
    hide WakeInv, PLockInv, SleepInv, SpinInv, Enabled, Next;
    InitialInv(y);
    RunKeepsInv(y, run);
  }

  // No wakeup is lost: whenever the sleep lock and its spin lock are both free, nobody
  // sleeps on the sleep lock, and nobody is on the way to sleep.
  lemma NoLostWakeup(y: System, run: seq<Act>)
    requires Initial(y) && CanRun(y, run)
    ensures var z := After(y, run);
            && z.Shaped()
            && (!z.locked && z.spin == NOBODY ==> forall q | 0 <= q < |z.pc| :: !Committed(z, q) && !(z.asleep[q] && z.on[q]))
  {
    InitialInv(y);
    RunKeepsInv(y, run);
    var z := After(y, run);
    forall q | 0 <= q < |z.pc| && !z.locked && z.spin == NOBODY
      ensures !Committed(z, q) && !z.asleep[q]
    {
      AttendedNow(z, q);
    }
  }
}
