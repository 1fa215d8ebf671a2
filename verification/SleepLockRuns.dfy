// What acquiresleep is for: it returns with the lock, and it can always return.

module SleepLockRuns {
  import opened SleepLock

  // Inside acquiresleep.
  predicate Acquiring(c: Pc) {
    c.Acquire? || c.Test? || c.LockSelf? || c.Unlock? || c.Doze? || c.Switch? || c.Asleep? || c.Awake? || c.Take? || c.Leave?
  }

  // Inside releasesleep.
  predicate Releasing(c: Pc) {
    c.Release? || c.Drop? || c.WakeLock? || c.WakeTest? || c.WakeUnlock? || c.Finish?
  }

  // A step moves at most its own process, and to where the calls go on.
  lemma OneMoves(y: System, a: Act)
    requires y.Shaped() && Enabled(y, a)
    ensures var z := Next(y, a); z.Shaped() && |z.pc| == |y.pc| && forall q | 0 <= q < |y.pc| && a != Move(q) :: z.pc[q] == y.pc[q]
    ensures a.Move? ==>
              var c, d := y.pc[a.p], Next(y, a).pc[a.p];
              && (c.Idle? ==> Acquiring(d))
              && (Acquiring(c) ==> Acquiring(d) || d.Holding?)
              && (c.Holding? ==> Releasing(d))
              && (Releasing(c) ==> Releasing(d) || d.Idle?)
  {
  }

  // Whether p holds the lock at some point of the run.
  ghost predicate HoldsDuring(y: System, run: seq<Act>, p: nat)
    requires y.Shaped() && p < |y.pc| && CanRun(y, run)
    decreases |run|
  {
    y.pc[p].Holding? || (run != [] && |Next(y, run[0]).pc| > p && HoldsDuring(Next(y, run[0]), run[1..], p))
  }

  // Out of acquiresleep there is no way but with the lock.
  lemma {:induction false} AcquiredBeforeReturn(y: System, run: seq<Act>, p: nat)
    requires y.Shaped() && CanRun(y, run) && p < |y.pc| && Acquiring(y.pc[p])
    ensures var z := After(y, run); z.Shaped() && p < |z.pc| && (Acquiring(z.pc[p]) || HoldsDuring(y, run, p))
    decreases |run|
  {
    hide Enabled, Next;
    if run != [] {
      OneMoves(y, run[0]);
      var z := Next(y, run[0]);
      if Acquiring(z.pc[p]) { AcquiredBeforeReturn(z, run[1..], p); } else { RunShaped(z, run[1..], p); }
    }
  }

  lemma {:induction false} RunShaped(y: System, run: seq<Act>, p: nat)
    requires y.Shaped() && CanRun(y, run) && p < |y.pc|
    ensures var z := After(y, run); z.Shaped() && p < |z.pc|
    decreases |run|
  {
    hide Enabled, Next;
    if run != [] {
      OneMoves(y, run[0]);
      RunShaped(Next(y, run[0]), run[1..], p);
    }
  }

  // A process that starts outside the two calls, moves, and is outside again, has had the lock
  // in between.
  lemma {:induction false} HeldInBetween(y: System, run: seq<Act>, p: nat)
    requires y.Shaped() && CanRun(y, run) && p < |y.pc| && y.pc[p].Idle? && Move(p) in run
    ensures var z := After(y, run); z.Shaped() && p < |z.pc| && (z.pc[p].Idle? ==> HoldsDuring(y, run, p))
    decreases |run|
  {
    hide Enabled, Next;
    OneMoves(y, run[0]);
    var z := Next(y, run[0]);
    if run[0] == Move(p) {
      AcquiredBeforeReturn(z, run[1..], p);
    } else {
      HeldInBetween(z, run[1..], p);
    }
  }

  ghost predicate Reaches(y: System, z: System) {
    y.Shaped() && exists run :: CanRun(y, run) && After(y, run) == z
  }

  lemma ReachesSelf(y: System)
    requires y.Shaped()
    ensures Reaches(y, y)
  {
    assert CanRun(y, []) && After(y, []) == y;
  }

  lemma {:induction false} RunOneMore(y: System, run: seq<Act>, a: Act)
    requires Inv(y) && CanRun(y, run) && After(y, run).Shaped() && Enabled(After(y, run), a)
    ensures CanRun(y, run + [a]) && After(y, run + [a]) == Next(After(y, run), a)
    decreases |run|
  {
    hide Enabled, Next, WakeInv, PLockInv, SleepInv, SpinInv, OwnerInv;
    RunKeepsInv(y, run);
    NextKeepsInv(After(y, run), a);
    if run == [] {
      assert run + [a] == [a] && [a][1..] == [];
    } else {
      NextKeepsInv(y, run[0]);
      assert (run + [a])[1..] == run[1..] + [a];
      RunOneMore(Next(y, run[0]), run[1..], a);
    }
  }

  // One step further.
  lemma Further(y: System, z: System, a: Act)
    requires Inv(y) && Inv(z) && Reaches(y, z) && Enabled(z, a)
    ensures Reaches(y, Next(z, a)) && Inv(Next(z, a)) && |Next(z, a).pc| == |z.pc|
    ensures forall q | 0 <= q < |z.pc| && a != Move(q) :: Next(z, a).pc[q] == z.pc[q]
  {
    hide Enabled, Next, WakeInv, PLockInv, SleepInv, SpinInv, OwnerInv, CanRun, After;
    var run :| CanRun(y, run) && After(y, run) == z;
    RunOneMore(y, run, a);
    NextKeepsInv(z, a);
    OneMoves(z, a);
  }

  // Around the switch, p->lock held.
  predicate Unsettled(c: Pc) { c.Doze? || c.Switch? || c.Awake? }

  // Everybody but s is out of it.
  ghost predicate Settled(y: System, s: int) {
    y.Shaped() && forall q | 0 <= q < |y.pc| && q != s :: !Unsettled(y.pc[q])
  }

  // Steps that a process still has to take there.
  function ToSettle(c: Pc): nat { if c.Doze? then 2 else if Unsettled(c) then 1 else 0 }

  lemma {:induction false} SettleOne(y: System, z: System, q: nat) returns (t: System)
    requires Inv(y) && Inv(z) && Reaches(y, z) && q < |z.pc|
    ensures Inv(t) && Reaches(y, t) && |t.pc| == |z.pc| && !Unsettled(t.pc[q])
    ensures forall r | 0 <= r < |z.pc| && r != q :: t.pc[r] == z.pc[r]
    ensures Acquiring(z.pc[q]) ==> Acquiring(t.pc[q])
    decreases ToSettle(z.pc[q])
  {
    hide Inv, Reaches;
    InvShaped(z);
    t := z;
    if Unsettled(z.pc[q]) {
      Further(y, z, Move(q));
      t := SettleOne(y, Next(z, Move(q)), q);
    }
  }

  lemma InvShaped(y: System)
    requires Inv(y)
    ensures y.Shaped()
  {
  }

  lemma {:induction false} SettleAll(y: System, z: System, n: nat, p: nat) returns (t: System)
    requires Inv(y) && Inv(z) && Reaches(y, z) && n <= |z.pc| && p < |z.pc| && Acquiring(z.pc[p])
    ensures Inv(t) && Reaches(y, t) && |t.pc| == |z.pc| && Acquiring(t.pc[p])
    ensures forall q | 0 <= q < n :: !Unsettled(t.pc[q])
    decreases n
  {
    hide Inv, Reaches, Acquiring, Unsettled;
    t := z;
    if n > 0 {
      t := SettleAll(y, z, n - 1, p);
      t := SettleOne(y, t, n - 1);
    }
  }

  // Steps left until s is out of the spin lock's critical section, and settled.
  function Left(c: Pc, n: nat): nat {
    match c
    case Test => 6
    case LockSelf => 5
    case Unlock => 4
    case Doze => 3
    case Switch => 2
    case Take => 2
    case Leave => 1
    case Drop => 3 * n + 3
    case WakeLock(i) => if i > n then 2 else 3 * (n - i) + 2
    case WakeTest(i) => if i > n then 1 else 3 * (n - i) + 1
    case WakeUnlock(i) => if i > n then 3 else 3 * (n - i)
    case Finish => 1
    case _ => 0
  }

  // With everybody else settled, nothing stops it there.
  lemma GoesOn(z: System, s: nat)
    requires Inv(z) && s < |z.pc| && Settled(z, s) && (Inside(z.pc[s]) || z.pc[s].Doze? || z.pc[s].Switch?)
    ensures Enabled(z, Move(s)) && z.pc[s] != Idle
    ensures var t := Next(z, Move(s));
            s < |t.pc| && Left(t.pc[s], |z.pc|) < Left(z.pc[s], |z.pc|) && (Waking(z.pc[s]) ==> t.locked == z.locked && (Waking(t.pc[s]) || t.pc[s].Idle?))
  {
    hide WakeInv, SleepInv, OwnerInv;
    PLockNow(z, s);
    if z.pc[s].WakeLock? && z.pc[s].i < |z.pc| { PLockNow(z, z.pc[s].i); }
  }

  // It gets out.
  lemma {:induction false} Drive(y: System, z: System, s: nat, p: nat) returns (t: System)
    requires Inv(y) && Inv(z) && Reaches(y, z) && s < |z.pc| && Settled(z, s) && p < |z.pc|
    requires Inside(z.pc[s]) || !Unsettled(z.pc[s]) || z.pc[s].Doze? || z.pc[s].Switch?
    requires Acquiring(z.pc[p]) || z.pc[p].Holding?
    requires z.spin == NOBODY || z.spin == s
    ensures Inv(t) && Reaches(y, t) && |t.pc| == |z.pc| && t.spin == NOBODY && Settled(t, NOBODY)
    ensures Acquiring(t.pc[p]) || t.pc[p].Holding?
    ensures Waking(z.pc[s]) && s != p ==> t.locked == z.locked && t.pc[p] == z.pc[p]
    ensures !Inside(z.pc[s]) && !z.pc[s].Doze? && !z.pc[s].Switch? ==> t == z
    decreases Left(z.pc[s], |z.pc|)
  {
    hide Reaches, Next, Enabled, WakeInv, PLockInv, SleepInv, OwnerInv;
    t := z;
    if Inside(z.pc[s]) || z.pc[s].Doze? || z.pc[s].Switch? {
      GoesOn(z, s);
      Further(y, z, Move(s));
      var u := Next(z, Move(s));
      OneMoves(z, Move(s));
      StepOfInside(z, s);
      t := Drive(y, u, s, p);
    }
  }

  lemma StepOfInside(z: System, s: nat)
    requires Inv(z) && s < |z.pc| && Enabled(z, Move(s)) && (Inside(z.pc[s]) || z.pc[s].Doze? || z.pc[s].Switch?)
    ensures var t := Next(z, Move(s));
            && s < |t.pc| && !t.pc[s].Awake? && (z.spin == NOBODY || z.spin == s ==> t.spin == NOBODY || t.spin == s)
            && (!Inside(t.pc[s]) && z.spin == s ==> t.spin == NOBODY)
  {
    hide WakeInv, PLockInv, SleepInv, OwnerInv;
  }

  // With the lock and the spin lock free, p takes it.
  lemma LastSteps(y: System, z: System, p: nat) returns (t: System)
    requires Inv(y) && Inv(z) && Reaches(y, z) && p < |z.pc| && Acquiring(z.pc[p]) && !z.locked && z.spin == NOBODY && Settled(z, NOBODY)
    ensures Inv(t) && Reaches(y, t) && p < |t.pc| && t.pc[p].Holding?
  {
    hide Reaches, WakeInv, PLockInv, SleepInv, OwnerInv;
    t := z;
    if z.pc[p].Asleep? {
      MayWake(z, p);
      Further(y, t, Move(p));
      t := Next(t, Move(p));
      Further(y, t, Move(p));
      t := Next(t, Move(p));
    }
    t := Takes(y, t, p);
  }

  lemma Takes(y: System, z: System, p: nat) returns (t: System)
    requires Inv(y) && Inv(z) && Reaches(y, z) && p < |z.pc| && z.pc[p].Acquire? && !z.locked && z.spin == NOBODY
    ensures Inv(t) && Reaches(y, t) && p < |t.pc| && t.pc[p].Holding?
  {
    hide Reaches, WakeInv, PLockInv, SleepInv, OwnerInv;
    Further(y, z, Move(p));
    t := Next(z, Move(p));
    Further(y, t, Move(p));
    t := Next(t, Move(p));
    Further(y, t, Move(p));
    t := Next(t, Move(p));
    Further(y, t, Move(p));
    t := Next(t, Move(p));
  }

  // Somebody has woken it.
  lemma MayWake(z: System, p: nat)
    requires Inv(z) && p < |z.pc| && z.pc[p].Asleep? && !z.locked && z.spin == NOBODY
    ensures Enabled(z, Move(p))
  {
    AttendedNow(z, p);
    PLockNow(z, p);
    hide WakeInv, SleepInv, OwnerInv;
  }

  // The owner gives the lock up.
  lemma OwnerReleases(y: System, z: System, p: nat) returns (t: System)
    requires Inv(y) && Inv(z) && Reaches(y, z) && p < |z.pc| && Acquiring(z.pc[p]) && z.locked && z.spin == NOBODY && Settled(z, NOBODY)
    ensures Inv(t) && Reaches(y, t) && p < |t.pc| && Acquiring(t.pc[p]) && !t.locked && t.spin == NOBODY && Settled(t, NOBODY)
  {
    hide Reaches, WakeInv, PLockInv, SleepInv;
    var o: nat := z.owner;
    t := z;
    if t.pc[o].Holding? {
      Further(y, t, Move(o));
      t := Next(t, Move(o));
    }
    Further(y, t, Move(o));
    t := Next(t, Move(o));
    Further(y, t, Move(o));
    t := Next(t, Move(o));
    t := Drive(y, t, o, p);
  }

  // From every state that can be reached, a process inside acquiresleep can come to hold the
  // lock: no state is a deadlock for it.
  lemma CanAcquire(y: System, p: nat) returns (run: seq<Act>)
    requires Inv(y) && p < |y.pc| && Acquiring(y.pc[p])
    ensures CanRun(y, run) && After(y, run).Shaped() && p < |After(y, run).pc| && After(y, run).pc[p].Holding?
  {
    hide Reaches, WakeInv, PLockInv, SleepInv, OwnerInv;
    ReachesSelf(y);
    var t := SettleAll(y, y, |y.pc|, p);
    var s := if t.spin == NOBODY then p else t.spin;
    t := Drive(y, t, s, p);
    if !t.pc[p].Holding? {
      if t.locked { t := OwnerReleases(y, t, p); }
      t := LastSteps(y, t, p);
    }
    run := RunTo(y, t);
  }

  lemma RunTo(y: System, z: System) returns (run: seq<Act>)
    requires y.Shaped() && Reaches(y, z)
    ensures CanRun(y, run) && After(y, run) == z
  {
    run :| CanRun(y, run) && After(y, run) == z;
  }

  // kkill lets a sleeper look again, although the lock is held.
  lemma KilledLooksAgain(y: System, q: nat)
    requires Inv(y) && Enabled(y, Kill(q)) && y.pc[q].Asleep?
    ensures var z := Next(y, Kill(q)); z.Shaped() && Enabled(z, Move(q)) && Next(z, Move(q)).pc[q].Awake?
  {
    hide WakeInv, OwnerInv, SpinInv;
  }
}
