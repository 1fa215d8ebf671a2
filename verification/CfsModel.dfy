// The CFS branch of kernel/proc.c on values: the process table, whom the scheduler picks,
// and what a turn on the CPU and a fork do to the virtual run times.

module CfsModel {
  const NPROC := 64
  const TARGET_LATENCY := 48
  const MIN_TIME_SLICE := 3
  const NICE0 := 1024        // nice_to_weight[20]

  datatype State = Unused | Embryo | Sleeping | Runnable | Running | Zombie

  datatype Proc = Proc(state: State, pid: nat, vruntime: nat, weight: nat, slice: nat)

  // Runnable, and neither init nor the shell.
  predicate Eligible(p: Proc) { p.state == Runnable && p.pid > 2 }

  // How many of the first n are eligible.
  function Count(t: seq<Proc>, n: nat): nat
    requires n <= |t|
  {
    if n == 0 then 0 else Count(t, n - 1) + (if Eligible(t[n - 1]) then 1 else 0)
  }

  function Slice(n: nat): (s: nat)
    ensures MIN_TIME_SLICE <= s <= TARGET_LATENCY
  {
    var s := if n > 0 then TARGET_LATENCY / n else TARGET_LATENCY;
    if s < MIN_TIME_SLICE then MIN_TIME_SLICE else s
  }

  // b is the first of the first n with the smallest virtual run time.
  ghost predicate IsBest(t: seq<Proc>, n: nat, b: nat)
    requires n <= |t|
  {
    && b < n && Eligible(t[b])
    && (forall j | 0 <= j < n && Eligible(t[j]) :: t[b].vruntime <= t[j].vruntime)
    && (forall j | 0 <= j < b && Eligible(t[j]) :: t[b].vruntime < t[j].vruntime)
  }

  // The scheduler switches to b.
  function Pick(t: seq<Proc>, b: nat): seq<Proc>
    requires b < |t|
  {
    t[b := t[b].(state := Running, slice := Slice(Count(t, |t|)))]
  }

  // b comes back, runnable, asleep or a zombie, and is charged for its slice.
  function Charge(t: seq<Proc>, b: nat, s: State): seq<Proc>
    requires b < |t| && t[b].weight > 0
  {
    t[b := t[b].(state := s, vruntime := t[b].vruntime + t[b].slice * NICE0 / t[b].weight)]
  }

  // What kfork gives a child: the least virtual run time around, or its parent's.
  ghost predicate ChildTime(t: seq<Proc>, parent: nat, v: nat)
    requires parent < |t|
  {
    if exists j :: 0 <= j < |t| && Eligible(t[j]) then
      (exists j :: 0 <= j < |t| && Eligible(t[j]) && t[j].vruntime == v) && forall j | 0 <= j < |t| && Eligible(t[j]) :: v <= t[j].vruntime
    else v == t[parent].vruntime
  }

  function Child(t: seq<Proc>, parent: nat, c: nat, pid: nat, v: nat): seq<Proc>
    requires parent < |t| && c < |t|
  {
    t[c := Proc(Runnable, pid, v, t[parent].weight, 0)]
  }

  ghost predicate Near(a: nat, b: nat) { a <= b + TARGET_LATENCY && b <= a + TARGET_LATENCY }

  // What holds at all times on one CPU: nobody's nice value has changed, and the running
  // process, if any, has a slice.
  ghost predicate Steady(t: seq<Proc>, running: int) {
    && (forall i | 0 <= i < |t| && t[i].state != Unused :: t[i].weight == NICE0)
    && (forall i | 0 <= i < |t| :: t[i].state == Running <==> i == running)
    && (0 <= running < |t| ==> t[running].slice <= TARGET_LATENCY)
  }

  // Besides, runnable user processes are within TARGET_LATENCY of each other; and while one
  // of them runs, the others are at most that far ahead of it, and none is behind.
  ghost predicate Fair(t: seq<Proc>, running: int) {
    && Steady(t, running)
    && (forall i, j | 0 <= i < |t| && 0 <= j < |t| && Eligible(t[i]) && Eligible(t[j]) :: Near(t[i].vruntime, t[j].vruntime))
    && (0 <= running < |t| && t[running].pid > 2 ==>
          forall i | 0 <= i < |t| && Eligible(t[i]) :: t[running].vruntime <= t[i].vruntime <= t[running].vruntime + TARGET_LATENCY)
  }

  // n processes share 48 ticks as evenly as whole ticks allow, but none gets less than three:
  // up to sixteen slices fit, slices one tick longer would not; beyond that each gets three.
  lemma SliceIsShare(n: nat)
    ensures Slice(0) == 48
    ensures 1 <= n <= 16 ==> n * Slice(n) <= 48 < n * (Slice(n) + 1)
    ensures n > 16 ==> Slice(n) == 3
  {
    if 1 <= n <= 16 { DivisionIs(48, n); }
  }

  lemma DivisionIs(a: nat, n: nat)
    requires n > 0
    ensures n * (a / n) <= a < n * (a / n + 1)
  {
    assert a == n * (a / n) + a % n;
    assert n * (a / n + 1) == n * (a / n) + n;
  }

  // A turn costs the slice scaled by 1024 over the weight, rounded down: one tick a tick for
  // a process of nice 0, less for a heavier one.
  lemma ChargeIsWeighted(t: seq<Proc>, b: nat, s: State)
    requires b < |t| && t[b].weight > 0
    ensures var cost := Charge(t, b, s)[b].vruntime - t[b].vruntime;
            && cost >= 0 && t[b].weight * cost <= t[b].slice * 1024 < t[b].weight * (cost + 1)
            && (t[b].weight == 1024 ==> cost == t[b].slice)
    ensures Charge(t, b, s)[b].state == s && forall i | 0 <= i < |t| && i != b :: Charge(t, b, s)[i] == t[i]
  {
    var a, w := t[b].slice * NICE0, t[b].weight;
    assert Charge(t, b, s)[b].vruntime - t[b].vruntime == a / w;
    DivisionIs(a, w);
    WholeSlice(t[b].slice);
  }

  // init and the shell, processes 1 and 2, wait for all others.
  lemma PickIsUser(t: seq<Proc>, b: nat)
    requires IsBest(t, |t|, b)
    ensures t[b].state == Runnable && t[b].pid >= 3
    ensures forall j | 0 <= j < |t| && t[j].state == Runnable && t[j].pid >= 3 ::
              t[b].vruntime <= t[j].vruntime && (j < b ==> t[b].vruntime < t[j].vruntime)
  {
  }

  // A child goes before no runnable user process that its birth has not put behind, and none
  // goes before it for long: the least virtual run time is the same as before, and the child's.
  lemma ForkKeepsLeast(t: seq<Proc>, parent: nat, c: nat, pid: nat, v: nat)
    requires parent < |t| && c < |t| && t[c].state == Unused && ChildTime(t, parent, v)
    requires exists j :: 0 <= j < |t| && t[j].state == Runnable && t[j].pid >= 3
    ensures var r := Child(t, parent, c, pid, v);
            && r[c].state == Runnable && r[c].weight == t[parent].weight
            && (forall i | 0 <= i < |t| && t[i].state == Runnable && t[i].pid >= 3 :: r[c].vruntime <= r[i].vruntime == t[i].vruntime)
            && (exists i :: 0 <= i < |t| && i != c && t[i].state == Runnable && t[i].pid >= 3 && r[i].vruntime == r[c].vruntime)
  {
    var j :| 0 <= j < |t| && t[j].state == Runnable && t[j].pid >= 3;
    assert Eligible(t[j]);
    var i :| 0 <= i < |t| && Eligible(t[i]) && t[i].vruntime == v;
    assert i != c && t[i].pid >= 3;
  }

  lemma PickIsSteady(t: seq<Proc>, b: nat)
    requires Steady(t, -1) && b < |t| && t[b].state == Runnable
    ensures Steady(Pick(t, b), b)
  {
  }

  lemma ChargeIsSteady(t: seq<Proc>, b: nat, s: State)
    requires b < |t| && Steady(t, b) && (s == Runnable || s == Sleeping || s == Zombie)
    ensures t[b].weight == NICE0 && Steady(Charge(t, b, s), -1)
  {
  }

  lemma PickIsFair(t: seq<Proc>, b: nat)
    requires Fair(t, -1) && IsBest(t, |t|, b)
    ensures Fair(Pick(t, b), b)
  {
  }

  // The fallback: a system process runs when no user process can.
  lemma FallbackIsFair(t: seq<Proc>, b: nat)
    requires Fair(t, -1) && b < |t| && t[b].state == Runnable && (forall j | 0 <= j < |t| :: !Eligible(t[j]))
    ensures Fair(Pick(t, b), b)
  {
  }

  lemma WholeSlice(s: nat)
    ensures s * NICE0 / NICE0 == s
  {
  }

  lemma ChargeIsFair(t: seq<Proc>, b: nat, s: State)
    requires b < |t| && Fair(t, b) && (s == Runnable || s == Sleeping || s == Zombie)
    ensures t[b].weight == NICE0 && Fair(Charge(t, b, s), -1)
  {
    WholeSlice(t[b].slice);
  }

  lemma ForkIsFair(t: seq<Proc>, parent: nat, c: nat, pid: nat, v: nat)
    requires parent < |t| && c < |t| && Fair(t, parent) && t[c].state == Unused && ChildTime(t, parent, v)
    ensures Fair(Child(t, parent, c, pid, v), parent)
  {
  }

  lemma ReapIsFair(t: seq<Proc>, running: int, z: nat)
    requires z < |t| && Fair(t, running) && t[z].state == Zombie
    ensures Fair(t[z := t[z].(state := Unused)], running)
  {
  }

  // sleep charges a process its slice and wakeup charges nothing, so however long it slept
  // it wakes with the virtual run time it had.
  function Woken(t: seq<Proc>, z: nat): seq<Proc>
    requires z < |t|
  {
    t[z := t[z].(state := Runnable)]
  }

  ghost predicate NearOthers(t: seq<Proc>, running: int, z: nat)
    requires z < |t|
  {
    t[z].pid > 2 ==>
      && (forall j | 0 <= j < |t| && Eligible(t[j]) :: Near(t[z].vruntime, t[j].vruntime))
      && (0 <= running < |t| && t[running].pid > 2 ==> t[running].vruntime <= t[z].vruntime <= t[running].vruntime + TARGET_LATENCY)
  }

  lemma WakeIsFairIff(t: seq<Proc>, running: int, z: nat)
    requires z < |t| && Fair(t, running) && t[z].state == Sleeping
    ensures Fair(Woken(t, z), running) <==> NearOthers(t, running, z)
  {
    var r := Woken(t, z);
    assert z != running;
    if Fair(r, running) && t[z].pid > 2 {
      assert Eligible(r[z]);
      forall j | 0 <= j < |t| && Eligible(t[j])
        ensures Near(t[z].vruntime, t[j].vruntime)
      {
        assert Eligible(r[j]);
      }
    }
  }

  lemma {:induction false} BestExists(t: seq<Proc>, n: nat, e: nat)
    requires e < n <= |t| && Eligible(t[e])
    ensures exists b: nat :: IsBest(t, n, b)
  {
    if exists j :: 0 <= j < n - 1 && Eligible(t[j]) {
      var j :| 0 <= j < n - 1 && Eligible(t[j]);
      BestExists(t, n - 1, j);
      var b: nat :| IsBest(t, n - 1, b);
      assert IsBest(t, n, if Eligible(t[n - 1]) && t[n - 1].vruntime < t[b].vruntime then n - 1 else b);
    } else {
      assert IsBest(t, n, e);
    }
  }

  ghost function Best(t: seq<Proc>): (b: nat)
    requires exists j :: 0 <= j < |t| && Eligible(t[j])
    ensures IsBest(t, |t|, b)
  {
    var j :| 0 <= j < |t| && Eligible(t[j]);
    BestExists(t, |t|, j);
    var b: nat :| IsBest(t, |t|, b);
    b
  }

  // One decision: the best process has its slice and comes back.
  ghost function Decide(t: seq<Proc>): seq<Proc>
    requires (exists j :: 0 <= j < |t| && Eligible(t[j])) && Steady(t, -1)
  {
    Charge(Pick(t, Best(t)), Best(t), Runnable)
  }

  // Deciding keeps the set of runnable processes, and charges one of them one slice.
  lemma DecideIs(t: seq<Proc>)
    requires (exists j :: 0 <= j < |t| && Eligible(t[j])) && Steady(t, -1)
    ensures var r, b := Decide(t), Best(t);
            && Steady(r, -1) && |r| == |t|
            && (forall i | 0 <= i < |t| :: Eligible(r[i]) <==> Eligible(t[i]))
            && (forall i | 0 <= i < |t| && i != b :: r[i] == t[i])
            && r[b].vruntime == t[b].vruntime + Slice(Count(t, |t|))
            && Count(r, |r|) == Count(t, |t|)
  {
    WholeSlice(Slice(Count(t, |t|)));
    SameCount(t, Decide(t), |t|);
  }

  lemma {:induction false} SameCount(t: seq<Proc>, r: seq<Proc>, n: nat)
    requires n <= |t| == |r| && forall i | 0 <= i < |t| :: Eligible(r[i]) <==> Eligible(t[i])
    ensures Count(r, n) == Count(t, n)
  {
    if n > 0 { SameCount(t, r, n - 1); }
  }

  // How many more turns somebody at q can have before somebody at p, at s a turn.
  function Turns(p: nat, q: nat, s: nat): nat
    requires s > 0
    decreases if q > p then 0 else p - q + 1
  {
    if q > p then 0 else 1 + Turns(p, q + s, s)
  }

  lemma {:induction false} TurnsBound(p: nat, q: nat, s: nat)
    requires s >= MIN_TIME_SLICE && p <= q + TARGET_LATENCY
    ensures Turns(p, q, s) <= 17
    decreases if q > p then 0 else p - q + 1
  {
    TurnsCost(p, q, s);
  }

  lemma {:induction false} TurnsCost(p: nat, q: nat, s: nat)
    requires s >= MIN_TIME_SLICE
    ensures MIN_TIME_SLICE * Turns(p, q, s) <= if q > p then 0 else p - q + MIN_TIME_SLICE
    decreases if q > p then 0 else p - q + 1
  {
    if q <= p { TurnsCost(p, q + s, s); }
  }

  // All the turns the others among the first n can have before p.
  ghost function TurnsBefore(t: seq<Proc>, p: nat, s: nat, n: nat): nat
    requires n <= |t| && p < |t| && s > 0
  {
    if n == 0 then 0
    else TurnsBefore(t, p, s, n - 1) + (if Eligible(t[n - 1]) && n - 1 != p then Turns(t[p].vruntime, t[n - 1].vruntime, s) else 0)
  }

  lemma {:induction false} TurnsBeforeBound(t: seq<Proc>, p: nat, s: nat, n: nat)
    requires n <= |t| && p < |t| && s >= MIN_TIME_SLICE && Fair(t, -1) && Eligible(t[p])
    ensures TurnsBefore(t, p, s, n) + (if p < n then 17 else 0) <= 17 * Count(t, n)
  {
    if n > 0 {
      TurnsBeforeBound(t, p, s, n - 1);
      if Eligible(t[n - 1]) && n - 1 != p { TurnsBound(t[p].vruntime, t[n - 1].vruntime, s); }
    }
  }

  // A turn of b uses up one of them.
  lemma {:induction false} TurnUsed(t: seq<Proc>, r: seq<Proc>, p: nat, b: nat, s: nat, n: nat)
    requires n <= |t| == |r| && p < |t| && b < |t| && b != p && s > 0 && Eligible(t[b]) && Eligible(r[b])
    requires t[b].vruntime <= t[p].vruntime && r[b].vruntime == t[b].vruntime + s
    requires forall i | 0 <= i < |t| && i != b :: r[i] == t[i]
    ensures TurnsBefore(r, p, s, n) + (if b < n then 1 else 0) == TurnsBefore(t, p, s, n)
  {
    if n > 0 { TurnUsed(t, r, p, b, s, n - 1); }
  }

  // Who is picked at each of the next decisions.
  ghost predicate PickedWithin(t: seq<Proc>, p: nat, k: nat)
    requires Steady(t, -1) && p < |t| && Eligible(t[p])
    decreases k
  {
    k > 0 && (Best(t) == p || (DecideIs(t); PickedWithin(Decide(t), p, k - 1)))
  }

  // However far behind the others are, the wait is no longer than the turns they can have
  // before p.
  lemma {:induction false} WaitIsBounded(t: seq<Proc>, p: nat, k: nat)
    requires Steady(t, -1) && p < |t| && Eligible(t[p])
    requires TurnsBefore(t, p, Slice(Count(t, |t|)), |t|) < k
    ensures PickedWithin(t, p, k)
    decreases k
  {
    if Best(t) != p {
      DecideIs(t);
      TurnUsed(t, Decide(t), p, Best(t), Slice(Count(t, |t|)), |t|);
      WaitIsBounded(Decide(t), p, k - 1);
    }
  }

  // Fairness: while the same n processes are runnable, each of them is picked at least
  // once in any 17 * (n - 1) + 1 consecutive decisions.
  lemma NobodyStarves(t: seq<Proc>, p: nat)
    requires Fair(t, -1) && p < |t| && Eligible(t[p])
    ensures Steady(t, -1) && Count(t, |t|) >= 1
    ensures PickedWithin(t, p, 17 * (Count(t, |t|) - 1) + 1)
  {
    var s := Slice(Count(t, |t|));
    TurnsBeforeBound(t, p, s, |t|);
    WaitIsBounded(t, p, 17 * (Count(t, |t|) - 1) + 1);
  }

  // A run of the machine: what happens to the process table, step by step.
  datatype Step =
    | Switch(b: nat) | Fallback(b: nat) | Yield | Sleep | Exit | Wake(z: nat)
    | Fork(c: nat, pid: nat, v: nat) | Reap(z: nat)

  ghost predicate Enabled(t: seq<Proc>, running: int, e: Step) {
    match e
    case Switch(b) => running == -1 && b < |t| && IsBest(t, |t|, b)
    case Fallback(b) => running == -1 && b < |t| && t[b].state == Runnable && forall j | 0 <= j < |t| :: !Eligible(t[j])
    case Yield => 0 <= running < |t| && t[running].weight > 0
    case Sleep => 0 <= running < |t| && t[running].weight > 0
    case Exit => 0 <= running < |t| && t[running].weight > 0
    case Wake(z) => z < |t| && t[z].state == Sleeping
    case Fork(c, pid, v) => 0 <= running < |t| && c < |t| && t[c].state == Unused && ChildTime(t, running, v)
    case Reap(z) => z < |t| && t[z].state == Zombie
  }

  ghost function Next(t: seq<Proc>, running: int, e: Step): (seq<Proc>, int)
    requires Enabled(t, running, e)
  {
    match e
    case Switch(b) => (Pick(t, b), b)
    case Fallback(b) => (Pick(t, b), b)
    case Yield => (Charge(t, running, Runnable), -1)
    case Sleep => (Charge(t, running, Sleeping), -1)
    case Exit => (Charge(t, running, Zombie), -1)
    case Wake(z) => (Woken(t, z), running)
    case Fork(c, pid, v) => (Child(t, running, c, pid, v), running)
    case Reap(z) => (t[z := t[z].(state := Unused)], running)
  }

  lemma NextIsFair(t: seq<Proc>, running: int, e: Step)
    requires Enabled(t, running, e) && Fair(t, running)
    ensures var (r, k) := Next(t, running, e); Fair(r, k) <==> e.Wake? ==> NearOthers(t, running, e.z)
  {
    hide Fair, ChildTime, IsBest, NearOthers;
    match e {
      case Switch(b) => PickIsFair(t, b);
      case Fallback(b) => FallbackIsFair(t, b);
      case Yield => ChargeIsFair(t, running, Runnable);
      case Sleep => ChargeIsFair(t, running, Sleeping);
      case Exit => ChargeIsFair(t, running, Zombie);
      case Wake(z) => WakeIsFairIff(t, running, z);
      case Fork(c, pid, v) => ForkIsFair(t, running, c, pid, v);
      case Reap(z) => ReapIsFair(t, running, z);
    }
  }

  ghost predicate CanRun(t: seq<Proc>, running: int, run: seq<Step>)
    decreases |run|
  {
    run == [] || (Enabled(t, running, run[0]) && var (r, k) := Next(t, running, run[0]); CanRun(r, k, run[1..]))
  }

  ghost function After(t: seq<Proc>, running: int, run: seq<Step>): (seq<Proc>, int)
    requires CanRun(t, running, run)
    decreases |run|
  {
    if run == [] then (t, running) else var (r, k) := Next(t, running, run[0]); After(r, k, run[1..])
  }

  // Every process that wakes on the way is near the others when it does.
  ghost predicate WakesNear(t: seq<Proc>, running: int, run: seq<Step>)
    requires CanRun(t, running, run)
    decreases |run|
  {
    run != [] ==>
      && (run[0].Wake? ==> NearOthers(t, running, run[0].z))
      && var (r, k) := Next(t, running, run[0]); WakesNear(r, k, run[1..])
  }

  ghost predicate FairThroughout(t: seq<Proc>, running: int, run: seq<Step>)
    requires CanRun(t, running, run)
    decreases |run|
  {
    Fair(t, running) && (run != [] ==> var (r, k) := Next(t, running, run[0]); FairThroughout(r, k, run[1..]))
  }

  // Over every run of slices, sleeps, forks and exits: all weights stay 1024, and runnable
  // user processes stay within 48 of each other, exactly if whoever wakes is within 48.
  lemma {:induction false} SpreadStaysBounded(t: seq<Proc>, running: int, run: seq<Step>)
    requires Fair(t, running) && CanRun(t, running, run)
    ensures FairThroughout(t, running, run) <==> WakesNear(t, running, run)
    decreases |run|
  {
    hide Fair, NearOthers, ChildTime, IsBest;
    if run != [] {
      NextIsFair(t, running, run[0]);
      var (r, k) := Next(t, running, run[0]);
      if Fair(r, k) { SpreadStaysBounded(r, k, run[1..]); } else { NotFair(r, k, run[1..]); }
    }
  }

  lemma NotFair(t: seq<Proc>, running: int, run: seq<Step>)
    requires CanRun(t, running, run) && !Fair(t, running)
    ensures !FairThroughout(t, running, run)
  {
  }

  lemma StepFirst(t: seq<Proc>, running: int, e: Step, r: seq<Proc>, k: int, rest: seq<Step>)
    requires Enabled(t, running, e) && Next(t, running, e) == (r, k) && CanRun(r, k, rest)
    ensures CanRun(t, running, [e] + rest) && After(t, running, [e] + rest) == After(r, k, rest)
  {
    assert ([e] + rest)[1..] == rest;
  }

  // init and two user processes: one that sleeps or is back, and one that does not.
  ghost predicate Pair(t: seq<Proc>, s: State, a: nat, v: nat) {
    && |t| >= 3 && t[0].state == Runnable && t[0].pid == 1 && t[0].weight == NICE0
    && t[1].state == s && t[1].pid == 3 && t[1].vruntime == a && t[1].weight == NICE0
    && t[2].state == Runnable && t[2].pid == 4 && t[2].vruntime == v && t[2].weight == NICE0
    && forall i | 3 <= i < |t| :: t[i].state == Unused
  }

  lemma {:induction false} PairCount(t: seq<Proc>, n: nat)
    requires 3 <= n <= |t| && !Eligible(t[0]) && forall i | 3 <= i < |t| :: !Eligible(t[i])
    ensures Count(t, n) == (if Eligible(t[1]) then 1 else 0) + (if Eligible(t[2]) then 1 else 0)
  {
    if n > 3 {
      PairCount(t, n - 1);
    } else {
      assert Count(t, 3) == Count(t, 2) + (if Eligible(t[2]) then 1 else 0);
      assert Count(t, 2) == Count(t, 1) + (if Eligible(t[1]) then 1 else 0);
      assert Count(t, 1) == Count(t, 0);
    }
  }

  // While the first sleeps the second has k turns; then the first wakes.
  lemma {:induction false} LoneTurns(t: seq<Proc>, a: nat, v: nat, k: nat) returns (run: seq<Step>, r: seq<Proc>)
    requires Pair(t, Sleeping, a, v)
    ensures CanRun(t, -1, run) && After(t, -1, run) == (r, -1) && Pair(r, Runnable, a, v + TARGET_LATENCY * k)
    decreases k
  {
    hide CanRun, After;
    if k == 0 {
      r := Woken(t, 1);
      run := [Wake(1)] + [];
      NoSteps(r);
      StepFirst(t, -1, Wake(1), r, -1, []);
    } else {
      PairCount(t, |t|);
      var u := Pick(t, 2);
      WholeSlice(u[2].slice);
      var w := Charge(u, 2, Runnable);
      var rest;
      rest, r := LoneTurns(w, a, v + TARGET_LATENCY, k - 1);
      StepFirst(u, 2, Yield, w, -1, rest);
      StepFirst(t, -1, Switch(2), u, 2, [Yield] + rest);
      run := [Switch(2)] + ([Yield] + rest);
    }
  }

  lemma NoSteps(t: seq<Proc>)
    ensures CanRun(t, -1, []) && After(t, -1, []) == (t, -1)
  {
  }

  // Every decision is for the first as long as it is behind.
  lemma {:induction false} Monopoly(t: seq<Proc>, a: nat, v: nat, m: nat)
    requires Pair(t, Runnable, a, v) && (m > 0 ==> a + TARGET_LATENCY / 2 * (m - 1) <= v)
    ensures Steady(t, -1) && Eligible(t[1]) && Eligible(t[2]) && !PickedWithin(t, 2, m)
    decreases m
  {
    assert Eligible(t[1]) && Eligible(t[2]);
    if m > 0 {
      PairCount(t, |t|);
      DecideIs(t);
      assert Best(t) == 1;
      Monopoly(Decide(t), a + TARGET_LATENCY / 2, v, m - 1);
    }
  }

  // There is no bound on how long a process waits for one that has slept: a run from boot
  // after which, with two user processes to choose from, one of them is passed over 2 * k
  // times in a row.
  lemma SleeperMonopolises(t: seq<Proc>, k: nat) returns (run: seq<Step>, r: seq<Proc>)
    requires |t| >= 3 && t[0] == Proc(Runnable, 1, 0, NICE0, 0) && forall i | 1 <= i < |t| :: t[i].state == Unused
    ensures CanRun(t, -1, run) && After(t, -1, run) == (r, -1)
    ensures |r| == |t| && Steady(r, -1) && Count(r, |r|) == 2 && Eligible(r[1]) && Eligible(r[2]) && !PickedWithin(r, 2, 2 * k)
  {
    hide CanRun, After, PickedWithin;
    var forks, u := TwoForks(t);
    PairCount(u, |u|);
    var w := Pick(u, 1);
    WholeSlice(w[1].slice);
    var x := Charge(w, 1, Sleeping);
    var rest;
    rest, r := LoneTurns(x, TARGET_LATENCY / 2, 0, k);
    StepFirst(w, 1, Sleep, x, -1, rest);
    StepFirst(u, -1, Switch(1), w, 1, [Sleep] + rest);
    run := forks + ([Switch(1)] + ([Sleep] + rest));
    RunOn(t, -1, forks, u, -1, [Switch(1)] + ([Sleep] + rest));
    PairCount(r, |r|);
    Monopoly(r, TARGET_LATENCY / 2, TARGET_LATENCY * k, 2 * k);
    SameTable(t, -1, run);
  }

  lemma {:induction false} SameTable(t: seq<Proc>, running: int, run: seq<Step>)
    requires CanRun(t, running, run)
    ensures |After(t, running, run).0| == |t|
    decreases |run|
  {
    if run != [] {
      var (r, k) := Next(t, running, run[0]);
      SameTable(r, k, run[1..]);
    }
  }

  lemma {:induction false} RunOn(t: seq<Proc>, running: int, run: seq<Step>, r: seq<Proc>, k: int, more: seq<Step>)
    requires CanRun(t, running, run) && After(t, running, run) == (r, k) && CanRun(r, k, more)
    ensures CanRun(t, running, run + more) && After(t, running, run + more) == After(r, k, more)
    decreases |run|
  {
    hide Enabled;
    if run == [] {
      assert run + more == more;
    } else {
      var (u, j) := Next(t, running, run[0]);
      RunOn(u, j, run[1..], r, k, more);
      assert (run + more)[1..] == run[1..] + more;
    }
  }

  // init starts two processes.
  lemma TwoForks(t: seq<Proc>) returns (run: seq<Step>, r: seq<Proc>)
    requires |t| >= 3 && t[0] == Proc(Runnable, 1, 0, NICE0, 0) && forall i | 1 <= i < |t| :: t[i].state == Unused
    ensures CanRun(t, -1, run) && After(t, -1, run) == (r, -1) && Pair(r, Runnable, 0, 0)
  {
    hide CanRun, After;
    var a := Pick(t, 0);
    var b := Child(a, 0, 1, 3, 0);
    var c := Child(b, 0, 2, 4, 0);
    assert Eligible(b[1]);
    r := Charge(c, 0, Runnable);
    NoSteps(r);
    StepFirst(c, 0, Yield, r, -1, []);
    StepFirst(b, 0, Fork(2, 4, 0), c, 0, [Yield] + []);
    StepFirst(a, 0, Fork(1, 3, 0), b, 0, [Fork(2, 4, 0)] + ([Yield] + []));
    StepFirst(t, -1, Fallback(0), a, 0, [Fork(1, 3, 0)] + ([Fork(2, 4, 0)] + ([Yield] + [])));
    run := [Fallback(0)] + ([Fork(1, 3, 0)] + ([Fork(2, 4, 0)] + ([Yield] + [])));
  }

  // At boot nobody runs and nobody but init exists.
  lemma BootIsFair(t: seq<Proc>)
    requires forall i | 0 <= i < |t| :: t[i].state == Unused || (t[i].state == Runnable && t[i].pid == 1 && t[i].weight == NICE0)
    ensures Fair(t, -1)
  {
  }
}
