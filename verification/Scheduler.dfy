// The process table of kernel/proc.c: the CFS scheduler's decision, and kfork.

module Scheduler {
  import opened CfsModel

  class Cpu {
    const proc: array<Proc>
    var running: int    // index of c->proc, or -1

    ghost predicate Ok()
      reads this, proc
    {
      proc.Length == NPROC && -1 <= running < NPROC && Steady(proc[..], running)
    }

    constructor (proc: array<Proc>)
      requires proc.Length == NPROC && Steady(proc[..], -1)
      ensures Ok() && this.proc == proc && running == -1
    {
      this.proc, running := proc, -1;
    }

    // The counting loop of scheduler.
    method CountRunnable() returns (n: nat)
      ensures n == Count(proc[..], proc.Length)
    {
      n := 0;
      for i := 0 to proc.Length
        invariant n == Count(proc[..], i)
      {
        assert proc[..][i] == proc[i];
        if proc[i].state == Runnable && proc[i].pid > 2 {
          n := n + 1;
        }
      }
    }

    // The loop that finds the runnable user process with the smallest vruntime. -1: none.
    method FindBest() returns (best: int)
      ensures -1 <= best < proc.Length
      ensures if best >= 0 then IsBest(proc[..], proc.Length, best) else forall j | 0 <= j < proc.Length :: !Eligible(proc[j])
    {
      best := -1;
      var least := 0;
      for i := 0 to proc.Length
        invariant -1 <= best < i
        invariant if best >= 0 then IsBest(proc[..], i, best) && least == proc[best].vruntime
                  else forall j | 0 <= j < i :: !Eligible(proc[..][j])
      {
        assert proc[..][i] == proc[i];
        if proc[i].state == Runnable && proc[i].pid > 2 {
          if best == -1 || proc[i].vruntime < least {
            best := i;
            least := proc[i].vruntime;
          }
        }
      }
    }

    // No user process can run, and process b is the first that can.
    ghost predicate OnlySystem(t: seq<Proc>, b: nat)
      requires b < |t|
    {
      && t[b].state == Runnable && (forall j | 0 <= j < b :: t[j].state != Runnable)
      && forall j | 0 <= j < |t| && t[j].state == Runnable :: t[j].pid <= 2
    }

    // One decision of scheduler. -1: nothing can run.
    method Schedule() returns (b: int)
      requires Ok() && running == -1
      modifies this, proc
      ensures Ok() && running == b && -1 <= b < proc.Length
      ensures b >= 0 ==> proc[..] == Pick(old(proc[..]), b)
      ensures b == -1 ==> proc[..] == old(proc[..]) && forall j | 0 <= j < proc.Length :: proc[j].state != Runnable
      ensures b >= 0 ==> IsBest(old(proc[..]), proc.Length, b) || OnlySystem(old(proc[..]), b)
      ensures old(Fair(proc[..], -1)) ==> Fair(proc[..], b)
    {
      ghost var t := proc[..];
      var n := CountRunnable();
      var slice := TARGET_LATENCY;
      if n > 0 {
        slice := TARGET_LATENCY / n;
      }
      if slice < MIN_TIME_SLICE {
        slice := MIN_TIME_SLICE;
      }
      b := FindBest();
      if b == -1 {
        var i := 0;
        while i < proc.Length
          invariant 0 <= i <= proc.Length && b == -1 && forall j | 0 <= j < i :: proc[j].state != Runnable
        {
          if proc[i].state == Runnable {
            b := i;
            break;
          }
          i := i + 1;
        }
        if b == -1 {
          return;
        }
        if Fair(t, -1) { FallbackIsFair(t, b); }
      } else {
        if Fair(t, -1) { PickIsFair(t, b); }
      }
      PickIsSteady(t, b);
      proc[b] := proc[b].(state := Running, slice := slice);
      running := b;
      assert proc[..] == Pick(t, b);
    }

    // The process comes back from swtch: runnable after yield, asleep after sleep, a zombie
    // after kexit.
    method ComeBack(s: State)
      requires Ok() && running >= 0 && (s == Runnable || s == Sleeping || s == Zombie)
      modifies this, proc
      ensures Ok() && running == -1
      ensures 0 <= old(running) < proc.Length && old(proc[..])[old(running)].weight > 0
      ensures proc[..] == Charge(old(proc[..]), old(running), s)
      ensures old(Fair(proc[..], running)) ==> Fair(proc[..], -1)
    {
      ghost var t := proc[..];
      var b := running;
      ChargeIsSteady(t, b, s);
      if Fair(t, b) { ChargeIsFair(t, b, s); }
      proc[b] := proc[b].(state := s);
      proc[b] := proc[b].(vruntime := proc[b].vruntime + proc[b].slice * NICE0 / proc[b].weight);
      running := -1;
      assert proc[..] == Charge(t, b, s);
    }

    // kfork by the running process, as the scheduler will see it. -1: no free slot.
    method Fork(pid: nat) returns (c: int)
      requires Ok() && running >= 0
      modifies proc
      ensures Ok() && running == old(running) && -1 <= c < proc.Length && 0 <= running < proc.Length
      ensures c == -1 ==> proc[..] == old(proc[..]) && forall j | 0 <= j < proc.Length :: proc[j].state != Unused
      ensures c >= 0 ==> (forall j | 0 <= j < c :: proc[j].state != Unused) && old(proc[c]).state == Unused && ChildTime(old(proc[..]), running, proc[c].vruntime)
      ensures c >= 0 ==> proc[..] == Child(old(proc[..]), running, c, pid, proc[c].vruntime)
      ensures old(Fair(proc[..], running)) ==> Fair(proc[..], running)
    {
      ghost var t := proc[..];
      c := 0;
      while c < proc.Length && proc[c].state != Unused
        invariant 0 <= c <= proc.Length && forall j | 0 <= j < c :: proc[j].state != Unused
      {
        c := c + 1;
      }
      if c == proc.Length {
        return -1;
      }
      var v := LeastTime();
      if Fair(t, running) { ForkIsFair(t, running, c, pid, v); }
      proc[c] := Proc(Runnable, pid, v, proc[running].weight, 0);
      assert proc[..] == Child(t, running, c, pid, v);
    }

    // kfork's search for the least virtual run time.
    method LeastTime() returns (v: nat)
      requires 0 <= running < proc.Length
      ensures ChildTime(proc[..], running, v)
    {
      var found := false;
      v := proc[running].vruntime;
      for i := 0 to proc.Length
        invariant found <==> exists j :: 0 <= j < i && Eligible(proc[..][j])
        invariant found ==> exists j :: 0 <= j < i && Eligible(proc[..][j]) && proc[..][j].vruntime == v
        invariant found ==> forall j | 0 <= j < i && Eligible(proc[..][j]) :: v <= proc[..][j].vruntime
        invariant !found ==> v == proc[running].vruntime
      {
        assert proc[..][i] == proc[i];
        if proc[i].state == Runnable && proc[i].pid > 2 {
          if !found || proc[i].vruntime < v {
            v := proc[i].vruntime;
          }
          found := true;
        }
      }
    }
  }
}
