// The clock's hand: where it goes on after an eviction, and the second chance this gives.

module SwapClock {
  import opened SwapModel
  import opened SwapSafety
  import opened SwapFault
  import opened SwapOrder

  // How many entries the hand passes before it comes to entry i.
  function Ahead(hand: nat, i: nat): nat { (i - hand) % 1024 }

  lemma AheadIs(hand: nat, i: nat)
    ensures Ahead(hand, i) == Ahead(hand % 1024, i)
  {
    var q := hand / 1024;
    assert hand == 1024 * q + hand % 1024;
    assert i - hand == (i - hand % 1024) - 1024 * q;
    ModShift(i - hand % 1024, q);
  }

  lemma {:induction false} ModShift(x: int, q: nat)
    ensures (x - 1024 * q) % 1024 == x % 1024
    decreases q
  {
    if q > 0 { ModShift(x - 1024, q - 1); }
  }

  // From one past b on, b is the last to be come to.
  lemma AheadAfter(b: nat, i: nat)
    requires b < 1024 && i < 1024 && i != b
    ensures Ahead((b + 1) % 1024, i) < Ahead((b + 1) % 1024, b) == 1023
  {
  }

  // Of all entries, entry b has lost its page from m to t.
  ghost predicate Evicted(m: Memory, t: Memory, b: nat) {
    && b < |m.metas| == |t.metas| && Resident(m.metas[b]) && !Resident(t.metas[b])
    && forall i | 0 <= i < |m.metas| && i != b :: Resident(t.metas[i]) <==> Resident(m.metas[i])
  }

  // An eviction takes the first resident page from the hand on that is not referenced, takes
  // the reference bits of those it passes and of no other, and puts the hand where every other
  // entry comes before the one just emptied.
  lemma ClockEvicts(m: Memory, hasSwap: bool, room: nat) returns (b: nat)
    requires Sized(m) && TryEvict(m, Clock, hasSwap, room).ok
    ensures var t := TryEvict(m, Clock, hasSwap, room).m;
            && Evicted(m, t, b) && !m.metas[b].referenced
            && (forall i | 0 <= i < |m.metas| && Resident(m.metas[i]) && !m.metas[i].referenced :: Ahead(m.hand, b) <= Ahead(m.hand, i))
            && (forall i | 0 <= i < |m.metas| && i != b ::
                  t.metas[i] == if Resident(m.metas[i]) && Ahead(m.hand, i) < Ahead(m.hand, b) then m.metas[i].(referenced := false) else m.metas[i])
            && (forall i | 0 <= i < |m.metas| && i != b :: Ahead(t.hand, i) < Ahead(t.hand, b))
  {
    hide Sweep, Passed, Evict, Ahead, Resident, Under;
    var start := m.hand % PGMETA_SIZE;
    var d := Sweep(m.metas, start, 0);
    var p := m.(metas := Passed(m.metas, start, d));
    b := Under(start, d);
    ClockTakesFirst(m.metas, start);
    UnderIs(start, d);
    EvictMoves(p, hasSwap, b, room);
    var hand := TryEvict(m, Clock, hasSwap, room).m.hand;
    assert hand == (b + 1) % 1024;
    forall i | 0 <= i < |m.metas|
      ensures Ahead(m.hand, i) == (i - start) % PGMETA_SIZE
      ensures i != b ==> Ahead(hand, i) < Ahead(hand, b)
      ensures Resident(p.metas[i]) <==> Resident(m.metas[i])
    {
      AheadOf(m.hand, i);
      if i != b { AheadAfter(b, i); }
      PassedResident(m.metas, start, d, i);
    }
    AheadOf(m.hand, b);
  }

  lemma UnderIs(start: nat, d: nat)
    requires start < PGMETA_SIZE && d < PGMETA_SIZE
    ensures Under(start, d) < PGMETA_SIZE && (Under(start, d) - start) % PGMETA_SIZE == d
  {
    UnderDistance(start, d);
  }

  lemma AheadOf(hand: nat, i: nat)
    ensures Ahead(hand, i) == (i - hand % PGMETA_SIZE) % PGMETA_SIZE
  {
    AheadIs(hand, i);
  }

  lemma EvictMoves(m: Memory, hasSwap: bool, b: nat, room: nat)
    requires b < |m.metas| && Evict(m, hasSwap, b, room).ok
    ensures var t := Evict(m, hasSwap, b, room).m;
            && |t.metas| == |m.metas| && t.hand == (b + 1) % 1024 && !Resident(t.metas[b])
            && forall i | 0 <= i < |m.metas| && i != b :: t.metas[i] == m.metas[i]
  {
    hide WriteAt, FirstFree;
  }

  // Nothing but an eviction moves the hand.
  lemma HandStays(prog: Program, m: Memory, a: Act)
    requires Ready(prog, m, a) && !a.Out?
    ensures Next(prog, m, a).hand == m.hand
  {
    hide AllocMeta, ReadAt;
  }

  lemma {:induction false} HandStaysOn(prog: Program, m: Memory, acts: seq<Act>, t: Memory)
    requires Run(prog, m, acts, t) && forall k | 0 <= k < |acts| :: !acts[k].Out?
    ensures t.hand == m.hand
    decreases |acts|
  {
    hide Ready, Next;
    if acts != [] {
      HandStays(prog, m, acts[0]);
      HandStaysOn(prog, Next(prog, m, acts[0]), acts[1..], t);
    }
  }

  // The page whose entry was emptied last is faulted back, or another comes to its entry, and
  // is referenced. The next scan, if it finds any other page that is not, leaves it alone: it
  // is not evicted and keeps its reference bit.
  lemma SecondChance(prog: Program, m: Memory, hasSwap: bool, room: nat, b: nat, acts: seq<Act>, u: Memory, i: nat, hasSwap2: bool, room2: nat)
    requires Sized(m) && TryEvict(m, Clock, hasSwap, room).ok && Evicted(m, TryEvict(m, Clock, hasSwap, room).m, b)
    requires Run(prog, TryEvict(m, Clock, hasSwap, room).m, acts, u) && forall k | 0 <= k < |acts| :: !acts[k].Out?
    requires Sized(u) && Resident(u.metas[b]) && u.metas[b].referenced
    requires i < |u.metas| && i != b && Resident(u.metas[i]) && !u.metas[i].referenced
    ensures TryEvict(u, Clock, hasSwap2, room2).m.metas[b] == u.metas[b]
  {
    hide Sweep, Passed, Evict, Ahead, Resident, Under, Run, TryEvict;
    var c := ClockEvicts(m, hasSwap, room);
    assert c == b;
    HandStaysOn(prog, TryEvict(m, Clock, hasSwap, room).m, acts, u);
    ScanSpares(u, b, i, hasSwap2, room2);
  }

  // A scan changes nothing from its victim on.
  lemma ScanSpares(u: Memory, b: nat, i: nat, hasSwap: bool, room: nat)
    requires Sized(u) && b < |u.metas| && i < |u.metas| && Resident(u.metas[i]) && !u.metas[i].referenced
    requires Ahead(u.hand, i) < Ahead(u.hand, b) && u.metas[b].referenced
    ensures TryEvict(u, Clock, hasSwap, room).m.metas[b] == u.metas[b]
  {
    hide Sweep, Passed, Evict, Ahead, Resident, Under;
    var start := u.hand % PGMETA_SIZE;
    var d := Sweep(u.metas, start, 0);
    ClockTakesFirst(u.metas, start);
    AheadOf(u.hand, i);
    AheadOf(u.hand, b);
    UnderIs(start, d);
    EvictOthers(u.(metas := Passed(u.metas, start, d)), hasSwap, Under(start, d), room);
  }

  lemma EvictOthers(m: Memory, hasSwap: bool, b: nat, room: nat)
    requires b < |m.metas|
    ensures var t := Evict(m, hasSwap, b, room).m; |t.metas| == |m.metas| && forall i | 0 <= i < |m.metas| && i != b :: t.metas[i] == m.metas[i]
  {
    hide WriteAt, FirstFree;
  }
}
