// The paging state of a process in place: the pgmeta table, the slot bitmap, and the fault
// handler of kernel/vm.c.

module Swap {
  import opened Bytes
  import FileBlocks
  import opened SwapModel
  import opened SwapFault

  ghost predicate Bitmap(bs: seq<byte>) { |bs| == SLOTS / 8 }

  // swap_bitmap, one bit a slot.
  ghost function Bits(bs: seq<byte>): (r: seq<bool>)
    requires Bitmap(bs)
    ensures |r| == SLOTS && forall k: nat | k < SLOTS :: r[k] == FileBlocks.BitOf(bs[k / 8], k % 8)
  {
    seq(SLOTS, k requires 0 <= k < SLOTS => FileBlocks.BitOf(bs[k / 8], k % 8))
  }

  lemma BitSet(bs: seq<byte>, i: nat)
    requires Bitmap(bs) && i < SLOTS
    ensures Bits(bs[i / 8 := FileBlocks.ByteWith(bs[i / 8], i % 8)]) == Bits(bs)[i := true]
  {
    var now := bs[i / 8 := FileBlocks.ByteWith(bs[i / 8], i % 8)];
    forall k: nat | k < SLOTS ensures Bits(now)[k] == Bits(bs)[i := true][k] {
      if k / 8 == i / 8 { FileBlocks.WithBitAt(bs[i / 8], i % 8, k % 8); }
    }
  }

  lemma BitClear(bs: seq<byte>, i: nat)
    requires Bitmap(bs) && i < SLOTS
    ensures Bits(bs[i / 8 := FileBlocks.ByteWithout(bs[i / 8], i % 8)]) == Bits(bs)[i := false]
  {
    var now := bs[i / 8 := FileBlocks.ByteWithout(bs[i / 8], i % 8)];
    forall k: nat | k < SLOTS ensures Bits(now)[k] == Bits(bs)[i := false][k] {
      if k / 8 == i / 8 { FileBlocks.WithoutBitAt(bs[i / 8], i % 8, k % 8); }
    }
  }

  lemma {:induction false} ZeroBit(i: nat)
    ensures !FileBlocks.BitOf(0, i)
  {
    if i > 0 { ZeroBit(i - 1); }
  }

  lemma PassedNone(was: seq<Meta>, start: nat)
    ensures Passed(was, start, 0) == was
  {
  }

  // The entry under the hand is as it was, and passing it changes it alone.
  lemma SweepStep(was: seq<Meta>, start: nat, d: nat)
    requires |was| == PGMETA_SIZE && d < PGMETA_SIZE
    ensures Sweep(was, start, d) ==
            if Resident(was[Under(start, d)]) && !was[Under(start, d)].referenced then d else Sweep(was, start, d + 1)
  {
  }

  lemma SweepDone(was: seq<Meta>, start: nat)
    requires |was| == PGMETA_SIZE
    ensures Sweep(was, start, PGMETA_SIZE) == PGMETA_SIZE
  {
  }

  lemma PassedAt(was: seq<Meta>, start: nat, d: nat)
    requires |was| == PGMETA_SIZE && start < PGMETA_SIZE && d < PGMETA_SIZE
    ensures var i, p := Under(start, d), Passed(was, start, d);
            && p[i] == was[i]
            && Passed(was, start, d + 1) == p[i := if Resident(was[i]) then was[i].(referenced := false) else was[i]]
  {
    var i, p := Under(start, d), Passed(was, start, d);
    UnderDistance(start, d);
    var q := Passed(was, start, d + 1);
    forall j | 0 <= j < |was|
      ensures q[j] == p[i := if Resident(was[i]) then was[i].(referenced := false) else was[i]][j]
    {
      if (j - start) % PGMETA_SIZE == d { UnderHand(start, j); }
    }
  }

  lemma UnderNext(start: nat, d: nat)
    requires start < PGMETA_SIZE && d < PGMETA_SIZE
    ensures Under(start, d + 1) == (Under(start, d) + 1) % PGMETA_SIZE
    ensures Under(start, d + 1) == start <==> d + 1 == PGMETA_SIZE
  {
  }

  // The parts of swapping in, put together.
  lemma SwappedIn(prog: Program, m: Memory, t: Memory, va: nat, k: nat)
    requires InSeg(prog, va) && k < |m.metas|
    requires var e, g, data := m.metas[k], SegAt(prog, va), ReadAt(m.swap, m.metas[k].slot * PGSIZE, PGSIZE);
             var p := if e.perm.NoPerm? then Perm(g.w, g.x) else e.perm;
             && |data| == PGSIZE && t.pages == m.pages[va := Frame(data, p.w, p.x)]
             && t.metas == m.metas[k := e.(resident := true, inSwap := false, slot := NOSLOT, stamp := m.ctr, referenced := true)]
             && t.slots == (if e.slot < |m.slots| then m.slots[e.slot := false] else m.slots)
    requires t.swap == m.swap && t.ctr == (m.ctr + 1) % WRAP && t.hand == m.hand && t.killed == m.killed
    ensures t == SwapIn(prog, m, va, k)
  {
    hide ReadAt, SegOf;
  }

  class Process {
    const prog: Program
    const metas: array<Meta>
    const bitmap: array<byte>
    const hasSwap: bool
    var swap: seq<byte>            // what the swap file holds
    var pages: map<nat, Frame>     // what the page table maps, and the frames' bytes
    var ctr: nat
    var hand: nat
    var killed: bool

    ghost predicate Ok()
      reads this, metas, bitmap
    {
      metas.Length == PGMETA_SIZE && bitmap.Length == SLOTS / 8
    }

    ghost function State(): Memory
      requires Ok()
      reads this, metas, bitmap
    {
      Memory(metas[..], Bits(bitmap[..]), swap, pages, ctr, hand, killed)
    }

    // exec: fresh metadata for a new program, whose guard and stack pages are mapped; a swap
    // file that exists keeps what it holds
    constructor (prog: Program, stack: map<nat, Frame>, hasSwap: bool, swap: seq<byte>)
      requires StackOnly(prog, stack) && |swap| <= MAXBYTES
      ensures Ok() && fresh(metas) && fresh(bitmap) && Started(prog, State())
      ensures this.prog == prog && this.hasSwap == hasSwap && pages == stack && this.swap == swap
    {
      this.prog, this.hasSwap := prog, hasSwap;
      metas := new Meta[PGMETA_SIZE](_ => Fresh(0));
      bitmap := new byte[SLOTS / 8](_ => 0);
      this.swap, pages, ctr, hand, killed := swap, stack, 1, 0, false;
      new;
      forall k: nat | k < SLOTS ensures !Bits(bitmap[..])[k] { ZeroBit(k % 8); }
    }

    // pgmeta_find
    method FindMeta(va: nat) returns (k: int)
      requires Ok()
      ensures k == Find(metas[..], va, 0)
    {
      k := 0;
      while k < metas.Length
        invariant 0 <= k <= metas.Length && Find(metas[..], va, k) == Find(metas[..], va, 0)
      {
        if metas[k].va == va { return; }
        k := k + 1;
      }
      k := -1;
    }

    // pgmeta_alloc
    method Alloc(va: nat) returns (k: int)
      requires Ok()
      modifies metas
      ensures Ok() && (metas[..], k) == AllocMeta(old(metas[..]), va)
    {
      k := FindMeta(va);
      if k >= 0 { return; }
      k := FindMeta(0);
      if k >= 0 {
        metas[k] := Fresh(va);
      }
    }

    // swap_alloc_slot
    method AllocSlot() returns (slot: int)
      requires Ok()
      modifies bitmap
      ensures Ok() && slot == FirstFree(old(Bits(bitmap[..])), 0)
      ensures Bits(bitmap[..]) == if slot < 0 then old(Bits(bitmap[..])) else old(Bits(bitmap[..]))[slot := true]
    {
      ghost var bits := Bits(bitmap[..]);
      slot := 0;
      while slot < SLOTS
        invariant 0 <= slot <= SLOTS && bitmap[..] == old(bitmap[..]) && FirstFree(bits, slot) == FirstFree(bits, 0)
      {
        assert bits[slot] == FileBlocks.BitOf(bitmap[slot / 8], slot % 8);
        if !FileBlocks.BitOf(bitmap[slot / 8], slot % 8) {
          BitSet(bitmap[..], slot);
          bitmap[slot / 8] := FileBlocks.ByteWith(bitmap[slot / 8], slot % 8);
          assert bitmap[..] == old(bitmap[..])[slot / 8 := bitmap[slot / 8]];
          return;
        }
        slot := slot + 1;
      }
      slot := -1;
    }

    // swap_free_slot
    method FreeSlot(slot: nat)
      requires Ok()
      modifies bitmap
      ensures Ok() && Bits(bitmap[..]) == if slot < SLOTS then old(Bits(bitmap[..]))[slot := false] else old(Bits(bitmap[..]))
    {
      if slot >= SLOTS { return; }
      BitClear(bitmap[..], slot);
      bitmap[slot / 8] := FileBlocks.ByteWithout(bitmap[slot / 8], slot % 8);
      assert bitmap[..] == old(bitmap[..])[slot / 8 := bitmap[slot / 8]];
    }

    // FIFO: the resident page of the greatest age
    method FindOldest() returns (best: int)
      requires Ok()
      ensures best == OldestOf(metas[..], ctr, metas.Length)
    {
      best := -1;
      var bestAge := 0;
      for i := 0 to metas.Length
        invariant -1 <= best < i && best == OldestOf(metas[..], ctr, i) && (best >= 0 ==> bestAge == Age(metas[best], ctr))
      {
        if metas[i].va != 0 && metas[i].resident {
          var age := Age(metas[i], ctr);
          if best < 0 || age > bestAge {
            bestAge := age;
            best := i;
          }
        }
      }
    }

    // CLOCK: the hand goes around once, taking away second chances
    method ClockScan() returns (found: int)
      requires Ok()
      modifies metas
      ensures Ok()
      ensures var start, d := hand % PGMETA_SIZE, Sweep(old(metas[..]), hand % PGMETA_SIZE, 0);
              && metas[..] == Passed(old(metas[..]), start, d)
              && found == if d < PGMETA_SIZE then Under(start, d) else -1
    {
      hide Sweep, Passed, Bits;
      ghost var was := metas[..];
      var start := hand % PGMETA_SIZE;
      var idx := start;
      ghost var d := 0;
      PassedNone(was, start);
      while true
        invariant Ok() && d < PGMETA_SIZE && idx == Under(start, d) && Sweep(was, start, d) == Sweep(was, start, 0)
        invariant metas[..] == Passed(was, start, d)
        decreases PGMETA_SIZE - d
      {
        SweepStep(was, start, d);
        PassedAt(was, start, d);
        assert metas[idx] == metas[..][idx];
        if metas[idx].va != 0 && metas[idx].resident {
          if metas[idx].referenced {
            metas[idx] := metas[idx].(referenced := false);
          } else {
            return idx;
          }
        }
        UnderNext(start, d);
        idx := (idx + 1) % PGMETA_SIZE;
        d := d + 1;
        if idx == start {
          SweepDone(was, start);
          break;
        }
      }
      found := -1;
    }

    // The rest of try_evict_one, for this victim.
    method EvictVictim(best: nat, room: nat) returns (ok: bool)
      requires Ok() && best < metas.Length
      modifies this, metas, bitmap
      ensures Ok() && Step(ok, State()) == Evict(old(State()), hasSwap, best, room)
    {
      hide FirstFree, WriteAt, Bits;
      ghost var m := State();
      var va := metas[best].va;
      assert m.metas[best] == metas[best];
      if va !in pages {
        metas[best] := Fresh(0);
        return false;
      }
      var data := pages[va].data;
      if metas[best].dirty || pages[va].w {
        if !hasSwap {
          killed := true;
          return false;
        }
        var slot := AllocSlot();
        if slot < 0 {
          killed := true;
          return false;
        }
        var w := WriteAt(swap, slot * PGSIZE, data, room);
        swap := w.0;
        if w.1 != PGSIZE {
          FreeSlot(slot);
          assert m.slots[slot := true][slot := false] == m.slots;
          return false;
        }
        metas[best] := metas[best].(inSwap := true, slot := slot);
      }
      pages := pages - {va};
      metas[best] := metas[best].(resident := false, dirty := false);
      hand := (best + 1) % PGMETA_SIZE;
      ok := true;
    }

    // try_evict_one
    method EvictOne(policy: Policy, room: nat) returns (ok: bool)
      requires Ok()
      modifies this, metas, bitmap
      ensures Ok() && Step(ok, State()) == TryEvict(old(State()), policy, hasSwap, room)
    {
      hide Sweep, OldestOf, Passed, Evict, Bits;
      var best: int;
      if policy.Clock? {
        best := ClockScan();
      } else {
        best := FindOldest();
      }
      if best < 0 { return false; }
      ok := EvictVictim(best, room);
    }

    // kalloc_or_evict
    method KallocOrEvict(policy: Policy, luck: Luck) returns (ok: bool)
      requires Ok()
      modifies this, metas, bitmap
      ensures Ok() && Step(ok, State()) == GetFrame(old(State()), policy, hasSwap, luck)
    {
      hide TryEvict;
      if luck.mem { return true; }
      ok := EvictOne(policy, luck.room);
      ok := ok && luck.again;
    }

    // Swapping a page in, once there is a frame for it.
    method SwapPageIn(va: nat, k: nat, luck: Luck) returns (ok: bool)
      requires Ok() && InSeg(prog, va) && k < metas.Length
      modifies this, metas, bitmap
      ensures Ok() && ok == (|ReadAt(old(swap), old(metas[k].slot) * PGSIZE, PGSIZE)| == PGSIZE && luck.maps)
      ensures State() == if ok then SwapIn(prog, old(State()), va, k) else old(State())
    {
      hide ReadAt, Bits, SwapIn, SegOf, Tick;
      ghost var m := State();
      assert m.metas[k] == metas[k];
      var slot := metas[k].slot;
      var data := ReadAt(swap, slot * PGSIZE, PGSIZE);
      if |data| != PGSIZE { return false; }
      var g := SegAt(prog, va);
      var perm := if metas[k].perm.NoPerm? then Perm(g.w, g.x) else metas[k].perm;
      if !luck.maps { return false; }
      pages := pages[va := Frame(data, perm.w, perm.x)];
      metas[k] := metas[k].(resident := true, inSwap := false, slot := NOSLOT, stamp := ctr, referenced := true);
      FreeSlot(slot);
      ctr := (ctr + 1) % WRAP;
      SwappedIn(prog, m, State(), va, k);
      ok := true;
    }

    // Reading a page of a segment from the program file, once there is a frame for it.
    method LoadPage(va: nat, access: Access, luck: Luck) returns (ok: bool)
      requires Ok() && InSeg(prog, va)
      modifies this, metas
      ensures Ok() && ok == (Readable(prog, va) && (access.Execute? ==> SegAt(prog, va).x) && luck.maps)
      ensures State() == if ok then LoadSeg(prog, old(State()), va) else old(State())
    {
      hide Bits, AllocMeta, Readable, Original;
      if !Readable(prog, va) { return false; }
      var g := SegAt(prog, va);
      if access.Execute? && !g.x { return false; }
      if !luck.maps { return false; }
      pages := pages[va := Frame(Original(prog, va), g.w, g.x)];
      var k := Alloc(va);
      if k >= 0 {
        metas[k] := metas[k].(resident := true, perm := Perm(g.w, g.x), dirty := false, referenced := true, stamp := ctr);
      }
      ctr := (ctr + 1) % WRAP;
      ok := true;
    }

    // A zero page for the heap or the stack.
    method ZeroPage(va: nat, policy: Policy, luck: Luck) returns (ok: bool)
      requires Ok() && va !in pages && !InSeg(prog, va)
      modifies this, metas, bitmap
      ensures Ok() && Step(ok, State()) == Fault(prog, old(State()), policy, hasSwap, va, Read, true, luck)
    {
      hide Bits, AllocMeta, GetFrame, SegOf, FaultSeg, FaultMapped, Find;
      var k := Alloc(va);
      ok := KallocOrEvict(policy, luck);
      if !ok || !luck.maps { return false; }
      pages := pages[va := Frame(Zeros(), false, false)];
      if k >= 0 {
        metas[k] := metas[k].(resident := true, perm := Perm(false, false), dirty := false, referenced := true, stamp := ctr);
      }
      ctr := (ctr + 1) % WRAP;
    }

    // vmfault at a page that is mapped
    method Upgrade(va: nat, access: Access, anon: bool) returns (ok: bool)
      requires Ok() && va in pages
      modifies this, metas
      ensures Ok() && Step(ok, State()) == FaultMapped(prog, old(State()), va, access, anon)
    {
      hide Bits, AllocMeta;
      var f := pages[va];
      var seg := InSeg(prog, va);
      var allowW := anon || (seg && SegAt(prog, va).w);
      var allowX := seg && SegAt(prog, va).x;
      if access.Write? && !f.w && allowW {
        pages := pages[va := f.(w := true)];
        var k := Alloc(va);
        if k >= 0 {
          metas[k] := metas[k].(dirty := true, referenced := true);
        }
        return true;
      }
      if access.Execute? && !f.x && allowX {
        pages := pages[va := f.(x := true)];
        return true;
      }
      ok := false;
    }

    // vmfault at a page of a segment that is not mapped
    method SegPage(va: nat, policy: Policy, access: Access, luck: Luck) returns (ok: bool)
      requires Ok() && InSeg(prog, va)
      modifies this, metas, bitmap
      ensures Ok()
      ensures var m := old(State());
              Step(ok, State()) == FaultSeg(prog, m, va, access, Find(m.metas, va, 0), GetFrame(m, policy, hasSwap, luck), luck)
    {
      hide Bits, AllocMeta, GetFrame, SwapIn, LoadSeg, Readable, ReadAt, SegOf, Find;
      var k := FindMeta(va);
      var swapped := k >= 0 && metas[k].inSwap;
      assert k >= 0 ==> State().metas[k] == metas[k];
      ok := KallocOrEvict(policy, luck);
      if !ok { return; }
      assert k >= 0 ==> State().metas[k] == metas[k];
      if swapped {
        ok := SwapPageIn(va, k, luck);
      } else {
        ok := LoadPage(va, access, luck);
      }
    }

    // vmfault
    method Vmfault(va: nat, policy: Policy, access: Access, anon: bool, luck: Luck) returns (ok: bool)
      requires Ok()
      modifies this, metas, bitmap
      ensures Ok() && Step(ok, State()) == Fault(prog, old(State()), policy, hasSwap, va, access, anon, luck)
    {
      hide Bits, AllocMeta, GetFrame, FaultSeg, LoadZero, FaultMapped, Readable, ReadAt, SegOf, Find;
      if va in pages {
        ok := Upgrade(va, access, anon);
      } else if InSeg(prog, va) {
        ok := SegPage(va, policy, access, luck);
      } else if anon {
        ok := ZeroPage(va, policy, luck);
      } else {
        ok := false;
      }
    }
  }
}
