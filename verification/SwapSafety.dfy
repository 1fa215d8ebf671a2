// Demand paging loses nothing: whatever is evicted and faulted back, a segment page keeps its
// bytes; and what is not so for heap and stack pages.

module SwapSafety {
  import opened Bytes
  import opened SwapModel

  // Which entries say a page is swapped, and where.
  ghost predicate SameSlots(metas: seq<Meta>, metas2: seq<Meta>, va: nat) {
    && |metas| == |metas2|
    && forall i | 0 <= i < |metas| ::
         && (metas[i].va == va && metas[i].inSwap <==> metas2[i].va == va && metas2[i].inSwap)
         && (metas[i].va == va && metas[i].inSwap ==> metas[i].slot == metas2[i].slot)
  }

  ghost predicate NoneFree(metas: seq<Meta>) { forall i | 0 <= i < |metas| && metas[i].inSwap :: metas[i].va != 0 }

  lemma SlotFound(metas: seq<Meta>, va: nat, k: nat)
    requires Distinct(metas) && NoneFree(metas) && k < |metas| && metas[k].va == va && metas[k].inSwap
    ensures SlotOf(metas, va) == metas[k].slot
  {
    FindIs(metas, k);
  }

  lemma SlotsSame(metas: seq<Meta>, metas2: seq<Meta>, va: nat)
    requires Distinct(metas) && Distinct(metas2) && NoneFree(metas) && NoneFree(metas2) && SameSlots(metas, metas2, va)
    ensures SlotOf(metas, va) == SlotOf(metas2, va)
  {
    hide Distinct, NoneFree;
    var k, k2 := Find(metas, va, 0), Find(metas2, va, 0);
    if k >= 0 && metas[k].inSwap {
      SlotFound(metas2, va, k);
    } else if k2 >= 0 && metas2[k2].inSwap {
      SlotFound(metas, va, k2);
    }
  }

  // Taking an entry for a page.
  lemma AllocKeeps(metas: seq<Meta>, va: nat)
    requires Distinct(metas)
    ensures var a := AllocMeta(metas, va);
            && |a.0| == |metas| && Distinct(a.0)
            && (forall i | 0 <= i < |metas| :: a.0[i] == metas[i] || (metas[i].va == 0 && a.0[i] == Fresh(va)))
            && (a.1 >= 0 ==> a.1 < |metas| && a.0[a.1].va == va && Find(a.0, va, 0) == a.1)
            && (a.1 < 0 ==> a.0 == metas && Find(metas, va, 0) < 0)
            && (Find(metas, va, 0) >= 0 ==> a == (metas, Find(metas, va, 0)))
            && (Find(metas, va, 0) < 0 && a.1 >= 0 ==> va != 0 && a.0[a.1] == Fresh(va) && metas[a.1].va == 0)
  {
    var a := AllocMeta(metas, va);
    if Find(metas, va, 0) < 0 && a.1 >= 0 {
      FindIs(a.0, a.1);
    }
  }

  // Changing entries without moving any page's slot.
  lemma SlottedSame(m: Memory, t: Memory)
    requires Slotted(m) && |t.metas| == |m.metas| && t.slots == m.slots && |m.swap| <= |t.swap| <= MAXBYTES
    requires forall i | 0 <= i < |m.metas| && t.metas[i].inSwap :: m.metas[i].inSwap && t.metas[i].slot == m.metas[i].slot && t.metas[i].va != 0
    ensures Slotted(t)
  {
  }

  lemma NoneAtZero(m: Memory)
    requires Slotted(m)
    ensures NoneFree(m.metas) && |m.swap| <= MAXBYTES
  {
  }

  lemma DistinctSame(metas: seq<Meta>, metas2: seq<Meta>)
    requires Distinct(metas) && |metas2| == |metas| && forall i | 0 <= i < |metas| :: metas2[i].va == metas[i].va
    ensures Distinct(metas2)
  {
  }

  lemma PageSame(prog: Program, m: Memory, t: Memory, bad: set<nat>, va: nat)
    requires PageOk(prog, m, bad, va) && (va in t.pages ==> va in m.pages && t.pages[va] == m.pages[va])
    ensures PageOk(prog, t, bad, va)
  {
  }

  // An entry that says no more than before, while its page stays as it is.
  ghost predicate Weaker(e: Meta, f: Meta) {
    && f.va == e.va && (f.resident ==> e.resident) && (f.inSwap ==> e.inSwap) && (f.dirty ==> e.dirty)
    && (f.perm == e.perm || f.perm.NoPerm?)
  }

  lemma EntryWeaker(prog: Program, m: Memory, t: Memory, bad: set<nat>, e: Meta, f: Meta)
    requires EntryOk(prog, m, bad, e) && Weaker(e, f) && (InSeg(prog, e.va) ==> (e.va in m.pages <==> e.va in t.pages))
    ensures EntryOk(prog, t, bad, f)
  {
  }

  lemma EntryNew(prog: Program, t: Memory, bad: set<nat>, va: nat)
    ensures EntryOk(prog, t, bad, Fresh(va))
  {
  }

  lemma EnterKeeps(prog: Program, m: Memory, bad: set<nat>, va: nat)
    requires Inv(prog, m, bad) && Ready(prog, m, Enter(va))
    ensures Inv(prog, Next(prog, m, Enter(va)), bad)
  {
    hide Distinct, Slotted, PageOk, AllocMeta, BadOk, EntryOk;
    AllocKeeps(m.metas, va);
    var t := Next(prog, m, Enter(va));
    NoneAtZero(m);
    SlottedSame(m, t);
    forall v ensures PageOk(prog, t, bad, v) { PageSame(prog, m, t, bad, v); }
    forall i | 0 <= i < |t.metas| ensures EntryOk(prog, t, bad, t.metas[i]) {
      if t.metas[i] == m.metas[i] { EntryWeaker(prog, m, t, bad, m.metas[i], t.metas[i]); } else { EntryNew(prog, t, bad, va); }
    }
  }

  lemma PassKeeps(prog: Program, m: Memory, bad: set<nat>, start: nat, d: nat)
    requires Inv(prog, m, bad)
    ensures Inv(prog, Next(prog, m, Pass(start, d)), bad)
  {
    hide Distinct, Slotted, PageOk, BadOk, EntryOk;
    var t := Next(prog, m, Pass(start, d));
    NoneAtZero(m);
    SlottedSame(m, t);
    DistinctSame(m.metas, t.metas);
    forall v ensures PageOk(prog, t, bad, v) { PageSame(prog, m, t, bad, v); }
    forall i | 0 <= i < |t.metas| ensures EntryOk(prog, t, bad, t.metas[i]) { EntryWeaker(prog, m, t, bad, m.metas[i], t.metas[i]); }
  }

  lemma DropKeeps(prog: Program, m: Memory, bad: set<nat>, va: nat)
    requires Inv(prog, m, bad) && Ready(prog, m, Drop(va))
    ensures Inv(prog, Next(prog, m, Drop(va)), bad)
  {
    hide Distinct, Slotted, PageOk, BadOk, EntryOk;
    var t := Next(prog, m, Drop(va));
    NoneAtZero(m);
    SlottedSame(m, t);
    forall v ensures PageOk(prog, t, bad, v) { PageSame(prog, m, t, bad, v); }
    forall i | 0 <= i < |t.metas| ensures EntryOk(prog, t, bad, t.metas[i]) { EntryWeaker(prog, m, t, bad, m.metas[i], t.metas[i]); }
  }

  lemma PagePut(prog: Program, m: Memory, bad: set<nat>, va: nat, at: nat, x: byte)
    requires PageOk(prog, m, bad, va) && Ready(prog, m, Put(va, at, x))
    ensures PageOk(prog, Store(m, va, at, x), bad, va)
  {
  }

  lemma PutKeeps(prog: Program, m: Memory, bad: set<nat>, va: nat, at: nat, x: byte)
    requires Inv(prog, m, bad) && Ready(prog, m, Put(va, at, x))
    ensures Inv(prog, Next(prog, m, Put(va, at, x)), bad)
  {
    hide Distinct, Slotted, PageOk, BadOk, EntryOk;
    var t := Next(prog, m, Put(va, at, x));
    NoneAtZero(m);
    SlottedSame(m, t);
    forall v ensures PageOk(prog, t, bad, v) { if v == va { PagePut(prog, m, bad, va, at, x); } else { PageSame(prog, m, t, bad, v); } }
    forall i | 0 <= i < |t.metas| ensures EntryOk(prog, t, bad, t.metas[i]) { EntryWeaker(prog, m, t, bad, m.metas[i], t.metas[i]); }
  }

  lemma MoreBad(prog: Program, m: Memory, bad: set<nat>, more: set<nat>)
    requires Inv(prog, m, bad) && BadOk(prog, more)
    ensures Inv(prog, m, bad + more)
  {
    hide Distinct, Slotted;
    forall v ensures PageOk(prog, m, bad + more, v) { assert PageOk(prog, m, bad, v); }
    forall i | 0 <= i < |m.metas| ensures EntryOk(prog, m, bad + more, m.metas[i]) { assert EntryOk(prog, m, bad, m.metas[i]); }
  }

  lemma PageMayWrite(prog: Program, m: Memory, bad: set<nat>, va: nat)
    requires PageOk(prog, m, bad, va) && Ready(prog, m, MayWrite(va)) && (InSeg(prog, va) ==> va in bad)
    ensures PageOk(prog, GiveWrite(m, va), bad, va)
  {
    hide AllocMeta;
  }

  lemma EntryMayWrite(prog: Program, m: Memory, t: Memory, bad: set<nat>, e: Meta)
    requires EntryOk(prog, m, bad, e) && (InSeg(prog, e.va) ==> e.va in bad) && t.pages.Keys == m.pages.Keys
    ensures EntryOk(prog, t, bad, e.(dirty := true, referenced := true))
  {
  }

  lemma MayWriteKeeps(prog: Program, m: Memory, bad: set<nat>, va: nat)
    requires Inv(prog, m, bad) && Ready(prog, m, MayWrite(va))
    ensures Inv(prog, Next(prog, m, MayWrite(va)), bad + Spoils(prog, MayWrite(va)))
  {
    hide Distinct, Slotted, PageOk, EntryOk, BadOk, AllocMeta;
    var spoils := Spoils(prog, MayWrite(va));
    var now := bad + spoils;
    assert BadOk(prog, spoils) by { SpoiledIsBad(prog, m, va); }
    MoreBad(prog, m, bad, spoils);
    AllocKeeps(m.metas, va);
    var a := AllocMeta(m.metas, va);
    var t := Next(prog, m, MayWrite(va));
    NoneAtZero(m);
    SlottedSame(m, t);
    DistinctSame(a.0, t.metas);
    assert t.pages.Keys == m.pages.Keys;
    forall v ensures PageOk(prog, t, now, v) { if v == va { PageMayWrite(prog, m, now, va); } else { PageSame(prog, m, t, now, v); } }
    forall i | 0 <= i < |t.metas| ensures EntryOk(prog, t, now, t.metas[i]) {
      assert EntryOk(prog, m, now, m.metas[i]);
      if a.0[i] != m.metas[i] { EntryNew(prog, m, now, va); }
      assert EntryOk(prog, m, now, a.0[i]);
      if i == a.1 { EntryMayWrite(prog, m, t, now, a.0[i]); } else { EntryWeaker(prog, m, t, now, a.0[i], t.metas[i]); }
    }
  }

  lemma SpoiledIsBad(prog: Program, m: Memory, va: nat)
    requires Ready(prog, m, MayWrite(va))
    ensures BadOk(prog, Spoils(prog, MayWrite(va)))
  {
  }

  // A page comes in: its entry k is noted, or it has none.
  lemma ComesIn(prog: Program, m: Memory, t: Memory, bad: set<nat>, metas: seq<Meta>, va: nat, k: int)
    requires |metas| == |m.metas| && Distinct(metas) && k < |metas|
    requires forall v :: PageOk(prog, m, bad, v)
    requires forall i | 0 <= i < |metas| :: EntryOk(prog, m, bad, metas[i])
    requires PageOk(prog, t, bad, va) && va in t.pages && forall v | v != va :: v in t.pages <==> v in m.pages
    requires forall v | v != va && v in m.pages :: t.pages[v] == m.pages[v]
    requires |t.metas| == |metas| && forall i | 0 <= i < |metas| && i != k :: t.metas[i] == metas[i]
    requires k >= 0 ==> metas[k].va == va && t.metas[k].va == va && EntryOk(prog, t, bad, t.metas[k])
    requires k < 0 ==> Find(metas, va, 0) < 0
    ensures Distinct(t.metas)
    ensures forall v :: PageOk(prog, t, bad, v)
    ensures forall i | 0 <= i < |t.metas| :: EntryOk(prog, t, bad, t.metas[i])
  {
    hide PageOk, EntryOk;
    DistinctSame(metas, t.metas);
    forall v ensures PageOk(prog, t, bad, v) { if v != va { PageSame(prog, m, t, bad, v); } }
    forall i | 0 <= i < |t.metas| ensures EntryOk(prog, t, bad, t.metas[i]) {
      if i != k {
        if metas[i].va != va || va == 0 { EntryBeside(prog, m, t, bad, metas[i], va); }
      }
    }
  }

  lemma EntryBeside(prog: Program, m: Memory, t: Memory, bad: set<nat>, e: Meta, va: nat)
    requires EntryOk(prog, m, bad, e) && (e.va != va || e.va == 0) && forall v | v != va :: v in t.pages <==> v in m.pages
    ensures EntryOk(prog, t, bad, e)
  {
  }

  lemma ZeroKeeps(prog: Program, m: Memory, bad: set<nat>, va: nat, k: int)
    requires Inv(prog, m, bad) && Ready(prog, m, Zero(va, k))
    ensures Inv(prog, Next(prog, m, Zero(va, k)), bad)
  {
    hide Distinct, Slotted, BadOk, EntryOk;
    var t := Next(prog, m, Zero(va, k));
    NoneAtZero(m);
    SlottedSame(m, t);
    assert k >= 0 ==> EntryOk(prog, t, bad, t.metas[k]) by { if k >= 0 { EntryOutside(prog, t, bad, t.metas[k]); } }
    ComesIn(prog, m, t, bad, m.metas, va, k);
  }

  lemma EntryOutside(prog: Program, t: Memory, bad: set<nat>, e: Meta)
    requires !InSeg(prog, e.va)
    ensures EntryOk(prog, t, bad, e)
  {
  }

  lemma EntryNoted(prog: Program, t: Memory, bad: set<nat>, e: Meta, now: nat)
    requires InSeg(prog, e.va) && e.va in t.pages && !e.inSwap
    ensures EntryOk(prog, t, bad, Noted(e, now, Perm(SegAt(prog, e.va).w, SegAt(prog, e.va).x)))
  {
  }

  lemma LoadKeeps(prog: Program, m: Memory, bad: set<nat>, va: nat)
    requires Inv(prog, m, bad) && Ready(prog, m, Load(va))
    ensures Inv(prog, Next(prog, m, Load(va)), bad)
  {
    hide Distinct, Slotted, BadOk, EntryOk, AllocMeta;
    var a := AllocMeta(m.metas, va);
    AllocKeeps(m.metas, va);
    var t := Next(prog, m, Load(va));
    NoneAtZero(m);
    SlottedSame(m, t);
    forall i | 0 <= i < |m.metas| ensures EntryOk(prog, m, bad, a.0[i]) { if a.0[i] != m.metas[i] { EntryNew(prog, m, bad, va); } }
    if a.1 >= 0 { EntryNoted(prog, t, bad, a.0[a.1], m.ctr); }
    ComesIn(prog, m, t, bad, a.0, va, a.1);
  }

  lemma EntryBack(prog: Program, t: Memory, bad: set<nat>, e: Meta, f: Meta, m: Memory)
    requires EntryOk(prog, m, bad, e) && e.inSwap && e.va in t.pages
    requires f.va == e.va && !f.inSwap && f.dirty == e.dirty && f.perm == e.perm
    ensures EntryOk(prog, t, bad, f)
  {
  }

  // A page that was swapped is read back whole.
  lemma SwapHasIt(m: Memory, k: nat)
    requires Slotted(m) && k < |m.metas| && m.metas[k].inSwap
    ensures m.metas[k].slot < |m.slots| && (m.metas[k].slot + 1) * PGSIZE <= |m.swap|
    ensures |ReadAt(m.swap, m.metas[k].slot * PGSIZE, PGSIZE)| == PGSIZE
  {
  }

  lemma SlottedBack(m: Memory, t: Memory, k: nat)
    requires Slotted(m) && k < |m.metas| && m.metas[k].inSwap && t.swap == m.swap
    requires t.slots == m.slots[m.metas[k].slot := false]
    requires |t.metas| == |m.metas| && !t.metas[k].inSwap && forall i | 0 <= i < |m.metas| && i != k :: t.metas[i] == m.metas[i]
    ensures Slotted(t)
  {
  }

  lemma PageBack(prog: Program, m: Memory, t: Memory, bad: set<nat>, e: Meta)
    requires EntryOk(prog, m, bad, e) && e.inSwap && e.va != 0 && InSeg(prog, e.va) && e.va in t.pages
    requires |t.pages[e.va].data| == PGSIZE
    requires Perm(t.pages[e.va].w, t.pages[e.va].x) == if e.perm.NoPerm? then Perm(SegAt(prog, e.va).w, SegAt(prog, e.va).x) else e.perm
    ensures PageOk(prog, t, bad, e.va)
  {
  }

  lemma InKeeps(prog: Program, m: Memory, bad: set<nat>, va: nat, k: nat)
    requires Inv(prog, m, bad) && Ready(prog, m, In(va, k))
    ensures Inv(prog, Next(prog, m, In(va, k)), bad)
  {
    hide Distinct, Slotted, BadOk, EntryOk, PageOk;
    SwapHasIt(m, k);
    NoneAtZero(m);
    var t := Next(prog, m, In(va, k));
    SlottedBack(m, t, k);
    PageBack(prog, m, t, bad, m.metas[k]);
    EntryBack(prog, t, bad, m.metas[k], t.metas[k], m);
    ComesIn(prog, m, t, bad, m.metas, va, k);
  }

  // An eviction's parts.
  lemma SlottedOut(m: Memory, t: Memory, b: nat, slot: nat, v: nat, data: seq<byte>, room: nat)
    requires Sized(m) && Slotted(m) && b < |m.metas| && slot == FirstFree(m.slots, 0) && |data| == PGSIZE
    requires WriteAt(m.swap, slot * PGSIZE, data, room).1 == PGSIZE
    requires t.swap == WriteAt(m.swap, slot * PGSIZE, data, room).0 && t.slots == m.slots[slot := true]
    requires |t.metas| == |m.metas| && t.metas[b].va != 0 && t.metas[b].slot == slot
    requires forall i | 0 <= i < |m.metas| && i != b :: t.metas[i] == m.metas[i]
    ensures Slotted(t)
  {
    WriteThere(m.swap, slot, data, room);
    WriteGrows(m.swap, slot * PGSIZE, data, room);
  }

  lemma EntryOut(prog: Program, m: Memory, t: Memory, bad: set<nat>, e: Meta, f: Meta)
    requires EntryOk(prog, m, bad, e) && PageOk(prog, m, bad, e.va) && e.va in m.pages && e.va !in t.pages
    requires f.va == e.va && !f.resident && !f.dirty && f.perm == e.perm
    requires f.inSwap ==> e.inSwap || e.dirty || m.pages[e.va].w
    ensures EntryOk(prog, t, bad, f)
  {
  }

  lemma EntryAside(prog: Program, m: Memory, t: Memory, bad: set<nat>, e: Meta, v: nat)
    requires EntryOk(prog, m, bad, e) && e.va != v && t.pages == m.pages - {v}
    ensures EntryOk(prog, t, bad, e)
  {
  }

  // Once the page and its entry are dealt with, the rest of the memory is as it was.
  lemma GoneKeeps(prog: Program, m: Memory, t: Memory, bad: set<nat>, b: nat)
    requires Inv(prog, m, bad) && b < |m.metas| && m.metas[b].va != 0 && m.metas[b].va in m.pages
    requires t.pages == m.pages - {m.metas[b].va} && Sized(t) && Slotted(t)
    requires forall i | 0 <= i < |m.metas| && i != b :: t.metas[i] == m.metas[i]
    requires t.metas[b].va == m.metas[b].va && EntryOk(prog, t, bad, t.metas[b])
    ensures Inv(prog, t, bad)
  {
    hide Slotted, BadOk, EntryOk, PageOk;
    var v := m.metas[b].va;
    DistinctSame(m.metas, t.metas);
    forall u ensures PageOk(prog, t, bad, u) { PageSame(prog, m, t, bad, u); }
    forall i | 0 <= i < |t.metas| ensures EntryOk(prog, t, bad, t.metas[i]) {
      if i != b { EntryAside(prog, m, t, bad, m.metas[i], v); }
    }
  }

  // A stale entry is dropped, or a write to the swap file fails.
  lemma FailKeeps(prog: Program, m: Memory, bad: set<nat>, b: nat, t: Memory)
    requires Inv(prog, m, bad) && b < |m.metas|
    requires t == m.(metas := m.metas[b := Fresh(0)])
          || (t.metas == m.metas && t.pages == m.pages && t.slots == m.slots && |m.swap| <= |t.swap| <= MAXBYTES)
    ensures Inv(prog, t, bad)
  {
    hide BadOk, EntryOk, PageOk, Slotted;
    NoneAtZero(m);
    SlottedSame(m, t);
    forall u ensures PageOk(prog, t, bad, u) { PageSame(prog, m, t, bad, u); }
    forall i | 0 <= i < |t.metas| ensures EntryOk(prog, t, bad, t.metas[i]) {
      if t.metas[i] == m.metas[i] { EntryWeaker(prog, m, t, bad, m.metas[i], t.metas[i]); } else { EntryNew(prog, t, bad, 0); }
    }
  }

  // What try_evict_one does, with the victim known.
  datatype Kind = Stale | NoSlot | Short | Swapped | Discarded

  function KindOf(m: Memory, hasSwap: bool, b: nat, room: nat): Kind
    requires b < |m.metas|
  {
    var v := m.metas[b].va;
    if v !in m.pages then Stale
    else if m.metas[b].dirty || m.pages[v].w then
      var slot := FirstFree(m.slots, 0);
      if !hasSwap || slot < 0 then NoSlot
      else if WriteAt(m.swap, slot * PGSIZE, m.pages[v].data, room).1 != PGSIZE then Short
      else Swapped
    else Discarded
  }

  lemma OutKeeps(prog: Program, m: Memory, bad: set<nat>, b: nat, hasSwap: bool, room: nat)
    requires Inv(prog, m, bad) && Ready(prog, m, Out(b, hasSwap, room))
    ensures Inv(prog, Next(prog, m, Out(b, hasSwap, room)), bad)
  {
    hide BadOk, EntryOk, Slotted, Distinct, WriteAt;
    var t := Next(prog, m, Out(b, hasSwap, room));
    var v := m.metas[b].va;
    assert PageOk(prog, m, bad, v);
    NoneAtZero(m);
    match KindOf(m, hasSwap, b, room)
    case Stale => FailKeeps(prog, m, bad, b, t);
    case NoSlot => FailKeeps(prog, m, bad, b, t);
    case Short =>
      WriteGrows(m.swap, FirstFree(m.slots, 0) * PGSIZE, m.pages[v].data, room);
      FailKeeps(prog, m, bad, b, t);
    case Swapped =>
      SlottedOut(m, t, b, FirstFree(m.slots, 0), v, m.pages[v].data, room);
      EntryOut(prog, m, t, bad, m.metas[b], t.metas[b]);
      GoneKeeps(prog, m, t, bad, b);
    case Discarded =>
      SlottedSame(m, t);
      EntryOut(prog, m, t, bad, m.metas[b], t.metas[b]);
      GoneKeeps(prog, m, t, bad, b);
  }

  lemma NextKeepsInv(prog: Program, m: Memory, bad: set<nat>, a: Act)
    requires Inv(prog, m, bad) && Ready(prog, m, a)
    ensures Inv(prog, Next(prog, m, a), bad + Spoils(prog, a))
  {
    hide Inv, Ready, Next;
    assert !a.MayWrite? ==> bad + Spoils(prog, a) == bad;
    match a
    case Enter(va) => EnterKeeps(prog, m, bad, va);
    case Out(b, hasSwap, room) => OutKeeps(prog, m, bad, b, hasSwap, room);
    case Pass(start, d) => PassKeeps(prog, m, bad, start, d);
    case In(va, k) => InKeeps(prog, m, bad, va, k);
    case Load(va) => LoadKeeps(prog, m, bad, va);
    case Zero(va, k) => ZeroKeeps(prog, m, bad, va, k);
    case MayWrite(va) => MayWriteKeeps(prog, m, bad, va);
    case Put(va, at, x) => PutKeeps(prog, m, bad, va, at, x);
    case Drop(va) => DropKeeps(prog, m, bad, va);
  }

  // A page that stays where it is has the same bytes.
  lemma ViewStays(prog: Program, m: Memory, t: Memory, bad: set<nat>, bad2: set<nat>, va: nat)
    requires Inv(prog, m, bad) && Inv(prog, t, bad2) && InSeg(prog, va) && SameSlots(m.metas, t.metas, va)
    requires va in m.pages <==> va in t.pages
    requires va in m.pages ==> t.pages[va].data == m.pages[va].data
    requires va !in m.pages && SlotOf(m.metas, va) >= 0 ==>
               ReadAt(t.swap, SlotOf(m.metas, va) * PGSIZE, PGSIZE) == ReadAt(m.swap, SlotOf(m.metas, va) * PGSIZE, PGSIZE)
    ensures View(prog, t, va) == View(prog, m, va)
  {
    hide PageOk, EntryOk, Distinct, Slotted, BadOk, SameSlots, SlotOf, ReadAt;
    NoneAtZero(m);
    NoneAtZero(t);
    SlotsSame(m.metas, t.metas, va);
  }

  // No step but an eviction or a store touches a page's bytes.
  predicate Plain(a: Act) { !a.Out? && !a.In? && !a.Load? && !a.Put? }

  lemma PlainSlots(prog: Program, m: Memory, bad: set<nat>, a: Act, va: nat)
    requires Inv(prog, m, bad) && Ready(prog, m, a) && Plain(a)
    ensures SameSlots(m.metas, Next(prog, m, a).metas, va) && Next(prog, m, a).swap == m.swap
  {
    hide PageOk, EntryOk, Distinct, Slotted, BadOk, AllocMeta;
    NoneAtZero(m);
    match a
    case Enter(v) => AllocKeeps(m.metas, v);
    case MayWrite(v) => AllocKeeps(m.metas, v);
    case _ =>
  }

  lemma PlainPages(prog: Program, m: Memory, a: Act, va: nat)
    requires Ready(prog, m, a) && Plain(a) && InSeg(prog, va)
    ensures va in m.pages <==> va in Next(prog, m, a).pages
    ensures va in m.pages ==> Next(prog, m, a).pages[va].data == m.pages[va].data
  {
    hide AllocMeta;
  }

  lemma PlainKeepsView(prog: Program, m: Memory, bad: set<nat>, a: Act, va: nat)
    requires Inv(prog, m, bad) && Ready(prog, m, a) && Plain(a) && InSeg(prog, va)
    ensures View(prog, Next(prog, m, a), va) == View(prog, m, va)
  {
    hide Inv, Ready, Next, View, SameSlots;
    NextKeepsInv(prog, m, bad, a);
    PlainSlots(prog, m, bad, a, va);
    PlainPages(prog, m, a, va);
    ViewStays(prog, m, Next(prog, m, a), bad, bad + Spoils(prog, a), va);
  }

  lemma LoadKeepsView(prog: Program, m: Memory, bad: set<nat>, v: nat, va: nat)
    requires Inv(prog, m, bad) && Ready(prog, m, Load(v)) && InSeg(prog, va)
    ensures View(prog, Next(prog, m, Load(v)), va) == View(prog, m, va)
  {
    hide PageOk, EntryOk, Distinct, Slotted, BadOk, AllocMeta, SameSlots;
    var t := Next(prog, m, Load(v));
    if v != va {
      LoadKeeps(prog, m, bad, v);
      LoadSlots(prog, m, v, va);
      ViewStays(prog, m, t, bad, bad, va);
    }
  }

  lemma LoadSlots(prog: Program, m: Memory, v: nat, va: nat)
    requires Distinct(m.metas) && Slotted(m) && Ready(prog, m, Load(v))
    ensures SameSlots(m.metas, Next(prog, m, Load(v)).metas, va)
  {
    hide AllocMeta, Distinct;
    NoneAtZero(m);
    AllocKeeps(m.metas, v);
  }

  lemma InKeepsView(prog: Program, m: Memory, bad: set<nat>, v: nat, k: nat, va: nat)
    requires Inv(prog, m, bad) && Ready(prog, m, In(v, k)) && InSeg(prog, va)
    ensures View(prog, Next(prog, m, In(v, k)), va) == View(prog, m, va)
  {
    hide PageOk, EntryOk, Distinct, Slotted, BadOk, ReadAt;
    SwapHasIt(m, k);
    var t := Next(prog, m, In(v, k));
    if v != va {
      InKeeps(prog, m, bad, v, k);
      ViewStays(prog, m, t, bad, bad, va);
    }
  }

  lemma PutKeepsView(prog: Program, m: Memory, bad: set<nat>, v: nat, at: nat, x: byte, va: nat)
    requires Inv(prog, m, bad) && Ready(prog, m, Put(v, at, x)) && InSeg(prog, va)
    ensures v == va ==> at < |View(prog, m, va)|
    ensures View(prog, Next(prog, m, Put(v, at, x)), va) == if v == va then View(prog, m, va)[at := x] else View(prog, m, va)
  {
    hide PageOk, EntryOk, Distinct, Slotted, BadOk, ReadAt;
    if v != va {
      PutKeeps(prog, m, bad, v, at, x);
      ViewStays(prog, m, Next(prog, m, Put(v, at, x)), bad, bad, va);
    }
  }

  // An eviction changes no page's bytes, unless it drops a page that differs from the file.
  predicate Loses(prog: Program, m: Memory, a: Act, va: nat)
    requires InSeg(prog, va)
  {
    && a.Out? && a.b < |m.metas| && m.metas[a.b].va == va && va in m.pages
    && KindOf(m, a.hasSwap, a.b, a.room).Discarded? && m.pages[va].data != Original(prog, va)
  }

  lemma OutSlots(prog: Program, m: Memory, b: nat, hasSwap: bool, room: nat, va: nat)
    requires Sized(m) && Slotted(m) && Ready(prog, m, Out(b, hasSwap, room)) && InSeg(prog, va)
    requires m.metas[b].va != va
    ensures var t := Evict(m, hasSwap, b, room).m;
            && SameSlots(m.metas, t.metas, va) && (va in m.pages <==> va in t.pages) && (va in m.pages ==> t.pages[va] == m.pages[va])
  {
    hide WriteAt;
  }

  lemma OutSwap(prog: Program, m: Memory, b: nat, hasSwap: bool, room: nat, k: nat)
    requires Sized(m) && Slotted(m) && Ready(prog, m, Out(b, hasSwap, room)) && k < |m.metas| && m.metas[k].inSwap
    requires forall v | v in m.pages :: |m.pages[v].data| == PGSIZE
    ensures ReadAt(Evict(m, hasSwap, b, room).m.swap, m.metas[k].slot * PGSIZE, PGSIZE) == ReadAt(m.swap, m.metas[k].slot * PGSIZE, PGSIZE)
  {
    hide WriteAt, ReadAt;
    var v, slot := m.metas[b].va, FirstFree(m.slots, 0);
    SwapHasIt(m, k);
    if v in m.pages && slot >= 0 {
      WriteElsewhere(m.swap, slot, m.pages[v].data, room, m.metas[k].slot);
    }
  }

  // The victim itself.
  lemma VictimView(prog: Program, m: Memory, bad: set<nat>, b: nat, hasSwap: bool, room: nat)
    requires Inv(prog, m, bad) && Ready(prog, m, Out(b, hasSwap, room)) && InSeg(prog, m.metas[b].va)
    ensures var t, va := Evict(m, hasSwap, b, room).m, m.metas[b].va;
            View(prog, t, va) == View(prog, m, va) <==> !Loses(prog, m, Out(b, hasSwap, room), va)
  {
    hide BadOk, Slotted, WriteAt, ReadAt;
    var t, v := Evict(m, hasSwap, b, room).m, m.metas[b].va;
    assert PageOk(prog, m, bad, v) && EntryOk(prog, m, bad, m.metas[b]);
    OutKeeps(prog, m, bad, b, hasSwap, room);
    NoneAtZero(m);
    NoneAtZero(t);
    if KindOf(m, hasSwap, b, room).Swapped? {
      SlotFound(t.metas, v, b);
      WriteThere(m.swap, FirstFree(m.slots, 0), m.pages[v].data, room);
    } else if KindOf(m, hasSwap, b, room).Discarded? {
      FindIs(t.metas, b);
    }
  }

  lemma OutKeepsView(prog: Program, m: Memory, bad: set<nat>, b: nat, hasSwap: bool, room: nat, va: nat)
    requires Inv(prog, m, bad) && Ready(prog, m, Out(b, hasSwap, room)) && InSeg(prog, va)
    ensures View(prog, Next(prog, m, Out(b, hasSwap, room)), va) == View(prog, m, va)
            <==> !Loses(prog, m, Out(b, hasSwap, room), va)
  {
    hide PageOk, EntryOk, BadOk, Slotted, Distinct, WriteAt, ReadAt, View, Evict, SameSlots, KindOf, SlotOf;
    var t := Next(prog, m, Out(b, hasSwap, room));
    if m.metas[b].va == va {
      VictimView(prog, m, bad, b, hasSwap, room);
    } else {
      OutKeeps(prog, m, bad, b, hasSwap, room);
      OutSlots(prog, m, b, hasSwap, room, va);
      PagesSized(prog, m, bad);
      if SlotOf(m.metas, va) >= 0 {
        SlotIsOf(m, va);
        OutSwap(prog, m, b, hasSwap, room, Find(m.metas, va, 0));
      }
      ViewStays(prog, m, t, bad, bad, va);
    }
  }

  lemma SlotIsOf(m: Memory, va: nat)
    requires SlotOf(m.metas, va) >= 0
    ensures var k := Find(m.metas, va, 0); k >= 0 && m.metas[k].inSwap && m.metas[k].slot == SlotOf(m.metas, va)
  {
  }

  lemma PagesSized(prog: Program, m: Memory, bad: set<nat>)
    requires Inv(prog, m, bad)
    ensures forall v | v in m.pages :: |m.pages[v].data| == PGSIZE
  {
    forall v | v in m.pages ensures |m.pages[v].data| == PGSIZE { assert PageOk(prog, m, bad, v); }
  }

  // Every step keeps the bytes of every segment page: only a store changes them, and only the
  // page and the byte it says. The one exception is told exactly.
  lemma StepKeepsView(prog: Program, m: Memory, bad: set<nat>, a: Act, va: nat)
    requires Inv(prog, m, bad) && Ready(prog, m, a) && InSeg(prog, va)
    ensures a.Put? && a.va == va ==> a.at < |View(prog, m, va)|
    ensures View(prog, Next(prog, m, a), va) == (if a.Put? && a.va == va then View(prog, m, va)[a.at := a.x] else View(prog, m, va))
            <==> !Loses(prog, m, a, va)
  {
    hide Inv, Ready, Next, View, Loses;
    assert !a.Out? ==> !Loses(prog, m, a, va) by { NotLost(prog, m, a, va); }
    match a
    case Out(b, hasSwap, room) => OutKeepsView(prog, m, bad, b, hasSwap, room, va);
    case In(v, k) => InKeepsView(prog, m, bad, v, k, va);
    case Load(v) => LoadKeepsView(prog, m, bad, v, va);
    case Put(v, at, x) => PutKeepsView(prog, m, bad, v, at, x, va);
    case _ => PlainKeepsView(prog, m, bad, a, va);
  }

  lemma NotLost(prog: Program, m: Memory, a: Act, va: nat)
    requires InSeg(prog, va)
    ensures !a.Out? ==> !Loses(prog, m, a, va)
  {
  }

  // Nothing is lost of a page that was not made writable against its segment.
  lemma GoodIsNotLost(prog: Program, m: Memory, bad: set<nat>, a: Act, va: nat)
    requires Inv(prog, m, bad) && InSeg(prog, va) && va !in bad
    ensures !Loses(prog, m, a, va)
  {
    assert PageOk(prog, m, bad, va);
  }

  // Runs of steps.
  ghost predicate Run(prog: Program, m: Memory, acts: seq<Act>, t: Memory)
    decreases |acts|
  {
    if acts == [] then m == t else Ready(prog, m, acts[0]) && Run(prog, Next(prog, m, acts[0]), acts[1..], t)
  }

  function SpoiledBy(prog: Program, acts: seq<Act>): set<nat> {
    if acts == [] then {} else Spoils(prog, acts[0]) + SpoiledBy(prog, acts[1..])
  }

  // What the process itself stored, in order.
  function Stored(page: seq<byte>, acts: seq<Act>, va: nat): seq<byte>
    decreases |acts|
  {
    if acts == [] then page
    else Stored(if acts[0].Put? && acts[0].va == va && acts[0].at < |page| then page[acts[0].at := acts[0].x] else page, acts[1..], va)
  }

  lemma {:induction false} RunKeepsInv(prog: Program, m: Memory, bad: set<nat>, acts: seq<Act>, t: Memory)
    requires Inv(prog, m, bad) && Run(prog, m, acts, t)
    ensures Inv(prog, t, bad + SpoiledBy(prog, acts))
    decreases |acts|
  {
    hide Inv, Ready, Next, Spoils;
    if acts == [] {
      assert bad + SpoiledBy(prog, acts) == bad;
    } else {
      NextKeepsInv(prog, m, bad, acts[0]);
      RunKeepsInv(prog, Next(prog, m, acts[0]), bad + Spoils(prog, acts[0]), acts[1..], t);
      assert (bad + Spoils(prog, acts[0])) + SpoiledBy(prog, acts[1..]) == bad + SpoiledBy(prog, acts);
    }
  }

  lemma {:induction false} RunKeepsView(prog: Program, m: Memory, bad: set<nat>, acts: seq<Act>, t: Memory, va: nat)
    requires Inv(prog, m, bad) && Run(prog, m, acts, t) && InSeg(prog, va) && va !in bad + SpoiledBy(prog, acts)
    ensures View(prog, t, va) == Stored(View(prog, m, va), acts, va)
    decreases |acts|
  {
    hide Inv, Ready, Next, Spoils, View, Loses;
    if acts != [] {
      GoodIsNotLost(prog, m, bad, acts[0], va);
      StepKeepsView(prog, m, bad, acts[0], va);
      NextKeepsInv(prog, m, bad, acts[0]);
      RunKeepsView(prog, Next(prog, m, acts[0]), bad + Spoils(prog, acts[0]), acts[1..], t, va);
    }
  }

  // From exec on, through any evictions and faults, a mapped segment page holds the file's
  // bytes with the process's own stores.
  lemma PagingIsInvisible(prog: Program, m: Memory, acts: seq<Act>, t: Memory, va: nat)
    requires Started(prog, m) && Run(prog, m, acts, t) && InSeg(prog, va) && va !in SpoiledBy(prog, acts) && va in t.pages
    ensures t.pages[va].data == Stored(Original(prog, va), acts, va)
  {
    hide Inv, Ready, Next, Spoils, Run, Stored, Original, Started;
    StartIsOk(prog, m);
    assert {} + SpoiledBy(prog, acts) == SpoiledBy(prog, acts);
    NothingSwapped(prog, m, va);
    RunKeepsView(prog, m, {}, acts, t, va);
  }

  lemma NothingSwapped(prog: Program, m: Memory, va: nat)
    requires Started(prog, m) && InSeg(prog, va)
    ensures va !in m.pages && SlotOf(m.metas, va) == -1
  {
  }

  // A heap or stack page that is evicted and faulted back is zero, so it is what it was
  // exactly if it was zero before.
  lemma HeapPageComesBackZero(prog: Program, m: Memory, b: nat, hasSwap: bool, room: nat, k: int)
    requires Ready(prog, m, Out(b, hasSwap, room)) && Evict(m, hasSwap, b, room).ok
    requires var v, t := m.metas[b].va, Evict(m, hasSwap, b, room).m; Ready(prog, t, Zero(v, k))
    ensures var v, t := m.metas[b].va, Evict(m, hasSwap, b, room).m;
            && v in m.pages
            && (Next(prog, t, Zero(v, k)).pages[v].data == m.pages[v].data <==> m.pages[v].data == Zeros())
  {
    hide WriteAt;
  }
}
