// Demand paging of one process, as kernel/vm.c keeps it: page metadata, swap slots, the swap
// file, and the pages that are mapped.

module SwapModel {
  import opened Bytes

  const PGSIZE: nat := 4096
  const PGMETA_SIZE: nat := 1024
  const SLOTS: nat := 1024
  const NOSLOT: nat := 0xffff
  const MAXBYTES: nat := 268 * 1024    // MAXFILE * BSIZE: no file is longer
  const WRAP: nat := 0x1_0000_0000_0000_0000

  datatype Perm = NoPerm | Perm(w: bool, x: bool)

  // p->pgmeta[i]; stamp is seq. va 0 marks a free entry.
  datatype Meta = Meta(
    va: nat, stamp: nat, resident: bool, dirty: bool, referenced: bool, inSwap: bool, slot: nat, perm: Perm)

  function Fresh(va: nat): Meta { Meta(va, 0, false, false, false, false, NOSLOT, NoPerm) }

  // A mapped page and what its entry allows besides reading.
  datatype Frame = Frame(data: seq<byte>, w: bool, x: bool)

  // p->segs[i], and the file they are segments of.
  datatype Seg = Seg(va: nat, memsz: nat, filesz: nat, off: nat, w: bool, x: bool)
  datatype Program = Program(segs: seq<Seg>, file: seq<byte>)

  datatype Memory = Memory(metas: seq<Meta>, slots: seq<bool>, swap: seq<byte>, pages: map<nat, Frame>, ctr: nat, hand: nat, killed: bool)

  predicate Has(g: Seg, va: nat) { g.va <= va < g.va + g.memsz }

  // The first segment with this page: -1 if none.
  function SegOf(segs: seq<Seg>, va: nat, i: nat): (k: int)
    requires i <= |segs|
    ensures -1 <= k < |segs| && (k >= 0 ==> i <= k && Has(segs[k], va) && forall j | i <= j < k :: !Has(segs[j], va))
    ensures k == -1 ==> forall j | i <= j < |segs| :: !Has(segs[j], va)
    decreases |segs| - i
  {
    if i == |segs| then -1 else if Has(segs[i], va) then i else SegOf(segs, va, i + 1)
  }

  predicate InSeg(prog: Program, va: nat) { SegOf(prog.segs, va, 0) >= 0 }

  function SegAt(prog: Program, va: nat): Seg
    requires InSeg(prog, va)
  {
    prog.segs[SegOf(prog.segs, va, 0)]
  }

  // How many bytes of the page the file has.
  function FilePart(g: Seg, va: nat): (n: nat)
    requires g.va <= va
    ensures n <= PGSIZE
  {
    var off := va - g.va;
    if off >= g.filesz then 0 else if g.filesz - off < PGSIZE then g.filesz - off else PGSIZE
  }

  // readi gets them all.
  predicate Readable(prog: Program, va: nat)
    requires InSeg(prog, va)
  {
    var g := SegAt(prog, va);
    FilePart(g, va) == 0 || g.off + (va - g.va) + FilePart(g, va) <= |prog.file|
  }

  // The page as the program file has it: its part of the file, then zeros.
  function Original(prog: Program, va: nat): (d: seq<byte>)
    requires InSeg(prog, va)
    ensures |d| == PGSIZE
  {
    var g := SegAt(prog, va);
    var at := g.off + (va - g.va);
    seq(PGSIZE, k requires 0 <= k < PGSIZE => if k < FilePart(g, va) && at + k < |prog.file| then prog.file[at + k] else 0)
  }

  function Zeros(): (d: seq<byte>)
    ensures |d| == PGSIZE
  {
    seq(PGSIZE, _ => 0)
  }

  // pgmeta_find
  function Find(metas: seq<Meta>, va: nat, i: nat): (k: int)
    requires i <= |metas|
    ensures -1 <= k < |metas| && (k >= 0 ==> i <= k && metas[k].va == va && forall j | i <= j < k :: metas[j].va != va)
    ensures k == -1 ==> forall j | i <= j < |metas| :: metas[j].va != va
    decreases |metas| - i
  {
    if i == |metas| then -1 else if metas[i].va == va then i else Find(metas, va, i + 1)
  }

  // pgmeta_alloc
  function AllocMeta(metas: seq<Meta>, va: nat): (r: (seq<Meta>, int))
    ensures |r.0| == |metas| && -1 <= r.1 < |metas|
  {
    var k := Find(metas, va, 0);
    if k >= 0 then (metas, k)
    else
      var f := Find(metas, 0, 0);
      if f < 0 then (metas, -1) else (metas[f := Fresh(va)], f)
  }

  // swap_alloc_slot
  function FirstFree(slots: seq<bool>, i: nat): (k: int)
    requires i <= |slots|
    ensures -1 <= k < |slots| && (k >= 0 ==> i <= k && !slots[k] && forall j | i <= j < k :: slots[j])
    ensures k == -1 ==> forall j | i <= j < |slots| :: slots[j]
    decreases |slots| - i
  {
    if i == |slots| then -1 else if !slots[i] then i else FirstFree(slots, i + 1)
  }

  // writei at off: what the file becomes, and the result. room is how much the disk takes.
  function WriteAt(file: seq<byte>, off: nat, data: seq<byte>, room: nat): (r: (seq<byte>, int))
    ensures r.1 <= |data|
  {
    if off > |file| || off + |data| > MAXBYTES then (file, -1)
    else
      var n := if room < |data| then room else |data|;
      (file[..off] + data[..n] + (if off + n < |file| then file[off + n..] else []), n)
  }

  // readi at off
  function ReadAt(file: seq<byte>, off: nat, n: nat): (d: seq<byte>)
    ensures |d| <= n
  {
    if off > |file| then [] else if off + n > |file| then file[off..] else file[off..off + n]
  }

  predicate Resident(m: Meta) { m.va != 0 && m.resident }

  // now - seq, as unsigned 64-bit numbers
  function Age(m: Meta, now: nat): nat { (now - m.stamp) % WRAP }

  // FIFO's choice: the oldest resident entry, the first of them.
  predicate IsOldest(metas: seq<Meta>, now: nat, n: nat, b: nat)
    requires b < n <= |metas|
  {
    && Resident(metas[b])
    && forall j | 0 <= j < n && Resident(metas[j]) ::
         Age(metas[j], now) <= Age(metas[b], now) && (j < b ==> Age(metas[j], now) < Age(metas[b], now))
  }

  datatype Step = Step(ok: bool, m: Memory)

  // try_evict_one, once the victim is chosen.
  function Evict(m: Memory, hasSwap: bool, b: nat, room: nat): (r: Step)
    requires b < |m.metas|
    ensures |r.m.metas| == |m.metas| && |r.m.slots| == |m.slots|
  {
    var v := m.metas[b].va;
    if v !in m.pages then Step(false, m.(metas := m.metas[b := Fresh(0)]))
    else if m.metas[b].dirty || m.pages[v].w then
      var slot := FirstFree(m.slots, 0);
      if !hasSwap || slot < 0 then Step(false, m.(killed := true))
      else
        var w := WriteAt(m.swap, slot * PGSIZE, m.pages[v].data, room);
        if w.1 != PGSIZE then Step(false, m.(swap := w.0))
        else Step(true, Unmapped(m.(swap := w.0, slots := m.slots[slot := true],
                                    metas := m.metas[b := m.metas[b].(inSwap := true, slot := slot)]), b))
    else Step(true, Unmapped(m, b))
  }

  function Unmapped(m: Memory, b: nat): Memory
    requires b < |m.metas|
  {
    m.(pages := m.pages - {m.metas[b].va},
       metas := m.metas[b := m.metas[b].(resident := false, dirty := false)],
       hand := (b + 1) % PGMETA_SIZE)
  }

  function Tick(m: Memory): Memory { m.(ctr := (m.ctr + 1) % WRAP) }

  // The page comes back from its swap slot.
  function SwapIn(prog: Program, m: Memory, va: nat, k: nat): Memory
    requires InSeg(prog, va) && k < |m.metas|
  {
    var e := m.metas[k];
    var g := SegAt(prog, va);
    var data := ReadAt(m.swap, e.slot * PGSIZE, PGSIZE);
    if |data| != PGSIZE then m
    else
      var p := if e.perm.NoPerm? then Perm(g.w, g.x) else e.perm;
      Tick(m.(pages := m.pages[va := Frame(data, p.w, p.x)],
              metas := m.metas[k := e.(resident := true, inSwap := false, slot := NOSLOT, stamp := m.ctr, referenced := true)],
              slots := if e.slot < |m.slots| then m.slots[e.slot := false] else m.slots))
  }

  // What a page that has come in is noted as.
  function Noted(e: Meta, now: nat, p: Perm): Meta {
    e.(resident := true, perm := p, dirty := false, referenced := true, stamp := now)
  }

  // The page is read from the program file.
  function LoadSeg(prog: Program, m: Memory, va: nat): Memory
    requires InSeg(prog, va)
  {
    var g := SegAt(prog, va);
    var a := AllocMeta(m.metas, va);
    Tick(m.(pages := m.pages[va := Frame(Original(prog, va), g.w, g.x)],
            metas := if a.1 < 0 then a.0 else a.0[a.1 := Noted(a.0[a.1], m.ctr, Perm(g.w, g.x))]))
  }

  // A heap or stack page comes in as zeros, whatever it held before; k is its entry, or -1.
  function LoadZero(m: Memory, va: nat, k: int): Memory
    requires k < |m.metas|
  {
    Tick(m.(pages := m.pages[va := Frame(Zeros(), false, false)],
            metas := if k < 0 then m.metas else m.metas[k := Noted(m.metas[k], m.ctr, Perm(false, false))]))
  }

  // A mapped page may be written from now on.
  function GiveWrite(m: Memory, va: nat): Memory
    requires va in m.pages
  {
    var a := AllocMeta(m.metas, va);
    m.(pages := m.pages[va := m.pages[va].(w := true)],
       metas := if a.1 < 0 then a.0 else a.0[a.1 := a.0[a.1].(dirty := true, referenced := true)])
  }

  // The process stores a byte.
  function Store(m: Memory, va: nat, k: nat, b: byte): Memory
    requires va in m.pages && k < |m.pages[va].data|
  {
    m.(pages := m.pages[va := m.pages[va].(data := m.pages[va].data[k := b])])
  }

  // The parts of a fault, and what the process does in between.
  datatype Act =
    | Enter(va: nat)                            // an entry for a heap or stack page
    | Out(b: nat, hasSwap: bool, room: nat)     // entry b's page is evicted
    | Pass(start: nat, d: nat)                  // the clock hand passes d entries
    | In(va: nat, k: nat)
    | Load(va: nat)
    | Zero(va: nat, entry: int)
    | MayWrite(va: nat)                         // a heap or stack page, says vmfault
    | Put(va: nat, at: nat, x: byte)
    | Drop(va: nat)                             // sbrk gives a page back

  // The entries with the first d from start on no longer referenced.
  function Passed(metas: seq<Meta>, start: nat, d: nat): (r: seq<Meta>)
    ensures |r| == |metas|
  {
    seq(|metas|, i requires 0 <= i < |metas| =>
      if Resident(metas[i]) && (i - start) % PGMETA_SIZE < d then metas[i].(referenced := false) else metas[i])
  }

  predicate Ready(prog: Program, m: Memory, a: Act) {
    match a
    case Enter(va) => !InSeg(prog, va)
    case Out(b, _, _) => b < |m.metas| && Resident(m.metas[b])
    case Pass(_, _) => true
    case In(va, k) => InSeg(prog, va) && va !in m.pages && k == Find(m.metas, va, 0) && m.metas[k].inSwap
    case Load(va) =>
      && InSeg(prog, va) && va !in m.pages && Readable(prog, va)
      && (Find(m.metas, va, 0) >= 0 ==> !m.metas[Find(m.metas, va, 0)].inSwap)
    case Zero(va, k) => !InSeg(prog, va) && va !in m.pages && k == Find(m.metas, va, 0)
    case MayWrite(va) => va in m.pages && !m.pages[va].w && (InSeg(prog, va) ==> !SegAt(prog, va).w)
    case Put(va, k, _) => va in m.pages && m.pages[va].w && k < |m.pages[va].data|
    case Drop(va) => va in m.pages && !InSeg(prog, va)
  }

  function Next(prog: Program, m: Memory, a: Act): Memory
    requires Ready(prog, m, a)
  {
    match a
    case Enter(va) => m.(metas := AllocMeta(m.metas, va).0)
    case Out(b, hasSwap, room) => Evict(m, hasSwap, b, room).m
    case Pass(start, d) => m.(metas := Passed(m.metas, start, d))
    case In(va, k) => SwapIn(prog, m, va, k)
    case Load(va) => LoadSeg(prog, m, va)
    case Zero(va, k) => LoadZero(m, va, k)
    case MayWrite(va) => GiveWrite(m, va)
    case Put(va, k, b) => Store(m, va, k, b)
    case Drop(va) => m.(pages := m.pages - {va})
  }

  ghost predicate Sized(m: Memory) { |m.metas| == PGMETA_SIZE && |m.slots| == SLOTS }

  // No page has two entries.
  ghost predicate Distinct(metas: seq<Meta>) {
    forall i, j | 0 <= i < j < |metas| && metas[i].va != 0 :: metas[i].va != metas[j].va
  }

  // Swapped pages have slots of their own, which are taken; every taken slot lies within the
  // swap file.
  ghost predicate Slotted(m: Memory) {
    && (forall i | 0 <= i < |m.metas| && m.metas[i].inSwap ::
          m.metas[i].va != 0 && m.metas[i].slot < |m.slots| && m.slots[m.metas[i].slot])
    && (forall i, j | 0 <= i < j < |m.metas| && m.metas[i].inSwap && m.metas[j].inSwap :: m.metas[i].slot != m.metas[j].slot)
    && (forall k: nat | k < |m.slots| && m.slots[k] :: (k + 1) * PGSIZE <= |m.swap|)
    && |m.swap| <= MAXBYTES
  }

  // vmfault takes the page below the stack pointer for a stack page even when it lies in a
  // segment that may not be written, and then lets it be written. bad: pages this was done to.
  ghost predicate BadOk(prog: Program, bad: set<nat>) { forall va | va in bad :: InSeg(prog, va) && !SegAt(prog, va).w }

  // A mapped page of a segment has the segment's permissions, and the file's bytes unless it
  // can be written.
  ghost predicate PageOk(prog: Program, m: Memory, bad: set<nat>, va: nat) {
    va in m.pages ==>
      var f := m.pages[va];
      && |f.data| == PGSIZE
      && (InSeg(prog, va) ==>
            && f.x == SegAt(prog, va).x
            && (va !in bad ==> f.w == SegAt(prog, va).w && (!f.w ==> f.data == Original(prog, va))))
  }

  // What the entry of a segment page says is so.
  ghost predicate EntryOk(prog: Program, m: Memory, bad: set<nat>, e: Meta) {
    e.va != 0 && InSeg(prog, e.va) ==>
      var g := SegAt(prog, e.va);
      && (e.resident ==> e.va in m.pages)
      && (e.va in m.pages ==> !e.inSwap)
      && ((e.dirty || e.inSwap) && e.va !in bad ==> g.w)
      && (!e.perm.NoPerm? ==> e.perm == Perm(g.w, g.x))
  }

  ghost predicate Inv(prog: Program, m: Memory, bad: set<nat>) {
    && Sized(m) && Distinct(m.metas) && Slotted(m) && BadOk(prog, bad)
    && (forall va :: PageOk(prog, m, bad, va))
    && (forall i | 0 <= i < |m.metas| :: EntryOk(prog, m, bad, m.metas[i]))
  }

  // The pages a step spoils.
  function Spoils(prog: Program, a: Act): set<nat> {
    match a
    case MayWrite(va) => if InSeg(prog, va) then {va} else {}
    case _ => {}
  }

  // After exec: the guard and stack pages are mapped, and whatever else lies outside every
  // segment, but no entry or slot is in use.
  ghost predicate Started(prog: Program, m: Memory) {
    && Sized(m) && StackOnly(prog, m.pages) && |m.swap| <= MAXBYTES && m.ctr == 1
    && (forall i | 0 <= i < |m.metas| :: m.metas[i] == Fresh(0))
    && (forall k | 0 <= k < |m.slots| :: !m.slots[k])
  }

  ghost predicate StackOnly(prog: Program, pages: map<nat, Frame>) {
    forall va | va in pages :: !InSeg(prog, va) && |pages[va].data| == PGSIZE
  }

  lemma StartIsOk(prog: Program, m: Memory)
    requires Started(prog, m)
    ensures Inv(prog, m, {})
  {
  }

  // The slot of a swapped page: -1 if it is not swapped.
  function SlotOf(metas: seq<Meta>, va: nat): (s: int)
    ensures s >= -1
  {
    var k := Find(metas, va, 0);
    if k >= 0 && metas[k].inSwap then metas[k].slot else -1
  }

  // The bytes of a segment page, wherever they are kept.
  function View(prog: Program, m: Memory, va: nat): seq<byte>
    requires InSeg(prog, va)
  {
    if va in m.pages then m.pages[va].data
    else if SlotOf(m.metas, va) >= 0 then ReadAt(m.swap, SlotOf(m.metas, va) * PGSIZE, PGSIZE)
    else Original(prog, va)
  }

  lemma FindIs(metas: seq<Meta>, k: nat)
    requires Distinct(metas) && k < |metas| && metas[k].va != 0
    ensures Find(metas, metas[k].va, 0) == k
  {
  }

  lemma WriteElsewhere(file: seq<byte>, slot: nat, data: seq<byte>, room: nat, other: nat)
    requires |data| == PGSIZE && other != slot && (other + 1) * PGSIZE <= |file|
    ensures ReadAt(WriteAt(file, slot * PGSIZE, data, room).0, other * PGSIZE, PGSIZE) == ReadAt(file, other * PGSIZE, PGSIZE)
  {
    var f := WriteAt(file, slot * PGSIZE, data, room).0;
    assert other < slot ==> (other + 1) * PGSIZE <= slot * PGSIZE;
    assert other > slot ==> (slot + 1) * PGSIZE <= other * PGSIZE;
    forall k | other * PGSIZE <= k < other * PGSIZE + PGSIZE
      ensures k < |f| && f[k] == file[k]
    {
    }
  }

  lemma WriteThere(file: seq<byte>, slot: nat, data: seq<byte>, room: nat)
    requires |data| == PGSIZE && WriteAt(file, slot * PGSIZE, data, room).1 == PGSIZE
    ensures var f := WriteAt(file, slot * PGSIZE, data, room).0;
            (slot + 1) * PGSIZE <= |f| && ReadAt(f, slot * PGSIZE, PGSIZE) == data
  {
    var f := WriteAt(file, slot * PGSIZE, data, room).0;
    assert f[slot * PGSIZE..slot * PGSIZE + PGSIZE] == data;
  }

  lemma WriteGrows(file: seq<byte>, off: nat, data: seq<byte>, room: nat)
    requires |file| <= MAXBYTES
    ensures |file| <= |WriteAt(file, off, data, room).0| <= MAXBYTES
  {
  }

  // Slots are taken lowest first, so a write to the first free slot never leaves a gap.
  lemma NoGap(m: Memory)
    requires Slotted(m) && FirstFree(m.slots, 0) >= 0
    ensures FirstFree(m.slots, 0) * PGSIZE <= |m.swap|
  {
    var k := FirstFree(m.slots, 0);
    if k > 0 { assert m.slots[k - 1]; }
  }

  // The swap file is as long as a file can be when 67 pages are in it.
  const MAXHELD: nat := 67

  lemma SlotsAreFew(m: Memory)
    requires Slotted(m)
    ensures forall k: nat | k < |m.slots| && m.slots[k] :: k < MAXHELD
    ensures |set i: nat | i < |m.metas| && m.metas[i].inSwap| <= MAXHELD
  {
    forall k: nat | k < |m.slots| && m.slots[k] ensures k < MAXHELD { assert (k + 1) * PGSIZE <= MAXBYTES; }
    var held := set i: nat | i < |m.metas| && m.metas[i].inSwap;
    OnePerSlot(m, held, MAXHELD);
  }

  lemma {:induction false} OnePerSlot(m: Memory, held: set<nat>, n: nat)
    requires Slotted(m)
    requires forall i | i in held :: i < |m.metas| && m.metas[i].inSwap && m.metas[i].slot < n
    ensures |held| <= n
  {
    if n == 0 {
      assert held == {};
    } else if exists i :: i in held && m.metas[i].slot == n - 1 {
      var i :| i in held && m.metas[i].slot == n - 1;
      OnePerSlot(m, held - {i}, n - 1);
    } else {
      OnePerSlot(m, held, n - 1);
    }
  }
}
