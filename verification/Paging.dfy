// kernel/kalloc.c and the page-table code of kernel/vm.c.

module Paging {
  import opened Bytes
  import opened PageModel
  import opened PageShortage
  import opened TrapPages
  import opened UserMemory

  datatype MapResult = Done | NoMemory | Remap

  class Machine {
    var mem: Memory
    var freelist: seq<nat>             // kmem.freelist, by page number
    const first: nat                   // the page of end[]; PHYSTOP is page |mem|
    ghost var who: map<nat, Place>     // the pages of the address spaces
    ghost const foreign: set<nat>      // pages mapped for others, like the trampoline

    constructor (mem: Memory, first: nat, ghost foreign: set<nat>)
      requires GoodMemory(mem, first) && forall b | b in foreign :: 0 < b < first && b < |mem|
      ensures Ok() && this.mem == mem && this.first == first && this.foreign == foreign
      ensures freelist == [] && who == map[]
    {
      this.mem, this.first, this.foreign := mem, first, foreign;
      freelist, who := [], map[];
    }

    ghost predicate Ok()
      reads this
    {
      Inv(mem, first, who, foreign, freelist)
    }

    ghost predicate Loose(p: nat)
      reads this
    {
      LoosePage(mem, first, foreign, Pool(who, freelist), p)
    }

    // kalloc
    method Kalloc() returns (p: nat)
      requires Ok()
      modifies `mem, `freelist
      ensures Ok() && SameLeaves(old(mem), mem, who)
      ensures p == 0 <==> old(freelist) == []
      ensures p == 0 ==> mem == old(mem) && freelist == old(freelist)
      ensures p != 0 ==> [p] + freelist == old(freelist) && p < |old(mem)| && mem == old(mem)[p := Filled(5)] && Loose(p)
    {
      hide Mapped, Formatted, Leaf;
      if freelist == [] {
        return 0;
      }
      Taken(mem, first, who, foreign, freelist);
      TablesSameInv(mem, mem[freelist[0] := Filled(5)], first, who, foreign, freelist[1..]);
      LooseIsAvailable(mem, first, who, foreign, freelist[1..], freelist[0]);
      p := freelist[0];
      freelist := freelist[1..];
      mem := mem[p := Filled(5)];
    }

    // kfree. false is the panic.
    method Kfree(p: nat) returns (ok: bool)
      modifies `mem, `freelist
      ensures ok <==> first <= p < |old(mem)|
      ensures ok ==> mem == old(mem)[p := Filled(1)] && freelist == [p] + old(freelist)
      ensures !ok ==> mem == old(mem) && freelist == old(freelist)
    {
      if p < first || p >= |mem| {
        return false;
      }
      mem := mem[p := Filled(1)];
      freelist := [p] + freelist;
      return true;
    }

    // freerange
    method Freerange(lo: nat, hi: nat)
      requires Ok() && lo <= hi && forall p: nat | lo <= p < hi :: Loose(p)
      modifies `mem, `freelist
      ensures Ok() && forall p: nat :: p in Pool(who, freelist) <==> p in old(Pool(who, freelist)) || lo <= p < hi
      ensures SameLeaves(old(mem), mem, who)
    {
      hide Mapped, Formatted, Leaf;
      for p := lo to hi
        invariant Ok() && SameLeaves(old(mem), mem, who) && |mem| == |old(mem)|
        invariant forall q: nat :: q in Pool(who, freelist) <==> q in old(Pool(who, freelist)) || lo <= q < p
      {
        assert old(Loose(p));
        LooseIsAvailable(mem, first, who, foreign, freelist, p);
        GivenBack(mem, first, who, foreign, freelist, p);
        var ok := Kfree(p);
      }
    }

    // The body of walk's loop, for entry i of table t.
    method WalkStep(t: nat, i: nat, alloc: bool) returns (c: nat)
      requires Ok() && t in who && who[t].depth < 2 && i < ENTRIES
      modifies `mem, `freelist, `who
      ensures Ok() && Grown(old(mem), old(who), old(freelist), mem, who, freelist)
      ensures !alloc ==> mem == old(mem) && freelist == old(freelist) && who == old(who)
      ensures c != 0 ==> c in who && who[c] == Below(old(who), t, i)
      ensures c == 0 ==> At(mem, Below(old(who), t, i)) == 0 && (alloc ==> freelist == [])
      ensures Stepped(old(mem), old(freelist), mem, freelist, Below(old(who), t, i), c)
      ensures c != 0 ==> Placed(old(mem), mem, Below(old(who), t, i))
    {
      hide Placed, OnlyPlace, Mapped, Formatted, Leaf, At, Pte, SetPte, Valid, MakePte;
      StepDown(mem, first, who, foreign, freelist, t, i);
      ValidLeads(mem, first, who, foreign, freelist, t, i);
      ghost var s := Below(who, t, i);
      if Valid(Pte(mem[t], i)) {
        c := Ppn(Pte(mem[t], i));
        if c != 0 {
          TableAt(mem, first, who, foreign, freelist, s);
          TableThere(mem, s);
        }
      } else {
        if !alloc {
          return 0;
        }
        ghost var mem0, free0 := mem, freelist;
        c := Kalloc();
        if c == 0 {
          return 0;
        }
        LooseIsAvailable(mem, first, who, foreign, freelist, c);
        NewTableKeepsInv(mem, first, who, foreign, freelist, t, i, c);
        MakePteIs(c, 1);
        LooseIsNoTable(mem0, who, freelist, c, Filled(5));
        TablePlaced(mem0, mem, NewTable(mem, t, i, c), who, foreign, s, c);
        NewTableIsEmpty(mem, t, i, c);
        PoolMoves(who, free0, c, s);
        mem := mem[c := Filled(0)];
        mem := PutPte(mem, t, i, MakePte(c, 1));
        who := who[c := s];
      }
    }

    // walk: the lowest table for page number vpn, or 0.
    method Walk(root: nat, vpn: nat, alloc: bool) returns (t: nat)
      requires Ok() && IsRoot(who, root) && vpn < MAXVPN
      modifies `mem, `freelist, `who
      ensures Ok() && Grown(old(mem), old(who), old(freelist), mem, who, freelist)
      ensures !alloc ==> mem == old(mem) && freelist == old(freelist) && who == old(who)
      ensures t != 0 ==> t in who && who[t] == Place(root, 2, vpn / ENTRIES) && t == At(mem, who[t])
      ensures t == 0 ==> At(mem, Place(root, 2, vpn / ENTRIES)) == 0 && (alloc ==> freelist == [])
      ensures alloc ==> (t == 0 <==> |old(freelist)| < old(Missing(mem, root, vpn)))
      ensures alloc && t != 0 ==> |freelist| + old(Missing(mem, root, vpn)) == |old(freelist)|
      ensures t != 0 ==> Paved(old(mem), mem, root, vpn, 0)
    {
      hide Paved, Placed, Mapped, Formatted, SameLeaves, DataSame, Extends, At, Px, Pow512, Pool, Spent, Stepped, Missing;
      WalkPlaces(root, vpn);
      ghost var m0, w0, f0 := mem, who, freelist;
      NoGrowth(m0, w0, f0);
      SpentNothing(m0, f0, root, vpn);
      PavedNone(m0, root, vpn);
      t := root;
      var level := 2;
      while level > 0
        invariant 0 <= level <= 2 && Ok() && Grown(m0, w0, f0, mem, who, freelist)
        invariant !alloc ==> mem == m0 && freelist == f0 && who == w0
        invariant t in who && who[t] == WalkPlace(root, level, vpn)
        invariant Spent(m0, f0, mem, freelist, root, vpn, level) && Paved(m0, mem, root, vpn, level)
      {
        ghost var m1, w1, f1, s := mem, who, freelist, WalkPlace(root, level - 1, vpn);
        t := WalkStep(t, Px(level, vpn), alloc);
        GrownTwice(m0, w0, f0, m1, w1, f1, mem, who, freelist);
        if t == 0 {
          NoneBelow(mem, root, level, vpn);
          if alloc { StepFailed(m0, f0, m1, f1, mem, freelist, root, vpn, level); }
          return 0;
        }
        SpentMore(m0, f0, m1, f1, mem, freelist, root, vpn, level, t);
        PavedMore(m0, m1, mem, root, vpn, level);
        level := level - 1;
      }
      OwnPlace(mem, first, who, foreign, freelist, t);
      SpentIs(m0, f0, mem, freelist, root, vpn);
    }

    // walkaddr: the page a user may use at page number vpn, or 0.
    method Walkaddr(root: nat, vpn: nat) returns (p: nat)
      requires Ok() && IsRoot(who, root)
      modifies `mem, `freelist, `who
      ensures mem == old(mem) && freelist == old(freelist) && who == old(who)
      ensures p == if vpn < MAXVPN && User(Leaf(mem, root, vpn)) then Ppn(Leaf(mem, root, vpn)) else 0
      ensures p != 0 ==> 0 < p < |mem| && Leaf(mem, root, vpn) != 0
    {
      hide Mapped, Formatted, At, Pte, Valid, Leaf, User;
      if vpn >= MAXVPN {
        return 0;
      }
      LeafAt(mem, first, who, foreign, freelist, root, vpn);
      NobodyUsesZero();
      var t := Walk(root, vpn, false);
      if t == 0 {
        return 0;
      }
      var pte := Pte(mem[t], vpn % ENTRIES);
      if !Valid(pte) {
        return 0;
      }
      if !User(pte) {
        return 0;
      }
      return Ppn(pte);
    }

    // One turn of mappages' loop. Remap is its panic.
    method MapPage(root: nat, vpn: nat, ppn: nat, perm: nat) returns (r: MapResult)
      requires Ok() && IsRoot(who, root) && vpn < MAXVPN && perm < 0x400
      requires Loose(ppn) || ppn in foreign
      modifies `mem, `freelist, `who
      ensures Ok()
      ensures r == Remap <==> old(Leaf(mem, root, vpn)) != 0
      ensures r == NoMemory <==> |old(freelist)| < old(Missing(mem, root, vpn))
      ensures r == NoMemory ==> freelist == [] && Missing(mem, root, vpn) > 0
      ensures r != Done ==> Grown(old(mem), old(who), old(freelist), mem, who, freelist)
      ensures r == Done ==> MappedOne(old(mem), old(who), old(freelist), mem, who, freelist, foreign, root, vpn, ppn, perm)
      ensures r == Done ==> Paved(old(mem), mem, root, vpn, 0) && |freelist| + old(Missing(mem, root, vpn)) == |old(freelist)|
    {
      hide Paved, SameTables, Mapped, Formatted, Missing, At, Pte, SetPte, Valid, MakePte, WithValid, Leaf, Grown, MappedOne, Pool;
      ghost var m0, w0, f0 := mem, who, freelist;
      LeafAt(mem, first, who, foreign, freelist, root, vpn);
      var t := Walk(root, vpn, true);
      MissingLast(mem, root, vpn);
      GrownMeans(m0, w0, f0, mem, who, freelist, root, vpn);
      LeafAt(mem, first, who, foreign, freelist, root, vpn);
      if t == 0 {
        return NoMemory;
      }
      if Valid(Pte(mem[t], vpn % ENTRIES)) {
        return Remap;
      }
      MapAfterWalk(m0, w0, f0, mem, who, freelist, first, foreign, t, root, vpn, ppn, perm);
      PavedThenSame(m0, mem, PutPte(mem, t, vpn % ENTRIES, MakePte(ppn, WithValid(perm))), root, vpn);
      mem := PutPte(mem, t, vpn % ENTRIES, MakePte(ppn, WithValid(perm)));
      who := if ppn in foreign then who else who[ppn := Place(root, 3, vpn)];
      return Done;
    }

    // mappages of n pages; done counts those mapped.
    method Mappages(root: nat, vpn: nat, n: nat, ppn: nat, perm: nat) returns (r: MapResult, done: nat)
      requires Ok() && IsRoot(who, root) && 0 < n && vpn + n <= MAXVPN && perm < 0x400
      requires forall k: nat | k < n :: Mappable(ppn, k)
      modifies `mem, `freelist, `who
      ensures Ok() && done <= n && (r == Done <==> done == n)
      ensures MappedRange(old(mem), old(who), old(freelist), mem, who, freelist, foreign, root, vpn, done, ppn, perm)
      ensures r == Remap ==> old(Leaf(mem, root, vpn + done)) != 0
      ensures r == NoMemory ==> freelist == [] && old(Leaf(mem, root, vpn + done)) == 0
      ensures r == NoMemory ==> |old(freelist)| < |old(Absent(mem, root, Span(vpn, vpn + done + 1)))|
      ensures forall u: nat | vpn <= u < vpn + done :: old(Leaf(mem, root, u)) == 0
      ensures r == Done ==> |freelist| + |old(Absent(mem, root, Span(vpn, vpn + n)))| == |old(freelist)|
      ensures r == Done <==> (forall u: nat | vpn <= u < vpn + n :: old(Leaf(mem, root, u)) == 0)
                             && |old(freelist)| >= |old(Absent(mem, root, Span(vpn, vpn + n)))|
    {
      hide Missing, Paved, Fed, Absent, Span, Mapped, Formatted, Leaf, MappedRange, MappedOne, Grown, Pool, LoosePage;
      ghost var m0, w0, f0 := mem, who, freelist;
      RangeNone(m0, w0, f0, foreign, root, vpn, ppn, perm);
      FedNone(m0, f0, root);
      SpanMore(vpn, vpn);
      done := 0;
      while done < n
        invariant done <= n && Ok()
        invariant MappedRange(m0, w0, f0, mem, who, freelist, foreign, root, vpn, done, ppn, perm)
        invariant Fed(m0, f0, mem, freelist, root, Span(vpn, vpn + done), 0)
        invariant forall u: nat | vpn <= u < vpn + done :: Leaf(m0, root, u) == 0
      {
        ghost var m1, w1, f1 := mem, who, freelist;
        RangeMeans(m0, w0, f0, m1, w1, f1, first, foreign, root, vpn, done, ppn, perm);
        assert old(Mappable(ppn, done));
        FedMeans(m0, f0, mem, freelist, root, Span(vpn, vpn + done), 0);
        SpanMore(vpn, vpn + done);
        r := MapPage(root, vpn + done, ppn + done, perm);
        if r == NoMemory {
          FedOut(m0, f0, m1, f1, root, Span(vpn, vpn + done), 0, vpn + done, 0, Span(vpn, vpn + done + 1));
          SpanWithin(vpn, vpn + done + 1, vpn + n);
          AbsentWithin(m0, root, Span(vpn, vpn + done + 1), Span(vpn, vpn + n));
        }
        if r != Done {
          RangeGrown(m0, w0, f0, m1, w1, f1, mem, who, freelist, foreign, root, vpn, done, ppn, perm);
          return;
        }
        RangeMore(m0, w0, f0, m1, w1, f1, mem, who, freelist, foreign, root, vpn, done, ppn, perm);
        FedMore(m0, f0, m1, f1, mem, freelist, root, Span(vpn, vpn + done), 0, vpn + done, 0);
        done := done + 1;
      }
      FedMeans(m0, f0, mem, freelist, root, Span(vpn, vpn + done), 0);
      r := Done;
    }

    ghost predicate Mappable(ppn: nat, k: nat)
      reads this
    {
      Loose(ppn + k) || ppn + k in foreign
    }

    // One turn of uvmunmap's loop, with do_free.
    method UnmapPage(root: nat, vpn: nat)
      requires Ok() && IsRoot(who, root) && vpn < MAXVPN && Ppn(Leaf(mem, root, vpn)) !in foreign
      modifies `mem, `freelist, `who
      ensures Ok() && Unmapped(old(mem), old(who), old(freelist), mem, who, freelist, root, vpn, 1)
    {
      hide Mapped, Formatted, At, Pte, SetPte, Valid, Leaf, Unmapped, Ppn, Pool;
      ghost var m0, w0, f0 := mem, who, freelist;
      LeafAt(mem, first, who, foreign, freelist, root, vpn);
      var t := Walk(root, vpn, false);
      if t == 0 {
        NothingToUnmap(m0, first, w0, foreign, f0, root, vpn);
        return;
      }
      var pte := Pte(mem[t], vpn % ENTRIES);
      if !Valid(pte) {
        NothingToUnmap(m0, first, w0, foreign, f0, root, vpn);
        return;
      }
      UnmapOne(m0, first, w0, foreign, f0, t, root, vpn);
      var ok := Kfree(Ppn(pte));
      assert ok;
      PutPteIsGood(mem, first, t, vpn % ENTRIES, 0);
      mem := PutPte(mem, t, vpn % ENTRIES, 0);
      who := who - {Ppn(pte)};
    }

    // uvmunmap with do_free
    method Uvmunmap(root: nat, vpn: nat, n: nat)
      requires Ok() && IsRoot(who, root) && vpn + n <= MAXVPN
      requires forall u | vpn <= u < vpn + n :: Ppn(Leaf(mem, root, u)) !in foreign
      modifies `mem, `freelist, `who
      ensures Ok() && Unmapped(old(mem), old(who), old(freelist), mem, who, freelist, root, vpn, n)
    {
      hide Mapped, Formatted, At, Leaf, Unmapped, Ppn, Pool;
      ghost var m0, w0, f0 := mem, who, freelist;
      UnmappedNone(m0, w0, f0, root, vpn);
      for a := 0 to n
        invariant Ok() && Unmapped(m0, w0, f0, mem, who, freelist, root, vpn, a)
      {
        ghost var m1, w1, f1 := mem, who, freelist;
        UnmappedMeans(m0, w0, f0, m1, w1, f1, root, vpn, a, vpn + a);
        UnmapPage(root, vpn + a);
        UnmappedMore(m0, w0, f0, m1, w1, f1, mem, who, freelist, root, vpn, a);
      }
    }

    // One turn of uvmunmap's loop, without do_free.
    method DetachPage(root: nat, vpn: nat)
      requires Ok() && IsRoot(who, root) && vpn < MAXVPN
      modifies `mem, `freelist, `who
      ensures Ok() && freelist == old(freelist) && Detached(old(mem), old(who), mem, who, root, vpn, 1)
    {
      hide Mapped, Formatted, At, Pte, SetPte, Valid, Leaf, Detached, Ppn, Pool;
      ghost var m0, w0, f0 := mem, who, freelist;
      LeafAt(mem, first, who, foreign, freelist, root, vpn);
      var t := Walk(root, vpn, false);
      if t == 0 {
        DetachNothing(m0, first, w0, foreign, f0, root, vpn);
        return;
      }
      var pte := Pte(mem[t], vpn % ENTRIES);
      if !Valid(pte) {
        DetachNothing(m0, first, w0, foreign, f0, root, vpn);
        return;
      }
      DetachOne(m0, first, w0, foreign, f0, t, root, vpn);
      PutPteIsGood(mem, first, t, vpn % ENTRIES, 0);
      mem := PutPte(mem, t, vpn % ENTRIES, 0);
      who := who - {Ppn(pte)};
    }

    // uvmunmap without do_free
    method Detach(root: nat, vpn: nat, n: nat)
      requires Ok() && IsRoot(who, root) && vpn + n <= MAXVPN
      modifies `mem, `freelist, `who
      ensures Ok() && freelist == old(freelist) && Detached(old(mem), old(who), mem, who, root, vpn, n)
    {
      hide Mapped, Formatted, At, Leaf, Detached, Ppn, Pool;
      ghost var m0, w0 := mem, who;
      DetachedNone(m0, w0, root, vpn);
      for a := 0 to n
        invariant Ok() && freelist == old(freelist) && Detached(m0, w0, mem, who, root, vpn, a)
      {
        ghost var m1, w1 := mem, who;
        DetachedMeans(m0, w0, m1, w1, root, vpn, a);
        DetachPage(root, vpn + a);
        DetachedMore(m0, w0, m1, w1, mem, who, root, vpn, a);
      }
    }

    // uvmdealloc
    method Uvmdealloc(root: nat, oldsz: nat, newsz: nat) returns (r: nat)
      requires Ok() && IsRoot(who, root) && oldsz <= MAXVPN * PGSIZE
      requires forall u | Pages(newsz) <= u < Pages(oldsz) :: Ppn(Leaf(mem, root, u)) !in foreign
      modifies `mem, `freelist, `who
      ensures Ok() && r == if newsz >= oldsz then oldsz else newsz
      ensures Unmapped(old(mem), old(who), old(freelist), mem, who, freelist, root, Pages(newsz),
                       if newsz >= oldsz then 0 else Pages(oldsz) - Pages(newsz))
    {
      hide Mapped, Formatted, Leaf, Unmapped, Ppn, Pages;
      UnmappedNone(mem, who, freelist, root, Pages(newsz));
      if newsz >= oldsz {
        return oldsz;
      }
      PagesMonotone(newsz, oldsz);
      if Pages(newsz) < Pages(oldsz) {
        Uvmunmap(root, Pages(newsz), Pages(oldsz) - Pages(newsz));
      }
      return newsz;
    }

    // kalloc a page for page number a, fill it, and map it: a turn of the loops of uvmalloc
    // and uvmcopy.
    method AddPage(root: nat, a: nat, perm: nat, page: Page, ghost m0: Memory, ghost w0: map<nat, Place>, ghost f0: seq<nat>, ghost lo: nat, ghost want: seq<Want>)
      returns (p: nat)
      requires Ok() && IsRoot(w0, root) && a < MAXVPN && perm < 0x400 && a == lo + |want| && Whole(page)
      requires Enlarged(m0, w0, f0, mem, who, freelist, root, lo, want) && Leaf(m0, root, a) == 0
      modifies `mem, `freelist, `who
      ensures Ok() && Enlarged(m0, w0, f0, mem, who, freelist, root, lo, if p != 0 then want + [Wanted(perm, page)] else want)
      ensures p == 0 <==> |old(freelist)| <= old(Missing(mem, root, a))
      ensures if p == 0 then |freelist| <= Missing(mem, root, a) else Ppn(Leaf(mem, root, a)) == p
      ensures p != 0 ==> Paved(old(mem), mem, root, a, 0) && |freelist| + 1 + old(Missing(mem, root, a)) == |old(freelist)|
    {
      hide Paved, SameTables, Missing, Mapped, Formatted, Leaf, Enlarged, Grown, MappedOne, Pool, Ppn, MakePte, WithValid, DataSame;
      ghost var m1, w1, f1 := mem, who, freelist;
      EnlargedMeans(m0, w0, f0, m1, w1, f1, root, lo, want, root, a);
      p := Kalloc();
      if p == 0 {
        return;
      }
      Blank(m1, first, who, foreign, freelist, mem, p, page);
      LooseIsNoTable(m1, w1, freelist, p, page);
      MissingSame(m1, first, w1, foreign, f1, m1[p := page], root, a);
      LooseKeepsTables(m1, w1, foreign, m1[p := page], root);
      mem := mem[p := page];
      ghost var m2, f2 := mem, freelist;
      DrawnLeaf(m1, w1, f1, m2, f2, p, page, root, a);
      var r := MapPage(root, a, p, perm);
      if r != Done {
        GrownLoose(m2, w1, f2, mem, who, freelist, first, foreign, p);
        DrawnReturned(m1, w1, f1, m2, f2, p, page, mem, first, who, foreign, freelist);
        EnlargedThenGrown(m0, w0, f0, m1, w1, f1, mem[p := Filled(1)], who, [p] + freelist, root, lo, want);
        GrownMeans(m2, w1, f2, mem, who, freelist, root, a);
        LooseIsNoTable(mem, who, freelist, p, Filled(1));
        MissingSame(mem, first, who, foreign, freelist, mem[p := Filled(1)], root, a);
        var freed := Kfree(p);
        return 0;
      }
      EnlargedMore(m0, w0, f0, m1, w1, f1, m2, f2, mem, who, freelist, foreign, root, lo, want, p, Wanted(perm, page));
      MappedOnePage(m2, w1, f2, mem, who, freelist, foreign, root, a, p, perm);
      SameThenPaved(m1, m2, mem, root, a);
    }

    // uvmalloc. failed is its return of 0 for lack of memory.
    method Uvmalloc(root: nat, oldsz: nat, newsz: nat, perm: nat) returns (r: nat, failed: bool)
      requires Ok() && IsRoot(who, root) && newsz <= MAXVPN * PGSIZE && perm < 0x400
      requires forall u: nat | Pages(oldsz) <= u < Pages(newsz) :: Leaf(mem, root, u) == 0
      modifies `mem, `freelist, `who
      ensures Ok() && r == if failed then 0 else if newsz < oldsz then oldsz else newsz
      ensures failed <==> |old(freelist)| < Need(old(mem), root, Span(Pages(oldsz), Pages(newsz)))
      ensures failed ==> Grown(old(mem), old(who), old(freelist), mem, who, freelist)
      ensures !failed ==> |freelist| + Need(old(mem), root, Span(Pages(oldsz), Pages(newsz))) == |old(freelist)|
      ensures !failed ==> Enlarged(old(mem), old(who), old(freelist), mem, who, freelist, root, Pages(oldsz),
                                   Zeros(if newsz < oldsz then 0 else Pages(newsz) - Pages(oldsz), perm))
      ensures !failed && newsz >= oldsz ==> Grew(old(mem), mem, root, oldsz, newsz, perm)
    {
      hide Grew, Mapped, Formatted, Leaf, Enlarged, Grown, Pages, Unmapped, Ppn, Fed, Absent, Span, Missing, Paved;
      ghost var m0, w0, f0 := mem, who, freelist;
      EnlargedNone(m0, w0, f0, root, Pages(oldsz));
      assert Zeros(0, perm) == [];
      FedNone(m0, f0, root);
      SpanMore(Pages(oldsz), Pages(oldsz));
      if newsz < oldsz { PagesMonotone(newsz, oldsz); }
      SpanWithin(Pages(oldsz), Pages(newsz), Pages(newsz));
      FedMeans(m0, f0, m0, f0, root, {}, 0);
      if newsz < oldsz {
        return oldsz, false;
      }
      PagesMonotone(oldsz, newsz);
      var lo := Pages(oldsz);
      var a := lo;
      while a < Pages(newsz)
        invariant lo <= a <= Pages(newsz) && Ok()
        invariant Enlarged(m0, w0, f0, mem, who, freelist, root, lo, Zeros(a - lo, perm))
        invariant Fed(m0, f0, mem, freelist, root, Span(lo, a), |Span(lo, a)|)
      {
        ghost var m1, f1 := mem, freelist;
        SpanMore(lo, a);
        SpanWithin(lo, a + 1, Pages(newsz));
        var p := AddPage(root, a, perm, Filled(0), m0, w0, f0, lo, Zeros(a - lo, perm));
        if p == 0 {
          FedOut(m0, f0, m1, f1, root, Span(lo, a), |Span(lo, a)|, a, 1, Span(lo, a + 1));
          NeedGrows(m0, root, Span(lo, a + 1), Span(lo, Pages(newsz)));
          Undo(root, lo, a, m0, w0, f0, Zeros(a - lo, perm));
          return 0, true;
        }
        FedMore(m0, f0, m1, f1, mem, freelist, root, Span(lo, a), |Span(lo, a)|, a, 1);
        assert Zeros(a - lo, perm) + [Wanted(perm, Filled(0))] == Zeros(a + 1 - lo, perm);
        a := a + 1;
      }
      FedMeans(m0, f0, mem, freelist, root, Span(lo, a), |Span(lo, a)|);
      ZerosGrew(m0, first, w0, foreign, f0, mem, who, freelist, root, oldsz, newsz, perm);
      return newsz, false;
    }

    // uvmdealloc or uvmunmap of what has been added, on the way out of a failed uvmalloc or
    // uvmcopy.
    method Undo(root: nat, lo: nat, a: nat, ghost m0: Memory, ghost w0: map<nat, Place>, ghost f0: seq<nat>, ghost want: seq<Want>)
      requires Ok() && Inv(m0, first, w0, foreign, f0) && IsRoot(w0, root) && lo <= a <= MAXVPN && |want| == a - lo
      requires Enlarged(m0, w0, f0, mem, who, freelist, root, lo, want)
      requires forall u: nat | lo <= u < a :: Leaf(m0, root, u) == 0
      modifies `mem, `freelist, `who
      ensures Ok() && Grown(m0, w0, f0, mem, who, freelist)
    {
      hide Mapped, Formatted, Leaf, Enlarged, Grown, Pages, Unmapped, Ppn;
      ghost var m1, w1, f1 := mem, who, freelist;
      WholePages(lo);
      WholePages(a);
      EnlargedOwns(m0, w0, f0, m1, first, w1, foreign, f1, root, lo, want);
      var r := Uvmdealloc(root, a * PGSIZE, lo * PGSIZE);
      EnlargedUndone(m0, first, w0, foreign, f0, m1, w1, f1, mem, who, freelist, root, lo, want);
    }

    // uvmcopy from address space parent to child, which has nothing below sz.
    method Uvmcopy(parent: nat, child: nat, sz: nat) returns (ok: bool)
      requires Ok() && IsRoot(who, parent) && IsRoot(who, child) && parent != child && sz <= MAXVPN * PGSIZE
      requires forall u: nat | u < Pages(sz) :: Leaf(mem, child, u) == 0
      modifies `mem, `freelist, `who
      ensures Ok()
      ensures ok ==> Enlarged(old(mem), old(who), old(freelist), mem, who, freelist, child, 0, Copies(old(mem), parent, Pages(sz)))
      ensures ok <==> |old(freelist)| >= Need(old(mem), child, Present(old(mem), parent, Pages(sz)))
      ensures ok ==> |freelist| + Need(old(mem), child, Present(old(mem), parent, Pages(sz))) == |old(freelist)|
      ensures !ok ==> Grown(old(mem), old(who), old(freelist), mem, who, freelist)
      ensures ok ==> Forked(old(mem), mem, parent, child, sz)
    {
      hide Forked, Mapped, Formatted, Leaf, At, Pte, Valid, Enlarged, Grown, Pages, Unmapped, Ppn, Flags, CopyOf, Fed, Absent, Present;
      ghost var m0, w0, f0 := mem, who, freelist;
      EnlargedNone(m0, w0, f0, child, 0);
      PagesMonotone(0, sz);
      assert Copies(m0, parent, 0) == [];
      FedNone(m0, f0, child);
      PresentMore(m0, parent, 0);
      var i := 0;
      while i < Pages(sz)
        invariant 0 <= i <= Pages(sz) && Ok()
        invariant Enlarged(m0, w0, f0, mem, who, freelist, child, 0, Copies(m0, parent, i))
        invariant Fed(m0, f0, mem, freelist, child, Present(m0, parent, i), |Present(m0, parent, i)|)
      {
        PresentWithin(m0, parent, i + 1, Pages(sz));
        assert Copies(m0, parent, i) + [CopyOf(m0, parent, i)] == Copies(m0, parent, i + 1);
        var done := CopyPage(parent, child, i, m0, w0, f0);
        if !done {
          NeedGrows(m0, child, Present(m0, parent, i + 1), Present(m0, parent, Pages(sz)));
          Undo(child, 0, i, m0, w0, f0, Copies(m0, parent, i));
          return false;
        }
        i := i + 1;
      }
      FedMeans(m0, f0, mem, freelist, child, Present(m0, parent, i), |Present(m0, parent, i)|);
      CopyIsForked(m0, first, w0, foreign, f0, mem, who, freelist, parent, child, sz);
      return true;
    }

    // One turn of uvmcopy's loop.
    method CopyPage(parent: nat, child: nat, i: nat, ghost m0: Memory, ghost w0: map<nat, Place>, ghost f0: seq<nat>) returns (ok: bool)
      requires Ok() && Inv(m0, first, w0, foreign, f0) && IsRoot(w0, parent) && IsRoot(w0, child) && parent != child && i < MAXVPN
      requires Enlarged(m0, w0, f0, mem, who, freelist, child, 0, Copies(m0, parent, i)) && Leaf(m0, child, i) == 0
      requires Fed(m0, f0, mem, freelist, child, Present(m0, parent, i), |Present(m0, parent, i)|)
      modifies `mem, `freelist, `who
      ensures Ok() && Enlarged(m0, w0, f0, mem, who, freelist, child, 0, if ok then Copies(m0, parent, i) + [CopyOf(m0, parent, i)] else Copies(m0, parent, i))
      ensures if ok then Fed(m0, f0, mem, freelist, child, Present(m0, parent, i + 1), |Present(m0, parent, i + 1)|)
              else |f0| < Need(m0, child, Present(m0, parent, i + 1))
    {
      hide Fed, Absent, Present, Paved, Missing, Mapped, Formatted, Leaf, At, Pte, Valid, Enlarged, Grown, Ppn, Flags, DataSame;
      ghost var want, m1, f1, before := Copies(m0, parent, i), mem, freelist, Present(m0, parent, i);
      PresentMore(m0, parent, i);
      EnlargedMeans(m0, w0, f0, mem, who, freelist, child, 0, want, parent, i);
      LeafAt(mem, first, who, foreign, freelist, parent, i);
      var t := Walk(parent, i, false);
      if t == 0 {
        EnlargedSkip(m0, w0, f0, mem, who, freelist, child, 0, want);
        return true;
      }
      var pte := Pte(mem[t], i % ENTRIES);
      if !Valid(pte) {
        EnlargedSkip(m0, w0, f0, mem, who, freelist, child, 0, want);
        return true;
      }
      FlagsKept(pte);
      EnlargedPage(m0, first, w0, foreign, f0, mem, who, freelist, child, 0, want, parent, i);
      var p := AddPage(child, i, Flags(pte), mem[Ppn(pte)], m0, w0, f0, 0, want);
      if p == 0 {
        FedOut(m0, f0, m1, f1, child, before, |before|, i, 1, before + {i});
        return false;
      }
      FedMore(m0, f0, m1, f1, mem, freelist, child, before, |before|, i, 1);
      return true;
    }

    // freewalk, without its last line: free every table below table p. With no mapping left
    // its panic is out of reach.
    method FreeEntries(p: nat)
      requires Ok() && p in who && who[p].depth <= 2 && Vacant(mem, who[p].root)
      modifies `mem, `freelist, `who
      ensures Ok() && p in who && p < |mem| && NoEntries(mem[p])
      ensures Pruned(old(mem), old(who), old(freelist), mem, who, freelist, old(who)[p])
      decreases 2 - who[p].depth
    {
      hide Mapped, Formatted, Leaf, At, Pte, Valid, Rwx, Pruned, Vacant, Ppn, Target;
      ghost var m0, w0, f0, u := mem, who, freelist, who[p];
      PrunedNone(m0, w0, f0, u);
      StepDown(mem, first, who, foreign, freelist, p, 0);
      var i := 0;
      while i < ENTRIES
        invariant 0 <= i <= ENTRIES && Ok() && p in who && who[p] == u && p < |mem| && Whole(mem[p])
        invariant Pruned(m0, w0, f0, mem, who, freelist, u) && Vacant(mem, u.root) && IsRoot(who, u.root)
        invariant forall j | 0 <= j < i :: !Valid(Pte(mem[p], j))
      {
        var pte := Pte(mem[p], i);
        if u.depth == 2 { VacantTable(mem, first, who, foreign, freelist, p, i); } else { InnerEntry(mem, first, who, foreign, freelist, p, i); }
        if Valid(pte) && !Rwx(pte) {
          FreeChild(p, i, m0, w0, f0);
        } else {
          assert !Valid(pte);
        }
        i := i + 1;
      }
    }

    // The recursive call, and clearing the entry that led there.
    method FreeChild(p: nat, i: nat, ghost m0: Memory, ghost w0: map<nat, Place>, ghost f0: seq<nat>)
      requires Ok() && p in who && p in w0 && w0[p] == who[p] && who[p].depth < 2 && i < ENTRIES && p < |mem| && Whole(mem[p])
      requires Valid(Pte(mem[p], i)) && Vacant(mem, who[p].root) && IsRoot(who, who[p].root)
      requires Pruned(m0, w0, f0, mem, who, freelist, who[p])
      modifies `mem, `freelist, `who
      ensures Ok() && p in who && who[p] == w0[p] && p < |mem| && Whole(mem[p]) && Vacant(mem, w0[p].root) && IsRoot(who, w0[p].root)
      ensures Pruned(m0, w0, f0, mem, who, freelist, w0[p])
      ensures !Valid(Pte(mem[p], i)) && forall j | 0 <= j < ENTRIES && j != i :: Pte(mem[p], j) == Pte(old(mem[p]), j)
      decreases 2 - who[p].depth, 0
    {
      hide Mapped, Formatted, Leaf, At, Pte, Rwx, Pruned, Vacant, Ppn, Target, NoEntries, PutPte;
      ghost var m1, w1, f1 := mem, who, freelist;
      InnerEntry(mem, first, who, foreign, freelist, p, i);
      var c := Ppn(Pte(mem[p], i));
      FreeEntries(c);
      PruneStep(m0, w0, f0, m1, w1, f1, mem, first, who, foreign, freelist, p, i, c, w0[p]);
      PrunedVacant(m0, w0, f0, m1, w1, f1, PutPte(mem[c := Filled(1)], p, i, 0), who - {c}, [c] + freelist, w0[p], w1[p].root);
      var ok := Kfree(c);
      mem := PutPte(mem, p, i, 0);
      who := who - {c};
    }

    // freewalk, from the root
    method Freewalk(root: nat)
      requires Ok() && IsRoot(who, root) && Vacant(mem, root)
      modifies `mem, `freelist, `who
      ensures Ok() && SpaceFreed(old(mem), old(who), old(freelist), mem, who, freelist, root)
    {
      hide Mapped, Formatted, Vacant, Pruned, SpaceFreed, NoEntries;
      ghost var m0, w0, f0 := mem, who, freelist;
      FreeEntries(root);
      PrunedKeepsRoot(m0, w0, f0, mem, who, freelist, root);
      PrunedRootFreed(m0, w0, f0, mem, first, who, foreign, freelist, root);
      var ok := Kfree(root);
      who := who - {root};
    }

    // uvmfree
    method Uvmfree(root: nat, sz: nat)
      requires Ok() && IsRoot(who, root) && sz <= MAXVPN * PGSIZE
      requires forall v: nat :: Leaf(mem, root, v) != 0 ==> v < Pages(sz) && Ppn(Leaf(mem, root, v)) !in foreign
      modifies `mem, `freelist, `who
      ensures Ok() && SpaceFreed(old(mem), old(who), old(freelist), mem, who, freelist, root)
    {
      hide Mapped, Formatted, Vacant, Unmapped, SpaceFreed, Leaf, Pages;
      ghost var m0, w0, f0 := mem, who, freelist;
      PagesMonotone(0, sz);
      NoPages();
      NoForeignZero(foreign, mem, first, who, freelist);
      UnmappedNone(m0, w0, f0, root, 0);
      if sz > 0 {
        Uvmunmap(root, 0, Pages(sz));
      }
      UnmappedIsVacant(m0, w0, f0, mem, who, freelist, root, Pages(sz));
      ghost var m1, w1, f1 := mem, who, freelist;
      Freewalk(root);
      UnmappedThenFreed(m0, w0, f0, m1, w1, f1, mem, who, freelist, root, Pages(sz));
    }

    // proc_freepagetable
    method FreePagetable(root: nat, sz: nat)
      requires Ok() && IsRoot(who, root) && sz <= TRAPFRAME * PGSIZE
      requires forall v: nat :: Leaf(mem, root, v) != 0 ==>
                 v == TRAMPOLINE || v == TRAPFRAME || (v < Pages(sz) && Ppn(Leaf(mem, root, v)) !in foreign)
      modifies `mem, `freelist, `who
      ensures Ok() && SpaceClosed(old(mem), old(who), old(freelist), mem, who, freelist, root)
    {
      hide Mapped, Formatted, SpaceFreed, SpaceClosed, Detached, Leaf, Pages;
      ghost var m0, w0, f0 := mem, who, freelist;
      Detach(root, TRAMPOLINE, 1);
      ghost var m1, w1 := mem, who;
      DetachedMeans(m0, w0, m1, w1, root, TRAMPOLINE, 1);
      Detach(root, TRAPFRAME, 1);
      DetachedMeans(m1, w1, mem, who, root, TRAPFRAME, 1);
      TopDetached(m0, w0, m1, w1, mem, who, root);
      ghost var m2, w2 := mem, who;
      Uvmfree(root, sz);
      DetachedThenFreed(m0, first, w0, foreign, f0, m2, w2, mem, who, freelist, root);
    }

    // uvmcreate. 0: out of memory.
    method Uvmcreate() returns (p: nat)
      requires Ok()
      modifies `mem, `freelist, `who
      ensures Ok() && (p == 0 <==> old(freelist) == [])
      ensures p == 0 ==> mem == old(mem) && who == old(who) && freelist == old(freelist)
      ensures p != 0 ==> who == old(who)[p := Place(p, 0, 0)] && p !in old(who) && Vacant(mem, p) && SameLeaves(old(mem), mem, old(who))
      ensures p != 0 ==> Pool(who, freelist) == old(Pool(who, freelist)) && DataSame(old(mem), mem, old(who), old(Pool(who, freelist)))
    {
      hide Mapped, Formatted, Leaf;
      ghost var m1, f1 := mem, freelist;
      p := Kalloc();
      if p == 0 {
        return;
      }
      Blank(m1, first, who, foreign, freelist, mem, p, Filled(0));
      mem := mem[p := Filled(0)];
      DrawnPool(m1, who, f1, mem, freelist, p, Filled(0));
      NewRootKeepsInv(mem, first, who, foreign, freelist, p);
      PoolMoves(who, f1, p, Place(p, 0, 0));
      who := who[p := Place(p, 0, 0)];
    }

    // vmfault for page number vpn of the process of size sz
    method Vmfault(root: nat, vpn: nat, sz: nat) returns (p: nat)
      requires Ok() && IsRoot(who, root) && sz <= MAXVPN * PGSIZE
      modifies `mem, `freelist, `who
      ensures Ok() && IsRoot(who, root) && SameView(old(mem), mem, root, sz) && Aside(old(mem), old(who), mem, who, root)
      ensures old(Private(mem, root, foreign)) ==> Private(mem, root, foreign)
      ensures PagesKept(old(mem), old(who), mem)
      ensures p == 0 <==> vpn * PGSIZE >= sz || old(Leaf(mem, root, vpn)) != 0 || |old(freelist)| <= old(Missing(mem, root, vpn))
      ensures p == 0 ==> vpn * PGSIZE >= sz || Leaf(mem, root, vpn) != 0 || Short(mem, freelist, root, vpn)
      ensures p == 0 ==> Leaf(mem, root, vpn) == old(Leaf(mem, root, vpn))
      ensures p != 0 ==> var pte := Leaf(mem, root, vpn); vpn < MAXVPN && User(pte) && Writable(pte) && Ppn(pte) == p && p < |mem| && Whole(mem[p])
    {
      hide PagesKept, Missing, Mapped, Formatted, Leaf, At, Enlarged, Grown, Pte, Valid, Ppn, User, Writable, UserAt, Pages, Private, OthersView, Aside;
      ghost var m0, w0, f0 := mem, who, freelist;
      AsideNone(m0, w0, root);
      PagesSame(m0, first, w0, foreign, f0);
      if vpn * PGSIZE >= sz {
        return 0;
      }
      LeafAt(mem, first, who, foreign, freelist, root, vpn);
      var t := Walk(root, vpn, false);
      if t != 0 && Valid(Pte(mem[t], vpn % ENTRIES)) {
        return 0;
      }
      LazyIs(0);
      EnlargedNone(m0, w0, f0, root, vpn);
      p := AddPage(root, vpn, LAZY, Filled(0), m0, w0, f0, vpn, []);
      assert [] + [Wanted(LAZY, Filled(0))] == [Wanted(LAZY, Filled(0))];
      EnlargedMeans(m0, w0, f0, mem, who, freelist, root, vpn, if p != 0 then [Wanted(LAZY, Filled(0))] else [], root, vpn);
      if p == 0 {
        EnlargedNothing(m0, w0, f0, mem, who, freelist, root, vpn);
        GrownKeepsPages(m0, first, w0, foreign, f0, mem, who, freelist);
        GrownView(m0, first, w0, foreign, f0, mem, who, freelist, root, sz);
        GrownOthers(m0, first, w0, foreign, f0, mem, who, freelist, root);
        GrownExtends(m0, w0, f0, mem, who, freelist);
        ExtendsAside(m0, w0, mem, who, root);
      } else {
        EnlargedKeepsPages(m0, first, w0, foreign, f0, mem, who, freelist, root, vpn, [Wanted(LAZY, Filled(0))]);
        EnlargedOthers(m0, first, w0, foreign, f0, mem, who, freelist, root, vpn, [Wanted(LAZY, Filled(0))]);
        EnlargedExtends(m0, w0, f0, mem, who, freelist, root, vpn, [Wanted(LAZY, Filled(0))]);
        ExtendsAside(m0, w0, mem, who, root);
        LazyView(m0, first, w0, foreign, f0, mem, who, freelist, root, sz, vpn);
      }
    }

    // "pa0 = walkaddr; if 0, pa0 = vmfault", in copyin and copyout
    method Resolve(root: nat, vpn: nat, sz: nat) returns (p: nat)
      requires Ok() && IsRoot(who, root) && sz <= MAXVPN * PGSIZE
      modifies `mem, `freelist, `who
      ensures Ok() && IsRoot(who, root) && SameView(old(mem), mem, root, sz) && Aside(old(mem), old(who), mem, who, root)
      ensures old(Private(mem, root, foreign)) ==> Private(mem, root, foreign)
      ensures PagesKept(old(mem), old(who), mem)
      ensures p == 0 ==> UserAt(old(mem), root, sz, vpn * PGSIZE) == Fault || Short(mem, freelist, root, vpn)
      ensures p != 0 ==> var pte := Leaf(mem, root, vpn); vpn < MAXVPN && User(pte) && Ppn(pte) == p && p < |mem| && Whole(mem[p])
    {
      hide PagesKept, Mapped, Formatted, Leaf, At, Pte, Valid, Ppn, User, Writable, Private, Aside;
      ghost var m0 := mem;
      AsideNone(m0, who, root);
      PagesSame(mem, first, who, foreign, freelist);
      p := Walkaddr(root, vpn);
      if p == 0 {
        PageStart(vpn);
        LeafAt(mem, first, who, foreign, freelist, root, vpn);
        NobodyUsesZero();
        p := Vmfault(root, vpn, sz);
      }
    }

    // copyin, for the process of size sz
    method Copyin(root: nat, srcva: nat, len: nat, sz: nat) returns (ok: bool, dst: seq<byte>)
      requires Ok() && IsRoot(who, root) && sz <= MAXVPN * PGSIZE
      modifies `mem, `freelist, `who
      ensures Ok() && IsRoot(who, root) && SameView(old(mem), mem, root, sz)
      ensures ok ==> |dst| == len && Reads(old(mem), root, sz, srcva, dst)
      ensures !ok ==> |dst| < len && Reads(old(mem), root, sz, srcva, dst)
      ensures !ok ==> UserAt(old(mem), root, sz, srcva + |dst|) == Fault || Short(mem, freelist, root, (srcva + |dst|) / PGSIZE)
    {
      hide Mapped, Formatted, Leaf, UserAt, Reads;
      ghost var m0 := mem;
      dst := [];
      ReadsNone(m0, root, sz, srcva);
      while |dst| < len
        invariant |dst| <= len && Ok() && IsRoot(who, root) && SameView(m0, mem, root, sz)
        invariant Reads(m0, root, sz, srcva, dst)
        decreases len - |dst|
      {
        var va := srcva + |dst|;
        var pa := Resolve(root, va / PGSIZE, sz);
        if pa == 0 {
          if !Short(mem, freelist, root, va / PGSIZE) { PageFaults(m0, root, sz, va); }
          return false, dst;
        }
        var o := va % PGSIZE;
        var n := if PGSIZE - o > len - |dst| then len - |dst| else PGSIZE - o;
        PageBytes(mem, root, sz, va, n);
        ReadsMore(m0, mem, root, sz, srcva, dst, mem[pa].bytes[o..o + n]);
        dst := dst + mem[pa].bytes[o..o + n];
      }
      return true, dst;
    }

    // copyout, for the process of size sz. done counts the bytes stored.
    method Copyout(root: nat, dstva: nat, src: seq<byte>, sz: nat) returns (ok: bool, done: nat)
      requires Ok() && IsRoot(who, root) && sz <= MAXVPN * PGSIZE && Private(mem, root, foreign)
      modifies `mem, `freelist, `who
      ensures Ok() && IsRoot(who, root) && done <= |src| && (ok <==> done == |src|)
      ensures Wrote(old(mem), mem, root, sz, dstva, src[..done])
      ensures OthersView(old(mem), mem, old(who), root)
      ensures OnWritable(mem, root, dstva, done) && Protects(old(mem), old(who), mem)
      ensures !ok ==> || UserAt(old(mem), root, sz, dstva + done) == Fault || Short(mem, freelist, root, (dstva + done) / PGSIZE)
                      || !Writable(Leaf(mem, root, (dstva + done) / PGSIZE))
    {
      hide PagesKept, Protects, OnWritable, Mapped, Formatted, Leaf, At, Pte, UserAt, Private, OthersView, Aside, Wrote, SameView, User, Ppn, Patch, Writable;
      ghost var m0, w0 := mem, who;
      WroteNothing(m0, root, sz, dstva);
      AsideNone(m0, w0, root);
      PagesSame(m0, first, w0, foreign, freelist);
      KeptProtects(m0, w0, m0);
      WritableNone(m0, root, dstva);
      done := 0;
      while done < |src|
        invariant done <= |src| && Ok() && IsRoot(who, root) && Private(mem, root, foreign)
        invariant Wrote(m0, mem, root, sz, dstva, src[..done]) && Aside(m0, w0, mem, who, root)
        invariant OnWritable(mem, root, dstva, done) && Protects(m0, w0, mem)
      {
        var va := dstva + done;
        ghost var m1, w1 := mem, who;
        NotWritten(m0, m1, root, sz, dstva, src[..done]);
        AsideOthers(m0, w0, m1, w1, root);
        if va / PGSIZE >= MAXVPN {
          NoUserThere(m1, root, sz, va);
          return false, done;
        }
        var pa := Resolve(root, va / PGSIZE, sz);
        ghost var m2, w2 := mem, who;
        AsideTwice(m0, w0, m1, w1, m2, w2, root);
        AsideRoots(m0, w0, m1, w1, root);
        AsideRoots(m0, w0, m2, w2, root);
        ProtectsMore(m0, w0, m1, w1, m2);
        WritableStill(m1, w1, m2, root, dstva, done);
        AsideOthers(m0, w0, m2, w2, root);
        WroteStill(m0, m1, m2, root, sz, dstva, src[..done]);
        if pa == 0 {
          if !Short(mem, freelist, root, va / PGSIZE) { PageFaults(m1, root, sz, va); }
          return false, done;
        }
        LeafAt(mem, first, who, foreign, freelist, root, va / PGSIZE);
        NobodyUsesZero();
        var t := Walk(root, va / PGSIZE, false);
        if !Writable(Pte(mem[t], va / PGSIZE % ENTRIES)) {
          return false, done;
        }
        var o := va % PGSIZE;
        var n := if PGSIZE - o > |src| - done then |src| - done else PGSIZE - o;
        PrivatePage(mem, root, foreign, va / PGSIZE);
        StoreView(mem, first, who, foreign, freelist, root, sz, va, src[done..done + n]);
        StoreProtects(mem, first, who, foreign, freelist, root, va / PGSIZE, Patch(mem[pa], o, src[done..done + n]));
        mem := mem[pa := Patch(mem[pa], o, src[done..done + n])];
        ProtectsMore(m0, w0, m2, w2, mem);
        WritableMore(m2, w2, mem, root, dstva, done, n);
        WroteMore(m0, m1, m2, mem, root, sz, dstva, src[..done], src[done..done + n]);
        assert src[..done] + src[done..done + n] == src[..done + n];
        StoreAside(m0, w0, m2, w2, mem, root);
        StorePrivate(m2, mem, who, root, foreign);
        done := done + n;
      }
      AsideOthers(m0, w0, mem, who, root);
      assert src[..done] == src;
      return true, done;
    }
  }
}
