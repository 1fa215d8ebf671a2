// What user virtual addresses read as, and how copyin, copyout and vmfault of kernel/vm.c
// treat them.

module UserMemory {
  import opened Bytes
  import opened PageModel

  datatype Cell = Fault | Holds(value: byte)

  // The byte at user address va of a process of size sz. A page below sz that has not
  // been mapped yet reads as zeros.
  function UserAt(mem: Memory, root: nat, sz: nat, va: nat): Cell {
    var pte := Leaf(mem, root, va / PGSIZE);
    if va / PGSIZE < MAXVPN && User(pte) && Ppn(pte) < |mem| && Whole(mem[Ppn(pte)]) then Holds(mem[Ppn(pte)].bytes[va % PGSIZE])
    else if va / PGSIZE < MAXVPN && pte == 0 && va / PGSIZE * PGSIZE < sz then Holds(0)
    else Fault
  }

  // The process sees the same memory.
  ghost predicate SameView(m0: Memory, m: Memory, root: nat, sz: nat) {
    forall va: nat :: UserAt(m, root, sz, va) == UserAt(m0, root, sz, va)
  }

  // vmfault's permissions: PTE_W | PTE_U | PTE_R
  const LAZY := 22

  lemma LazyIs(p: nat)
    ensures WithValid(LAZY) == 23 && LAZY < 0x400
    ensures User(MakePte(p, 23)) && Ppn(MakePte(p, 23)) == p && Writable(MakePte(p, 23))
  {
    hide User, Writable, MakePte, Ppn;
    BitsOf(p, 23);
    MakePteIs(p, 23);
  }

  predicate Writable(pte: nat) { pte / 4 % 2 == 1 }

  // Adding tables shows nothing.
  lemma GrownView(m0: Memory, first: nat, w0: map<nat, Place>, foreign: set<nat>, f0: seq<nat>, m: Memory, w: map<nat, Place>, f: seq<nat>, root: nat, sz: nat)
    requires Inv(m0, first, w0, foreign, f0) && Grown(m0, w0, f0, m, w, f) && IsRoot(w0, root)
    ensures SameView(m0, m, root, sz)
  {
    hide Mapped, Formatted, Leaf, Ppn, At, User;
    forall va: nat
      ensures UserAt(m, root, sz, va) == UserAt(m0, root, sz, va)
    {
      LeafAt(m0, first, w0, foreign, f0, root, va / PGSIZE);
      LeafPage(m0, first, w0, foreign, f0, root, va / PGSIZE);
      assert !User(0) by { NobodyUsesZero(); }
    }
  }

  // A page allocated on demand holds what the process read there before.
  lemma LazyView(m0: Memory, first: nat, w0: map<nat, Place>, foreign: set<nat>, f0: seq<nat>, m: Memory, w: map<nat, Place>, f: seq<nat>, root: nat, sz: nat, vpn: nat)
    requires Inv(m0, first, w0, foreign, f0) && IsRoot(w0, root) && Leaf(m0, root, vpn) == 0 && vpn < MAXVPN && vpn * PGSIZE < sz
    requires Enlarged(m0, w0, f0, m, w, f, root, vpn, [Wanted(LAZY, Filled(0))])
    ensures SameView(m0, m, root, sz)
    ensures var pte := Leaf(m, root, vpn); User(pte) && Writable(pte) && 0 < Ppn(pte) < |m| && Whole(m[Ppn(pte)])
  {
    hide Mapped, Formatted, Leaf, Ppn, At, User, MakePte, WithValid, Writable;
    var x := Wanted(LAZY, Filled(0));
    assert Got(m, w, root, vpn, Wish([x], vpn, vpn));
    LazyIs(Ppn(Leaf(m, root, vpn)));
    NobodyUsesZero();
    assert Leaf(m, root, vpn) != 0;
    LazyPositive(m0, first, w0, foreign, f0, m, w, f, Ppn(Leaf(m, root, vpn)));
    forall va: nat
      ensures UserAt(m, root, sz, va) == UserAt(m0, root, sz, va)
    {
      if va / PGSIZE != vpn {
        LeafAt(m0, first, w0, foreign, f0, root, va / PGSIZE);
        LeafPage(m0, first, w0, foreign, f0, root, va / PGSIZE);
      }
    }
  }

  lemma LazyPositive(m0: Memory, first: nat, w0: map<nat, Place>, foreign: set<nat>, f0: seq<nat>, m: Memory, w: map<nat, Place>, f: seq<nat>, p: nat)
    requires Inv(m0, first, w0, foreign, f0) && Pool(w, f) == Pool(w0, f0) && p in w
    ensures p > 0
  {
    hide Mapped, Formatted;
    assert p in Pool(w0, f0);
  }

  // If the first byte of a page faults, all do.
  lemma PageFaults(m: Memory, root: nat, sz: nat, va: nat)
    requires UserAt(m, root, sz, va / PGSIZE * PGSIZE) == Fault
    ensures UserAt(m, root, sz, va) == Fault
  {
    hide Leaf, User, Ppn;
    PageStart(va / PGSIZE);
  }

  // The bytes d are what the process has at va.
  ghost predicate Reads(m: Memory, root: nat, sz: nat, va: nat, d: seq<byte>) {
    forall a: nat | va <= a < va + |d| :: UserAt(m, root, sz, a) == Holds(d[a - va])
  }

  lemma ReadsNone(m: Memory, root: nat, sz: nat, va: nat)
    ensures Reads(m, root, sz, va, [])
  {
  }

  lemma ReadsMore(m0: Memory, m: Memory, root: nat, sz: nat, va: nat, d: seq<byte>, e: seq<byte>)
    requires Reads(m0, root, sz, va, d) && SameView(m0, m, root, sz) && Reads(m, root, sz, va + |d|, e)
    ensures Reads(m0, root, sz, va, d + e)
  {
    hide UserAt;
    forall a: nat | va <= a < va + |d + e|
      ensures UserAt(m0, root, sz, a) == Holds((d + e)[a - va])
    {
      if a >= va + |d| { assert UserAt(m, root, sz, a) == Holds(e[a - (va + |d|)]); }
    }
  }

  // Inside one user page.
  lemma PageBytes(m: Memory, root: nat, sz: nat, va: nat, n: nat)
    requires var pte := Leaf(m, root, va / PGSIZE); va / PGSIZE < MAXVPN && User(pte) && Ppn(pte) < |m| && Whole(m[Ppn(pte)])
    requires va % PGSIZE + n <= PGSIZE
    ensures Reads(m, root, sz, va, m[Ppn(Leaf(m, root, va / PGSIZE))].bytes[va % PGSIZE..va % PGSIZE + n])
  {
    hide Leaf, User, Ppn;
    var p := m[Ppn(Leaf(m, root, va / PGSIZE))];
    forall a: nat | va <= a < va + n
      ensures UserAt(m, root, sz, a) == Holds(p.bytes[va % PGSIZE..va % PGSIZE + n][a - va])
    {
      SamePage(va, a - va);
    }
  }

  lemma SamePage(va: nat, k: nat)
    requires va % PGSIZE + k < PGSIZE
    ensures (va + k) / PGSIZE == va / PGSIZE && (va + k) % PGSIZE == va % PGSIZE + k
  {
  }

  // The pages a process can use are its own.
  ghost predicate Private(m: Memory, root: nat, foreign: set<nat>) {
    forall v: nat | User(Leaf(m, root, v)) :: Ppn(Leaf(m, root, v)) !in foreign
  }

  // Every other process sees the memory it saw.
  ghost predicate OthersView(m0: Memory, m: Memory, w0: map<nat, Place>, root: nat) {
    forall r, sz: nat | IsRoot(w0, r) && r != root :: SameView(m0, m, r, sz)
  }

  lemma GrownOthers(m0: Memory, first: nat, w0: map<nat, Place>, foreign: set<nat>, f0: seq<nat>, m: Memory, w: map<nat, Place>, f: seq<nat>, root: nat)
    requires Inv(m0, first, w0, foreign, f0) && Grown(m0, w0, f0, m, w, f) && IsRoot(w0, root)
    ensures OthersView(m0, m, w0, root)
    ensures Private(m0, root, foreign) ==> Private(m, root, foreign)
  {
    hide Mapped, Formatted, SameView, Leaf, User, Ppn;
    forall r, sz: nat | IsRoot(w0, r) && r != root
      ensures SameView(m0, m, r, sz)
    {
      GrownView(m0, first, w0, foreign, f0, m, w, f, r, sz);
    }
  }

  lemma EnlargedOthers(m0: Memory, first: nat, w0: map<nat, Place>, foreign: set<nat>, f0: seq<nat>, m: Memory, w: map<nat, Place>, f: seq<nat>,
                       root: nat, lo: nat, want: seq<Want>)
    requires Inv(m0, first, w0, foreign, f0) && Inv(m, first, w, foreign, f) && Enlarged(m0, w0, f0, m, w, f, root, lo, want) && IsRoot(w0, root)
    ensures OthersView(m0, m, w0, root)
    ensures Private(m0, root, foreign) ==> Private(m, root, foreign)
  {
    hide Mapped, Formatted, Leaf, User, Ppn, At, MakePte, Pool;
    forall r, sz, a: nat | IsRoot(w0, r) && r != root
      ensures UserAt(m, r, sz, a) == UserAt(m0, r, sz, a)
    {
      LeafAt(m0, first, w0, foreign, f0, r, a / PGSIZE);
      LeafPage(m0, first, w0, foreign, f0, r, a / PGSIZE);
      InPool(m0, first, w0, foreign, f0, Ppn(Leaf(m0, r, a / PGSIZE)));
      assert !User(0) by { NobodyUsesZero(); }
    }
    if Private(m0, root, foreign) {
      forall v: nat | User(Leaf(m, root, v))
        ensures Ppn(Leaf(m, root, v)) !in foreign
      {
        if lo <= v < lo + |want| {
          assert Got(m, w, root, v, Wish(want, lo, v));
          NobodyUsesZero();
        }
      }
    }
  }

  lemma InPool(m: Memory, first: nat, w: map<nat, Place>, foreign: set<nat>, f: seq<nat>, p: nat)
    requires Inv(m, first, w, foreign, f)
    ensures p in foreign ==> p !in Pool(w, f)
  {
    hide Mapped, Formatted;
  }

  // A page with d written over the bytes from o on.
  function Patch(p: Page, o: nat, d: seq<byte>): (r: Page)
    requires Whole(p) && o + |d| <= PGSIZE
    ensures Whole(r) && forall q | 0 <= q < PGSIZE :: r.bytes[q] == if o <= q < o + |d| then d[q - o] else p.bytes[q]
  {
    Page(p.bytes[..o] + d + p.bytes[o + |d|..])
  }

  // The process sees d at va, and otherwise what it saw.
  ghost predicate Wrote(m0: Memory, m: Memory, root: nat, sz: nat, va: nat, d: seq<byte>) {
    forall a: nat :: UserAt(m, root, sz, a) == if va <= a < va + |d| then Holds(d[a - va]) else UserAt(m0, root, sz, a)
  }

  lemma WroteNothing(m: Memory, root: nat, sz: nat, va: nat)
    ensures Wrote(m, m, root, sz, va, [])
  {
  }

  lemma WroteMore(m0: Memory, m1: Memory, m2: Memory, m3: Memory, root: nat, sz: nat, va: nat, d: seq<byte>, e: seq<byte>)
    requires Wrote(m0, m1, root, sz, va, d) && SameView(m1, m2, root, sz) && Wrote(m2, m3, root, sz, va + |d|, e)
    ensures Wrote(m0, m3, root, sz, va, d + e)
  {
    hide UserAt;
    forall a: nat
      ensures UserAt(m3, root, sz, a) == if va <= a < va + |d + e| then Holds((d + e)[a - va]) else UserAt(m0, root, sz, a)
    {
      assert UserAt(m1, root, sz, a) == UserAt(m2, root, sz, a);
    }
  }

  // Storing into a page of the process: one process sees it, at one place.
  lemma StoreView(m: Memory, first: nat, w: map<nat, Place>, foreign: set<nat>, f: seq<nat>, root: nat, sz: nat, va: nat, d: seq<byte>)
    requires Inv(m, first, w, foreign, f) && IsRoot(w, root) && va / PGSIZE < MAXVPN && va % PGSIZE + |d| <= PGSIZE
    requires var pte := Leaf(m, root, va / PGSIZE); User(pte) && Ppn(pte) !in foreign && Ppn(pte) < |m| && Whole(m[Ppn(pte)])
    ensures var p := Ppn(Leaf(m, root, va / PGSIZE));
            var m' := m[p := Patch(m[p], va % PGSIZE, d)];
            && Inv(m', first, w, foreign, f) && SameLeaves(m, m', w)
            && Wrote(m, m', root, sz, va, d) && OthersView(m, m', w, root)
  {
    hide Mapped, Formatted, Leaf, User, Ppn, At, Patch;
    var pte := Leaf(m, root, va / PGSIZE);
    var p := Ppn(pte);
    NobodyUsesZero();
    LeafAt(m, first, w, foreign, f, root, va / PGSIZE);
    LeafPage(m, first, w, foreign, f, root, va / PGSIZE);
    var m' := m[p := Patch(m[p], va % PGSIZE, d)];
    TablesSameInv(m, m', first, w, foreign, f);
    forall r, v: nat | IsRoot(w, r)
      ensures Leaf(m', r, v) == Leaf(m, r, v)
      ensures Leaf(m, r, v) != 0 && Ppn(Leaf(m, r, v)) == p ==> r == root && v == va / PGSIZE
    {
      LeafAt(m, first, w, foreign, f, r, v);
      LeafPage(m, first, w, foreign, f, r, v);
    }
    StoreViewRoot(m, w, root, sz, va, d, m');
    StoreViewOthers(m, w, root, va, d, m');
  }

  lemma StoreViewRoot(m: Memory, w: map<nat, Place>, root: nat, sz: nat, va: nat, d: seq<byte>, m': Memory)
    requires IsRoot(w, root) && va / PGSIZE < MAXVPN && va % PGSIZE + |d| <= PGSIZE
    requires var pte := Leaf(m, root, va / PGSIZE); User(pte) && Ppn(pte) < |m| && Whole(m[Ppn(pte)]) && m' == m[Ppn(pte) := Patch(m[Ppn(pte)], va % PGSIZE, d)]
    requires forall v: nat :: Leaf(m', root, v) == Leaf(m, root, v)
    requires forall v: nat | Leaf(m, root, v) != 0 && Ppn(Leaf(m, root, v)) == Ppn(Leaf(m, root, va / PGSIZE)) :: v == va / PGSIZE
    ensures Wrote(m, m', root, sz, va, d)
  {
    hide Leaf, User, Ppn, Patch;
    NobodyUsesZero();
    forall a: nat
      ensures UserAt(m', root, sz, a) == if va <= a < va + |d| then Holds(d[a - va]) else UserAt(m, root, sz, a)
    {
      if va <= a < va + |d| { SamePage(va, a - va); }
      if a / PGSIZE == va / PGSIZE { SameOffsets(va, a); }
    }
  }

  lemma SameOffsets(va: nat, a: nat)
    requires a / PGSIZE == va / PGSIZE
    ensures a - va == a % PGSIZE - va % PGSIZE
  {
  }

  lemma StoreViewOthers(m: Memory, w: map<nat, Place>, root: nat, va: nat, d: seq<byte>, m': Memory)
    requires va % PGSIZE + |d| <= PGSIZE
    requires var pte := Leaf(m, root, va / PGSIZE); User(pte) && Ppn(pte) < |m| && Whole(m[Ppn(pte)]) && m' == m[Ppn(pte) := Patch(m[Ppn(pte)], va % PGSIZE, d)]
    requires forall r, v: nat | IsRoot(w, r) :: Leaf(m', r, v) == Leaf(m, r, v)
    requires forall r, v: nat | IsRoot(w, r) && Leaf(m, r, v) != 0 && Ppn(Leaf(m, r, v)) == Ppn(Leaf(m, root, va / PGSIZE)) :: r == root
    ensures OthersView(m, m', w, root)
  {
    hide Leaf, User, Ppn, Patch;
    NobodyUsesZero();
    forall r, sz, a: nat | IsRoot(w, r) && r != root
      ensures UserAt(m', r, sz, a) == UserAt(m, r, sz, a)
    {
    }
  }

  // From m0 on, nothing has happened to the other processes, and they are all still there.
  ghost predicate Aside(m0: Memory, w0: map<nat, Place>, m: Memory, w: map<nat, Place>, root: nat) {
    OthersView(m0, m, w0, root) && forall r | IsRoot(w0, r) :: IsRoot(w, r)
  }

  lemma AsideNone(m: Memory, w: map<nat, Place>, root: nat)
    ensures Aside(m, w, m, w, root)
  {
  }

  lemma AsideTwice(m0: Memory, w0: map<nat, Place>, m1: Memory, w1: map<nat, Place>, m2: Memory, w2: map<nat, Place>, root: nat)
    requires Aside(m0, w0, m1, w1, root) && Aside(m1, w1, m2, w2, root)
    ensures Aside(m0, w0, m2, w2, root)
  {
    hide SameView;
    forall r, sz: nat | IsRoot(w0, r) && r != root
      ensures SameView(m0, m2, r, sz)
    {
      SameViewTwice(m0, m1, m2, r, sz);
    }
  }

  lemma SameViewTwice(m0: Memory, m1: Memory, m2: Memory, r: nat, sz: nat)
    requires SameView(m0, m1, r, sz) && SameView(m1, m2, r, sz)
    ensures SameView(m0, m2, r, sz)
  {
    hide UserAt;
    forall va: nat
      ensures UserAt(m2, r, sz, va) == UserAt(m0, r, sz, va)
    {
      assert UserAt(m2, r, sz, va) == UserAt(m1, r, sz, va);
    }
  }

  lemma ExtendsAside(m0: Memory, w0: map<nat, Place>, m: Memory, w: map<nat, Place>, root: nat)
    requires OthersView(m0, m, w0, root) && Extends(w0, w)
    ensures Aside(m0, w0, m, w, root)
  {
    hide SameView;
  }

  lemma AsideOthers(m0: Memory, w0: map<nat, Place>, m: Memory, w: map<nat, Place>, root: nat)
    requires Aside(m0, w0, m, w, root)
    ensures OthersView(m0, m, w0, root)
  {
  }

  lemma AsideRoots(m0: Memory, w0: map<nat, Place>, m: Memory, w: map<nat, Place>, root: nat)
    requires Aside(m0, w0, m, w, root)
    ensures forall r | IsRoot(w0, r) :: IsRoot(w, r)
  {
  }

  lemma StoreAside(m0: Memory, w0: map<nat, Place>, m1: Memory, w1: map<nat, Place>, m2: Memory, root: nat)
    requires Aside(m0, w0, m1, w1, root) && OthersView(m1, m2, w1, root)
    ensures Aside(m0, w0, m2, w1, root)
  {
    hide SameView;
    forall r, sz: nat | IsRoot(w0, r) && r != root
      ensures SameView(m0, m2, r, sz)
    {
      SameViewTwice(m0, m1, m2, r, sz);
    }
  }

  lemma StorePrivate(m: Memory, m': Memory, w: map<nat, Place>, root: nat, foreign: set<nat>)
    requires Private(m, root, foreign) && SameLeaves(m, m', w) && IsRoot(w, root)
    ensures Private(m', root, foreign)
  {
    hide Leaf, User, Ppn;
    assert forall v: nat :: Leaf(m', root, v) == Leaf(m, root, v);
  }

  lemma PrivatePage(m: Memory, root: nat, foreign: set<nat>, v: nat)
    requires Private(m, root, foreign)
    ensures User(Leaf(m, root, v)) ==> Ppn(Leaf(m, root, v)) !in foreign
  {
  }

  lemma NotWritten(m0: Memory, m: Memory, root: nat, sz: nat, va: nat, d: seq<byte>)
    requires Wrote(m0, m, root, sz, va, d)
    ensures UserAt(m, root, sz, va + |d|) == UserAt(m0, root, sz, va + |d|)
  {
    hide UserAt;
  }

  lemma WroteStill(m0: Memory, m1: Memory, m2: Memory, root: nat, sz: nat, va: nat, d: seq<byte>)
    requires Wrote(m0, m1, root, sz, va, d) && SameView(m1, m2, root, sz)
    ensures Wrote(m0, m2, root, sz, va, d)
  {
    hide UserAt;
    forall a: nat
      ensures UserAt(m2, root, sz, a) == if va <= a < va + |d| then Holds(d[a - va]) else UserAt(m0, root, sz, a)
    {
      assert UserAt(m2, root, sz, a) == UserAt(m1, root, sz, a);
    }
  }

  lemma NoUserThere(m: Memory, root: nat, sz: nat, va: nat)
    requires va / PGSIZE >= MAXVPN
    ensures UserAt(m, root, sz, va) == Fault
  {
  }

  // The bits of an entry, by number: PTE_V is 1, PTE_R 2, PTE_W 4, PTE_X 8 and PTE_U 16. A page
  // of program text (27) is the user's and not to be written, the trapframe (7) not the user's.
  lemma EntryBits(p: nat)
    ensures Valid(MakePte(p, 1)) && !Valid(MakePte(p, 30)) && !Valid(0)
    ensures User(MakePte(p, 16)) && !User(MakePte(p, 15)) && !User(MakePte(p, 7)) && User(MakePte(p, 27))
    ensures Writable(MakePte(p, 4)) && !Writable(MakePte(p, 27)) && Writable(MakePte(p, 7))
    ensures WithValid(22) == 23 && WithValid(23) == 23 && WithValid(6) == 7
  {
    hide Valid, User, Writable, MakePte;
    BitsOf(p, 1);
    BitsOf(p, 4);
    BitsOf(p, 7);
    BitsOf(p, 15);
    BitsOf(p, 16);
    BitsOf(p, 27);
    BitsOf(p, 30);
    SmallFlags();
  }

  lemma SmallFlags()
    ensures !Valid(0) && WithValid(22) == 23 && WithValid(23) == 23 && WithValid(6) == 7
  {
  }

  // The bits of a number made of a page number and flags are those of the flags.
  lemma LowPart(q: nat, f: nat)
    requires f < 1024
    ensures (1024 * q + f) % 1024 == f && (1024 * q + f) / 1024 == q && (1024 * q + f) % 2 == f % 2
  {
  }

  lemma Bit4(q: nat, f: nat)
    ensures (1024 * q + f) / 16 % 2 == f / 16 % 2
  {
    Quotient16(64 * q + f / 16, f % 16);
    assert 1024 * q + f == 16 * (64 * q + f / 16) + f % 16;
    Even(32 * q, f / 16);
  }

  lemma Bit2(q: nat, f: nat)
    ensures (1024 * q + f) / 4 % 2 == f / 4 % 2
  {
    Quotient4(256 * q + f / 4, f % 4);
    assert 1024 * q + f == 4 * (256 * q + f / 4) + f % 4;
    Even(128 * q, f / 4);
  }

  lemma Quotient16(k: nat, r: nat)
    requires r < 16
    ensures (16 * k + r) / 16 == k
  {
  }

  lemma Quotient4(k: nat, r: nat)
    requires r < 4
    ensures (4 * k + r) / 4 == k
  {
  }

  lemma Even(k: nat, a: nat)
    ensures (2 * k + a) % 2 == a % 2
  {
  }

  lemma BitsOf(p: nat, f: nat)
    requires f < 1024
    ensures (Valid(MakePte(p, f)) <==> f % 2 == 1) && (Writable(MakePte(p, f)) <==> f / 4 % 2 == 1) && (User(MakePte(p, f)) <==> f / 16 % 2 == 1)
    ensures MakePte(p, f) % 1024 == f
  {
    assert MakePte(p, f) == 1024 * p + f;
    LowPart(p, f);
    Bit4(p, f);
    Bit2(p, f);
  }

  // Every mapping of every address space stays, and its page keeps its bytes.
  ghost predicate PagesKept(m0: Memory, w0: map<nat, Place>, m: Memory) {
    && |m| == |m0|
    && forall r, v: nat | IsRoot(w0, r) && Leaf(m0, r, v) != 0 ::
         Leaf(m, r, v) == Leaf(m0, r, v) && Ppn(Leaf(m0, r, v)) < |m0| && m[Ppn(Leaf(m0, r, v))] == m0[Ppn(Leaf(m0, r, v))]
  }

  // Every mapping stays, and those without PTE_W keep the bytes of their pages.
  ghost predicate Protects(m0: Memory, w0: map<nat, Place>, m: Memory) {
    && |m| == |m0|
    && forall r, v: nat | IsRoot(w0, r) && Leaf(m0, r, v) != 0 ::
         && Leaf(m, r, v) == Leaf(m0, r, v) && Ppn(Leaf(m0, r, v)) < |m0|
         && (Leaf(m0, r, v) / 4 % 2 == 0 ==> m[Ppn(Leaf(m0, r, v))] == m0[Ppn(Leaf(m0, r, v))])
  }

  // The n bytes from va on lie on pages with PTE_W.
  ghost predicate OnWritable(m: Memory, root: nat, va: nat, n: nat) {
    forall a: nat | va <= a < va + n :: Leaf(m, root, a / 4096) / 4 % 2 == 1
  }

  lemma PagesSame(m: Memory, first: nat, w: map<nat, Place>, foreign: set<nat>, f: seq<nat>)
    requires Inv(m, first, w, foreign, f)
    ensures PagesKept(m, w, m)
  {
    hide Mapped, Formatted, Leaf, Ppn, At;
    forall r, v: nat | IsRoot(w, r) && Leaf(m, r, v) != 0
      ensures Ppn(Leaf(m, r, v)) < |m|
    {
      LeafAt(m, first, w, foreign, f, r, v);
    }
  }

  lemma MappedIsKept(m0: Memory, first: nat, w0: map<nat, Place>, foreign: set<nat>, f0: seq<nat>, m: Memory, r: nat, v: nat)
    requires Inv(m0, first, w0, foreign, f0) && IsRoot(w0, r) && Leaf(m0, r, v) != 0 && DataSame(m0, m, w0, Pool(w0, f0))
    ensures |m| == |m0| && Ppn(Leaf(m0, r, v)) < |m0| && m[Ppn(Leaf(m0, r, v))] == m0[Ppn(Leaf(m0, r, v))]
  {
    hide Mapped, Formatted, Leaf, Ppn, At, Pool;
    LeafAt(m0, first, w0, foreign, f0, r, v);
    LeafPage(m0, first, w0, foreign, f0, r, v);
    InPool(m0, first, w0, foreign, f0, Ppn(Leaf(m0, r, v)));
  }

  lemma GrownKeepsPages(m0: Memory, first: nat, w0: map<nat, Place>, foreign: set<nat>, f0: seq<nat>, m: Memory, w: map<nat, Place>, f: seq<nat>)
    requires Inv(m0, first, w0, foreign, f0) && Grown(m0, w0, f0, m, w, f)
    ensures PagesKept(m0, w0, m)
  {
    hide Mapped, Formatted, Leaf, Ppn, Pool;
    forall r, v: nat | IsRoot(w0, r) && Leaf(m0, r, v) != 0
      ensures Ppn(Leaf(m0, r, v)) < |m0| && m[Ppn(Leaf(m0, r, v))] == m0[Ppn(Leaf(m0, r, v))]
    {
      MappedIsKept(m0, first, w0, foreign, f0, m, r, v);
    }
  }

  lemma EnlargedKeepsPages(m0: Memory, first: nat, w0: map<nat, Place>, foreign: set<nat>, f0: seq<nat>, m: Memory, w: map<nat, Place>, f: seq<nat>,
                           root: nat, lo: nat, want: seq<Want>)
    requires Inv(m0, first, w0, foreign, f0) && Enlarged(m0, w0, f0, m, w, f, root, lo, want)
    requires forall v: nat | lo <= v < lo + |want| :: Leaf(m0, root, v) == 0
    ensures PagesKept(m0, w0, m)
  {
    hide Mapped, Formatted, Leaf, Ppn, Pool, Got;
    forall r, v: nat | IsRoot(w0, r) && Leaf(m0, r, v) != 0
      ensures Leaf(m, r, v) == Leaf(m0, r, v) && Ppn(Leaf(m0, r, v)) < |m0| && m[Ppn(Leaf(m0, r, v))] == m0[Ppn(Leaf(m0, r, v))]
    {
      MappedIsKept(m0, first, w0, foreign, f0, m, r, v);
    }
  }

  lemma ProtectsMore(m0: Memory, w0: map<nat, Place>, m1: Memory, w1: map<nat, Place>, m2: Memory)
    requires Protects(m0, w0, m1) && forall r | IsRoot(w0, r) :: IsRoot(w1, r)
    ensures PagesKept(m1, w1, m2) || Protects(m1, w1, m2) ==> Protects(m0, w0, m2)
  {
    hide Leaf, Ppn;
  }

  lemma KeptProtects(m0: Memory, w0: map<nat, Place>, m: Memory)
    requires PagesKept(m0, w0, m)
    ensures Protects(m0, w0, m)
  {
    hide Leaf, Ppn;
  }

  // A store into a page with PTE_W.
  lemma StoreProtects(m: Memory, first: nat, w: map<nat, Place>, foreign: set<nat>, f: seq<nat>, root: nat, v: nat, x: Page)
    requires Inv(m, first, w, foreign, f) && IsRoot(w, root)
    requires var pte := Leaf(m, root, v); pte != 0 && Writable(pte) && Ppn(pte) !in foreign && Ppn(pte) < |m|
    requires var p := Ppn(Leaf(m, root, v)); SameLeaves(m, m[p := x], w)
    ensures Protects(m, w, m[Ppn(Leaf(m, root, v)) := x])
  {
    hide Mapped, Formatted, Leaf, Ppn, At;
    var p := Ppn(Leaf(m, root, v));
    LeafAt(m, first, w, foreign, f, root, v);
    LeafPage(m, first, w, foreign, f, root, v);
    forall r, u: nat | IsRoot(w, r) && Leaf(m, r, u) != 0
      ensures Ppn(Leaf(m, r, u)) < |m| && (Ppn(Leaf(m, r, u)) == p ==> r == root && u == v)
    {
      LeafAt(m, first, w, foreign, f, r, u);
      LeafPage(m, first, w, foreign, f, r, u);
    }
  }

  lemma WritableNone(m: Memory, root: nat, va: nat)
    ensures OnWritable(m, root, va, 0)
  {
  }

  // n bytes more, on one page that is writable now; the earlier ones are still mapped as they were.
  lemma WritableMore(m0: Memory, w: map<nat, Place>, m: Memory, root: nat, va: nat, n: nat, k: nat)
    requires OnWritable(m0, root, va, n) && Protects(m0, w, m) && IsRoot(w, root)
    requires Writable(Leaf(m, root, (va + n) / PGSIZE)) && (va + n) % PGSIZE + k <= PGSIZE
    ensures OnWritable(m, root, va, n + k)
  {
    hide Leaf, Ppn;
    forall a: nat | va <= a < va + n + k
      ensures Leaf(m, root, a / 4096) / 4 % 2 == 1
    {
      if a < va + n {
        assert Leaf(m0, root, a / 4096) / 4 % 2 == 1;
      } else {
        SamePage(va + n, a - (va + n));
      }
    }
  }

  lemma WritableStill(m0: Memory, w: map<nat, Place>, m: Memory, root: nat, va: nat, n: nat)
    requires OnWritable(m0, root, va, n) && PagesKept(m0, w, m) && IsRoot(w, root)
    ensures OnWritable(m, root, va, n)
  {
    hide Leaf, Ppn;
    forall a: nat | va <= a < va + n
      ensures Leaf(m, root, a / 4096) / 4 % 2 == 1
    {
      assert Leaf(m0, root, a / 4096) / 4 % 2 == 1;
    }
  }

  // A child sees what its parent saw, with the same permissions, and the parent what it saw.
  ghost predicate Forked(m0: Memory, m: Memory, parent: nat, child: nat, sz: nat) {
    && SameView(m0, m, parent, sz)
    && (forall a: nat | a / 4096 < Pages(sz) :: UserAt(m, child, sz, a) == UserAt(m0, parent, sz, a))
    && forall v: nat | v < Pages(sz) :: Leaf(m, child, v) % 1024 == Leaf(m0, parent, v) % 1024
  }

  lemma CopyIsForked(m0: Memory, first: nat, w0: map<nat, Place>, foreign: set<nat>, f0: seq<nat>, m: Memory, w: map<nat, Place>, f: seq<nat>,
                     parent: nat, child: nat, sz: nat)
    requires Inv(m0, first, w0, foreign, f0) && Inv(m, first, w, foreign, f) && IsRoot(w0, parent) && IsRoot(w0, child) && parent != child
    requires Enlarged(m0, w0, f0, m, w, f, child, 0, Copies(m0, parent, Pages(sz)))
    ensures Forked(m0, m, parent, child, sz)
  {
    hide Mapped, Formatted, Leaf, At, UserAt, Enlarged, SameView, Pages;
    EnlargedOthers(m0, first, w0, foreign, f0, m, w, f, child, 0, Copies(m0, parent, Pages(sz)));
    assert SameView(m0, m, parent, sz);
    forall a: nat | a / 4096 < Pages(sz)
      ensures UserAt(m, child, sz, a) == UserAt(m0, parent, sz, a)
    {
      CopiedByte(m0, first, w0, foreign, f0, m, w, f, parent, child, sz, a);
    }
    forall v: nat | v < Pages(sz)
      ensures Leaf(m, child, v) % 1024 == Leaf(m0, parent, v) % 1024
    {
      PageStart(v);
      CopiedByte(m0, first, w0, foreign, f0, m, w, f, parent, child, sz, v * PGSIZE);
    }
  }

  lemma CopiedByte(m0: Memory, first: nat, w0: map<nat, Place>, foreign: set<nat>, f0: seq<nat>, m: Memory, w: map<nat, Place>, f: seq<nat>,
                   parent: nat, child: nat, sz: nat, a: nat)
    requires Inv(m0, first, w0, foreign, f0) && Inv(m, first, w, foreign, f) && IsRoot(w0, parent)
    requires Enlarged(m0, w0, f0, m, w, f, child, 0, Copies(m0, parent, Pages(sz))) && a / 4096 < Pages(sz)
    ensures UserAt(m, child, sz, a) == UserAt(m0, parent, sz, a)
    ensures Leaf(m, child, a / 4096) % 1024 == Leaf(m0, parent, a / 4096) % 1024
  {
    hide Mapped, Formatted, Leaf, At, Pages, MakePte, WithValid, Flags, Ppn, User, Pool, Valid;
    var v := a / PGSIZE;
    var want, pte := Copies(m0, parent, Pages(sz)), Leaf(m0, parent, v);
    assert Got(m, w, child, v, Wish(want, 0, v)) && Wish(want, 0, v) == CopyOf(m0, parent, v);
    LeafAt(m0, first, w0, foreign, f0, parent, v);
    NobodyUsesZero();
    if pte != 0 { SameFlags(pte, Ppn(Leaf(m, child, v))); }
  }

  lemma SameFlags(pte: nat, p: nat)
    requires Valid(pte)
    ensures User(MakePte(p, WithValid(Flags(pte)))) <==> User(pte)
    ensures MakePte(p, WithValid(Flags(pte))) != 0 && MakePte(p, WithValid(Flags(pte))) % 1024 == pte % 1024
  {
    hide User, MakePte;
    var f := pte % 1024;
    assert pte == MakePte(pte / 1024, f) by { EntrySplits(pte); }
    BitsOf(pte / 1024, f);
    BitsOf(p, f);
    assert WithValid(Flags(pte)) == f;
  }

  lemma EntrySplits(pte: nat)
    ensures pte == MakePte(pte / 1024, pte % 1024)
  {
  }

  // The process sees zeros where it has grown, if the pages are the user's, and below what it saw.
  ghost predicate Grew(m0: Memory, m: Memory, root: nat, oldsz: nat, newsz: nat, perm: nat) {
    && (forall a: nat | a / 4096 < Pages(oldsz) :: UserAt(m, root, newsz, a) == UserAt(m0, root, oldsz, a))
    && (forall a: nat | Pages(oldsz) <= a / 4096 < Pages(newsz) :: UserAt(m, root, newsz, a) == if perm / 16 % 2 == 1 then Holds(0) else Fault)
  }

  lemma ZerosGrew(m0: Memory, first: nat, w0: map<nat, Place>, foreign: set<nat>, f0: seq<nat>, m: Memory, w: map<nat, Place>, f: seq<nat>,
                  root: nat, oldsz: nat, newsz: nat, perm: nat)
    requires Inv(m0, first, w0, foreign, f0) && Inv(m, first, w, foreign, f) && IsRoot(w0, root)
    requires oldsz <= newsz <= MAXVPN * PGSIZE && perm < 0x400 && Pages(oldsz) <= Pages(newsz)
    requires Enlarged(m0, w0, f0, m, w, f, root, Pages(oldsz), Zeros(Pages(newsz) - Pages(oldsz), perm))
    ensures Grew(m0, m, root, oldsz, newsz, perm)
  {
    hide Mapped, Formatted, Leaf, At, UserAt, Enlarged, Pages;
    forall a: nat | a / 4096 < Pages(newsz)
      ensures if a / 4096 < Pages(oldsz) then UserAt(m, root, newsz, a) == UserAt(m0, root, oldsz, a)
              else UserAt(m, root, newsz, a) == if perm / 16 % 2 == 1 then Holds(0) else Fault
    {
      GrownByte(m0, first, w0, foreign, f0, m, w, f, root, oldsz, newsz, perm, a);
    }
  }

  lemma PageBelow(sz: nat, v: nat)
    ensures v < Pages(sz) <==> v * PGSIZE < sz
  {
  }

  lemma GrownByte(m0: Memory, first: nat, w0: map<nat, Place>, foreign: set<nat>, f0: seq<nat>, m: Memory, w: map<nat, Place>, f: seq<nat>,
                  root: nat, oldsz: nat, newsz: nat, perm: nat, a: nat)
    requires Inv(m0, first, w0, foreign, f0) && Inv(m, first, w, foreign, f) && IsRoot(w0, root)
    requires oldsz <= newsz <= MAXVPN * PGSIZE && perm < 0x400 && Pages(oldsz) <= Pages(newsz) && a / 4096 < Pages(newsz)
    requires Enlarged(m0, w0, f0, m, w, f, root, Pages(oldsz), Zeros(Pages(newsz) - Pages(oldsz), perm))
    ensures if a / 4096 < Pages(oldsz) then UserAt(m, root, newsz, a) == UserAt(m0, root, oldsz, a)
            else UserAt(m, root, newsz, a) == if perm / 16 % 2 == 1 then Holds(0) else Fault
  {
    hide Mapped, Formatted, Leaf, At, Pages, MakePte, WithValid, Ppn, User, Pool;
    var v := a / PGSIZE;
    PageBelow(oldsz, v);
    PageBelow(newsz, v);
    NobodyUsesZero();
    if v < Pages(oldsz) {
      LeafAt(m0, first, w0, foreign, f0, root, v);
      if Leaf(m0, root, v) != 0 { MappedIsKept(m0, first, w0, foreign, f0, m, root, v); }
    } else {
      assert Got(m, w, root, v, Wish(Zeros(Pages(newsz) - Pages(oldsz), perm), Pages(oldsz), v));
      PermBits(Ppn(Leaf(m, root, v)), perm);
    }
  }

  lemma PermBits(p: nat, perm: nat)
    requires perm < 0x400
    ensures User(MakePte(p, WithValid(perm))) <==> perm / 16 % 2 == 1
    ensures MakePte(p, WithValid(perm)) != 0
  {
    hide User, MakePte;
    BitsOf(p, WithValid(perm));
    assert WithValid(perm) / 16 == perm / 16;
  }
}
