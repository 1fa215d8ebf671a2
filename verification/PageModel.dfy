// Sv39 page tables in physical memory (RISC-V Privileged Architecture, section 4.4): the
// three-level tree as a map from page numbers to entries, and who owns each page.

module PageModel {
  import opened Bytes

  const PGSIZE := 4096
  const ENTRIES := 512
  const MAXPPN: nat := 0x1000_0000_0000   // an entry has a 44-bit page number

  datatype Page = Page(bytes: seq<byte>)

  // Physical memory, by page number.
  type Memory = seq<Page>

  predicate Whole(p: Page) { |p.bytes| == PGSIZE }

  function Filled(b: byte): (p: Page)
    ensures Whole(p) && forall i | 0 <= i < PGSIZE :: p.bytes[i] == b
  {
    Page(seq(PGSIZE, _ => b))
  }

  // The i-th 64-bit entry of a page-table page.
  function Pte(p: Page, i: nat): nat
    requires Whole(p) && i < ENTRIES
  {
    GetWord(p.bytes, 2 * i) + WORD * GetWord(p.bytes, 2 * i + 1)
  }

  function SetPte(p: Page, i: nat, v: nat): Page
    requires Whole(p) && i < ENTRIES && v < WORD * WORD
  {
    Page(PutWord(PutWord(p.bytes, 2 * i, v % WORD), 2 * i + 1, v / WORD))
  }

  lemma SetPteAt(p: Page, i: nat, v: nat, j: nat)
    requires Whole(p) && i < ENTRIES && v < WORD * WORD && j < ENTRIES
    ensures Whole(SetPte(p, i, v))
    ensures Pte(SetPte(p, i, v), j) == if j == i then v else Pte(p, j)
  {
    hide GetWord, PutWord;
    var lo := PutWord(p.bytes, 2 * i, v % WORD);
    PutWordAt(p.bytes, 2 * i, v % WORD, 2 * j);
    PutWordAt(p.bytes, 2 * i, v % WORD, 2 * j + 1);
    PutWordAt(lo, 2 * i + 1, v / WORD, 2 * j);
    PutWordAt(lo, 2 * i + 1, v / WORD, 2 * j + 1);
  }

  lemma ZeroPte(i: nat)
    requires i < ENTRIES
    ensures Pte(Filled(0), i) == 0
  {
    hide GetWord;
    ZeroWordAt(Filled(0).bytes, 2 * i);
    ZeroWordAt(Filled(0).bytes, 2 * i + 1);
  }

  // PTE_V, PTE2PA (as a page number), PTE_FLAGS, PA2PTE(pa) | flags
  predicate Valid(pte: nat) { pte % 2 == 1 }

  function Ppn(pte: nat): nat { pte / 0x400 }

  function Flags(pte: nat): nat { pte % 0x400 }

  function MakePte(ppn: nat, flags: nat): nat { ppn * 0x400 + flags }

  // One of PTE_R, PTE_W, PTE_X
  predicate Rwx(pte: nat) { pte / 2 % 8 != 0 }

  lemma MakePteIs(ppn: nat, flags: nat)
    requires flags < 0x400
    ensures Ppn(MakePte(ppn, flags)) == ppn && Flags(MakePte(ppn, flags)) == flags
    ensures Valid(MakePte(ppn, flags)) <==> Valid(flags)
    ensures ppn < MAXPPN ==> MakePte(ppn, flags) < WORD * WORD
  {
    assert MakePte(ppn, flags) / 0x400 == ppn;
    LowBits(ppn, flags);
  }

  lemma LowBits(ppn: nat, flags: nat)
    ensures (ppn * 0x400 + flags) % 2 == flags % 2
  {
    assert (ppn * 0x400 + flags) / 2 == 8 * (ppn * 0x40) + flags / 2;
  }

  // A place in an address space: depth 0 is the root table, 1 and 2 the tables below,
  // 3 the mapped pages; index counts the places of that depth in address order.
  datatype Place = Place(root: nat, depth: nat, index: nat)

  function Up(s: Place): Place
    requires s.depth > 0
  {
    Place(s.root, s.depth - 1, s.index / ENTRIES)
  }

  // The page an entry leads to, or 0.
  function Target(p: Page, i: nat): nat
    requires i < ENTRIES
  {
    if Whole(p) && Valid(Pte(p, i)) then Ppn(Pte(p, i)) else 0
  }

  // The page at a place, or 0: what following the entries from the root finds.
  function At(mem: Memory, s: Place): nat
    decreases s.depth
  {
    if s.depth == 0 then if s.index == 0 then s.root else 0
    else
      var t := At(mem, Up(s));
      if t == 0 || t >= |mem| then 0 else Target(mem[t], s.index % ENTRIES)
  }

  // The entry for page number vpn: 0 if there is none or it is not valid.
  function Leaf(mem: Memory, root: nat, vpn: nat): nat {
    var t := At(mem, Place(root, 2, vpn / ENTRIES));
    if t == 0 || t >= |mem| || !Whole(mem[t]) || !Valid(Pte(mem[t], vpn % ENTRIES)) then 0 else Pte(mem[t], vpn % ENTRIES)
  }

  ghost predicate IsRoot(who: map<nat, Place>, r: nat) {
    r in who && who[r] == Place(r, 0, 0)
  }

  // Table pages, and pages the address space owns, are known to be at their place. Pages
  // in foreign are mapped but belong to somebody else.
  ghost predicate Recorded(mem: Memory, who: map<nat, Place>, foreign: set<nat>, s: Place) {
    var a := At(mem, s);
    a != 0 ==> (a in who && who[a] == s) || (s.depth == 3 && a in foreign)
  }

  ghost predicate Owned(mem: Memory, who: map<nat, Place>, b: nat) {
    b in who && who[b].depth <= 3 && IsRoot(who, who[b].root) && At(mem, who[b]) == b
  }

  // Every page in who has exactly one place, in one address space.
  ghost predicate Mapped(mem: Memory, who: map<nat, Place>, foreign: set<nat>) {
    && (forall s: Place | s.depth <= 3 && IsRoot(who, s.root) :: Recorded(mem, who, foreign, s))
    && (forall b | b in who :: Owned(mem, who, b))
  }

  // Entries of upper tables point to tables; those of the lowest level map pages.
  predicate Inner(p: Page) {
    Whole(p) && forall i | 0 <= i < ENTRIES && Valid(Pte(p, i)) :: Flags(Pte(p, i)) == 1 && Ppn(Pte(p, i)) != 0
  }

  predicate Outer(p: Page) {
    Whole(p) && forall i | 0 <= i < ENTRIES && Valid(Pte(p, i)) :: Ppn(Pte(p, i)) != 0
  }

  ghost predicate Formatted(mem: Memory, who: map<nat, Place>) {
    forall b | b in who && b < |mem| :: (who[b].depth < 2 ==> Inner(mem[b])) && (who[b].depth == 2 ==> Outer(mem[b]))
  }

  ghost predicate GoodMemory(mem: Memory, first: nat) {
    0 < first && |mem| <= MAXPPN && forall b | 0 <= b < |mem| :: Whole(mem[b])
  }

  // Owned, foreign and free pages are different pages.
  ghost predicate Separate(mem: Memory, first: nat, who: map<nat, Place>, foreign: set<nat>, free: seq<nat>) {
    && (forall b | b in who :: first <= b < |mem| && b !in foreign)
    && (forall b | b in foreign :: 0 < b < |mem|)
    && (forall i | 0 <= i < |free| :: Available(mem, first, who, foreign, free[i]))
    && (forall i, j | 0 <= i < j < |free| :: free[i] != free[j])
  }

  ghost predicate Available(mem: Memory, first: nat, who: map<nat, Place>, foreign: set<nat>, b: nat) {
    first <= b < |mem| && b !in who && b !in foreign
  }

  ghost predicate Inv(mem: Memory, first: nat, who: map<nat, Place>, foreign: set<nat>, free: seq<nat>) {
    && GoodMemory(mem, first) && Separate(mem, first, who, foreign, free)
    && Mapped(mem, who, foreign) && Formatted(mem, who)
  }

  // No table and no page hangs below an entry-free page.
  predicate NoEntries(p: Page) {
    Whole(p) && forall i | 0 <= i < ENTRIES :: !Valid(Pte(p, i))
  }

  // s is under place u, or u itself.
  predicate Under(s: Place, u: Place)
    decreases s.depth
  {
    s == u || (s.depth > u.depth && Under(Up(s), u))
  }

  // Entry i of the table at t, page p, changes; no other table does. The pages the old and
  // the new entry lead to have no entries of their own, if they are tables.
  ghost predicate EntryChange(mem: Memory, mem': Memory, who: map<nat, Place>, p: nat, i: nat) {
    && |mem'| == |mem| && 0 < p < |mem| && i < ENTRIES && p in who && who[p].depth <= 2 && Whole(mem[p]) && Whole(mem'[p])
    && (forall j | 0 <= j < ENTRIES && j != i :: Pte(mem'[p], j) == Pte(mem[p], j))
    && (forall b | b in who && b < |mem| && b != p && who[b].depth <= 2 && !(who[p].depth < 2 && b == Target(mem[p], i)) :: mem'[b] == mem[b])
    && (who[p].depth < 2 ==> Childless(mem, Target(mem[p], i)) && Childless(mem', Target(mem'[p], i)))
  }

  ghost predicate Childless(mem: Memory, t: nat) {
    t == 0 || t >= |mem| || NoEntries(mem[t])
  }

  // The place entry i of table p stands for.
  ghost function Below(who: map<nat, Place>, p: nat, i: nat): Place
    requires p in who
  {
    Place(who[p].root, who[p].depth + 1, who[p].index * ENTRIES + i)
  }

  lemma IndexParts(n: nat)
    ensures n / ENTRIES * ENTRIES + n % ENTRIES == n
  {
  }

  lemma Digits(q: nat, i: nat)
    requires i < ENTRIES
    ensures (q * ENTRIES + i) / ENTRIES == q && (q * ENTRIES + i) % ENTRIES == i
  {
  }

  // Such a change is seen at that one place only.
  lemma {:induction false} EntryChangeAt(mem: Memory, mem': Memory, who: map<nat, Place>, foreign: set<nat>, p: nat, i: nat, s: Place)
    requires Mapped(mem, who, foreign) && EntryChange(mem, mem', who, p, i) && s.depth <= 3 && IsRoot(who, s.root)
    ensures At(mem', s) == if s == Below(who, p, i) then Target(mem'[p], i) else At(mem, s)
    decreases s.depth
  {
    hide Pte, Valid, Ppn;
    Digits(who[p].index, i);
    if s.depth > 0 {
      var u, w := Up(s), Below(who, p, i);
      EntryChangeAt(mem, mem', who, foreign, p, i, u);
      assert Owned(mem, who, p);
      assert Up(w) == who[p] && At(mem, w) == Target(mem[p], i);
      assert Recorded(mem, who, foreign, u) && Recorded(mem, who, foreign, w);
      IndexParts(s.index);
      var t := At(mem, u);
      if u == w {
        assert At(mem, s) == 0 && At(mem', s) == 0;
      } else if t == p {
        assert u == who[p];
      } else if t != 0 && t < |mem| {
        assert mem'[t] == mem[t];
      }
    }
  }

  // The entry itself, if it is valid.
  function Entry(p: Page, i: nat): nat
    requires i < ENTRIES
  {
    if Whole(p) && Valid(Pte(p, i)) then Pte(p, i) else 0
  }

  // The same for the mapping: only the entry of a lowest table shows.
  lemma EntryChangeLeaf(mem: Memory, mem': Memory, who: map<nat, Place>, foreign: set<nat>, p: nat, i: nat, r: nat, v: nat)
    requires Mapped(mem, who, foreign) && EntryChange(mem, mem', who, p, i) && IsRoot(who, r)
    ensures Leaf(mem', r, v) == if Place(r, 3, v) == Below(who, p, i) then Entry(mem'[p], i) else Leaf(mem, r, v)
  {
    hide Pte, Valid, Ppn;
    var u, w := Place(r, 2, v / ENTRIES), Below(who, p, i);
    EntryChangeAt(mem, mem', who, foreign, p, i, u);
    Digits(who[p].index, i);
    IndexParts(v);
    assert Owned(mem, who, p);
    assert Up(w) == who[p] && At(mem, w) == Target(mem[p], i);
    assert Recorded(mem, who, foreign, u) && Recorded(mem, who, foreign, w);
    var t := At(mem, u);
    if u == w {
      assert Leaf(mem, r, v) == 0 && Leaf(mem', r, v) == 0;
    } else if t == p {
      assert u == who[p];
    } else if t != 0 && t < |mem| {
      assert mem'[t] == mem[t];
    }
  }

  // Place w now has page e; every other place has what it had.
  ghost predicate OnlyPlace(mem: Memory, mem': Memory, who: map<nat, Place>, w: Place, e: nat) {
    && w.depth <= 3 && IsRoot(who, w.root) && w.depth > 0
    && forall s: Place | s.depth <= 3 && IsRoot(who, s.root) :: At(mem', s) == if s == w then e else At(mem, s)
  }

  lemma EntryChangeIsOnly(mem: Memory, mem': Memory, who: map<nat, Place>, foreign: set<nat>, p: nat, i: nat)
    requires Mapped(mem, who, foreign) && EntryChange(mem, mem', who, p, i)
    ensures OnlyPlace(mem, mem', who, Below(who, p, i), Target(mem'[p], i))
    ensures At(mem, Below(who, p, i)) == Target(mem[p], i)
  {
    hide At, Target;
    Digits(who[p].index, i);
    assert Owned(mem, who, p);
    forall s: Place | s.depth <= 3 && IsRoot(who, s.root)
      ensures At(mem', s) == if s == Below(who, p, i) then Target(mem'[p], i) else At(mem, s)
    {
      EntryChangeAt(mem, mem', who, foreign, p, i, s);
    }
    OldTarget(mem, who, p, i);
  }

  lemma OldTarget(mem: Memory, who: map<nat, Place>, p: nat, i: nat)
    requires Owned(mem, who, p) && 0 < p < |mem| && i < ENTRIES && who[p].depth <= 2
    ensures At(mem, Below(who, p, i)) == Target(mem[p], i)
  {
    hide Target, IsRoot;
    Digits(who[p].index, i);
    assert Up(Below(who, p, i)) == who[p];
  }

  // A place that was empty has page e, which nobody had.
  lemma GainKeepsMaps(mem: Memory, mem': Memory, who: map<nat, Place>, foreign: set<nat>, w: Place, e: nat)
    requires Mapped(mem, who, foreign) && OnlyPlace(mem, mem', who, w, e) && At(mem, w) == 0
    requires e !in who && e !in foreign && e != 0 && 0 !in who
    ensures Mapped(mem', who[e := w], foreign)
  {
    hide At;
    var who' := who[e := w];
    forall s: Place | s.depth <= 3 && IsRoot(who', s.root)
      ensures Recorded(mem', who', foreign, s)
    {
      assert Recorded(mem, who, foreign, s);
    }
    forall b | b in who'
      ensures Owned(mem', who', b)
    {
      if b != e { assert Owned(mem, who, b); }
    }
  }

  // A place for a page that was empty has a foreign page.
  lemma BorrowKeepsMaps(mem: Memory, mem': Memory, who: map<nat, Place>, foreign: set<nat>, w: Place, e: nat)
    requires Mapped(mem, who, foreign) && OnlyPlace(mem, mem', who, w, e) && At(mem, w) == 0
    requires e in foreign && w.depth == 3 && 0 !in who
    ensures Mapped(mem', who, foreign)
  {
    hide At;
    forall s: Place | s.depth <= 3 && IsRoot(who, s.root)
      ensures Recorded(mem', who, foreign, s)
    {
      assert Recorded(mem, who, foreign, s);
    }
    forall b | b in who
      ensures Owned(mem', who, b)
    {
      assert Owned(mem, who, b);
    }
  }

  // A place that had page o is empty. If o was owned, it has no owner now.
  lemma DropKeepsMaps(mem: Memory, mem': Memory, who: map<nat, Place>, foreign: set<nat>, w: Place, o: nat)
    requires Mapped(mem, who, foreign) && OnlyPlace(mem, mem', who, w, 0) && (forall b | b in foreign :: b !in who)
    requires At(mem, w) == o && o != 0
    ensures o !in foreign ==> o in who && who[o] == w
    ensures Mapped(mem', who - {o}, foreign)
  {
    hide At;
    var who' := who - {o};
    assert Recorded(mem, who, foreign, w);
    forall s: Place | s.depth <= 3 && IsRoot(who', s.root)
      ensures Recorded(mem', who', foreign, s)
    {
      assert Recorded(mem, who, foreign, s);
    }
    forall b | b in who'
      ensures Owned(mem', who', b)
    {
      assert Owned(mem, who, b);
    }
  }

  // The tables of an address space are where they were.
  ghost predicate SameTables(m: Memory, m': Memory, root: nat) {
    forall u: Place | u.root == root && u.depth <= 2 :: At(m', u) == At(m, u)
  }

  // Changing pages that are no tables changes no place and no mapping.
  ghost predicate TablesSame(mem: Memory, mem': Memory, who: map<nat, Place>) {
    |mem'| == |mem| && forall b | b in who && b < |mem| && who[b].depth <= 2 :: mem'[b] == mem[b]
  }

  lemma {:induction false} TablesSameAt(mem: Memory, mem': Memory, who: map<nat, Place>, foreign: set<nat>, s: Place)
    requires Mapped(mem, who, foreign) && TablesSame(mem, mem', who) && s.depth <= 3 && IsRoot(who, s.root)
    ensures At(mem', s) == At(mem, s)
    decreases s.depth
  {
    hide Pte, Valid, Ppn;
    if s.depth > 0 {
      TablesSameAt(mem, mem', who, foreign, Up(s));
      assert Recorded(mem, who, foreign, Up(s));
    }
  }

  ghost predicate SameLeaves(mem: Memory, mem': Memory, who: map<nat, Place>) {
    forall r, v: nat | IsRoot(who, r) :: Leaf(mem', r, v) == Leaf(mem, r, v)
  }

  lemma TablesSameInv(mem: Memory, mem': Memory, first: nat, who: map<nat, Place>, foreign: set<nat>, free: seq<nat>)
    requires Inv(mem, first, who, foreign, free) && TablesSame(mem, mem', who) && GoodMemory(mem', first)
    ensures Inv(mem', first, who, foreign, free)
    ensures SameLeaves(mem, mem', who)
  {
    hide At, Pte, Inner, Outer;
    forall s: Place | s.depth <= 3 && IsRoot(who, s.root)
      ensures Recorded(mem', who, foreign, s)
    {
      assert Recorded(mem, who, foreign, s);
      TablesSameAt(mem, mem', who, foreign, s);
    }
    forall b | b in who
      ensures Owned(mem', who, b)
    {
      assert Owned(mem, who, b);
      TablesSameAt(mem, mem', who, foreign, who[b]);
    }
    forall r, v: nat | IsRoot(who, r)
      ensures Leaf(mem', r, v) == Leaf(mem, r, v)
    {
      TablesSameAt(mem, mem', who, foreign, Place(r, 2, v / ENTRIES));
      assert Recorded(mem, who, foreign, Place(r, 2, v / ENTRIES));
    }
  }

  // Entry i of table page p is stored.
  function PutPte(mem: Memory, p: nat, i: nat, v: nat): Memory
    requires p < |mem| && Whole(mem[p]) && i < ENTRIES && v < WORD * WORD
  {
    mem[p := SetPte(mem[p], i, v)]
  }

  // "perm | PTE_V"
  function WithValid(perm: nat): nat { if Valid(perm) then perm else perm + 1 }

  lemma WithValidIs(perm: nat)
    requires perm < 0x400
    ensures WithValid(perm) < 0x400 && Valid(WithValid(perm))
  {
  }

  // An entry of one table is stored, nothing else in it changes.
  lemma PutPteIs(mem: Memory, p: nat, i: nat, v: nat)
    requires p < |mem| && Whole(mem[p]) && i < ENTRIES && v < WORD * WORD
    ensures var r := PutPte(mem, p, i, v);
            && Whole(r[p]) && Pte(r[p], i) == v
            && (forall j | 0 <= j < ENTRIES && j != i :: Pte(r[p], j) == Pte(mem[p], j))
  {
    hide Pte, SetPte;
    SetPteAt(mem[p], i, v, i);
    forall j | 0 <= j < ENTRIES
      ensures Pte(SetPte(mem[p], i, v), j) == if j == i then v else Pte(mem[p], j)
    {
      SetPteAt(mem[p], i, v, j);
    }
  }

  lemma PutPteIsGood(mem: Memory, first: nat, p: nat, i: nat, v: nat)
    requires GoodMemory(mem, first) && p < |mem| && i < ENTRIES && v < WORD * WORD
    ensures GoodMemory(PutPte(mem, p, i, v), first) && |PutPte(mem, p, i, v)| == |mem|
  {
    hide SetPte;
    SetPteAt(mem[p], i, v, 0);
  }

  lemma PutPteKeepsFormat(mem: Memory, who: map<nat, Place>, p: nat, i: nat, v: nat)
    requires p < |mem| && Whole(mem[p]) && i < ENTRIES && v < WORD * WORD && Formatted(mem, who) && p in who
    requires Valid(v) ==> Ppn(v) != 0 && (who[p].depth < 2 ==> Flags(v) == 1)
    ensures Formatted(PutPte(mem, p, i, v), who)
  {
    PutPteIs(mem, p, i, v);
    hide Pte, SetPte, Valid, Flags, Ppn;
  }

  lemma ZeroPage()
    ensures NoEntries(Filled(0)) && Inner(Filled(0)) && Outer(Filled(0))
  {
    forall i | 0 <= i < ENTRIES
      ensures Pte(Filled(0), i) == 0
    {
      ZeroPte(i);
    }
    hide Pte;
  }

  // walk's new table: page e, zeroed, under entry i of table p.
  ghost function NewTable(mem: Memory, p: nat, i: nat, e: nat): Memory
    requires p < |mem| && Whole(mem[p]) && i < ENTRIES && e < |mem| <= MAXPPN && e != p
  {
    MakePteIs(e, 1);
    PutPte(mem[e := Filled(0)], p, i, MakePte(e, 1))
  }

  // What a change of one entry does to the mappings.
  lemma EntryChangeLeaves(mem: Memory, mem': Memory, who: map<nat, Place>, foreign: set<nat>, p: nat, i: nat)
    requires Mapped(mem, who, foreign) && EntryChange(mem, mem', who, p, i)
    ensures forall r, v: nat | IsRoot(who, r) ::
      Leaf(mem', r, v) == if Place(r, 3, v) == Below(who, p, i) then Entry(mem'[p], i) else Leaf(mem, r, v)
  {
    hide Mapped, Leaf, Entry, Pte;
    forall r, v: nat | IsRoot(who, r)
      ensures Leaf(mem', r, v) == if Place(r, 3, v) == Below(who, p, i) then Entry(mem'[p], i) else Leaf(mem, r, v)
    {
      EntryChangeLeaf(mem, mem', who, foreign, p, i, r, v);
    }
  }

  lemma NewTableChange(mem: Memory, who: map<nat, Place>, p: nat, i: nat, e: nat)
    requires 0 < p < |mem| <= MAXPPN && e < |mem| && Whole(mem[p]) && i < ENTRIES && p in who && who[p].depth < 2
    requires e !in who && !Valid(Pte(mem[p], i))
    ensures var mem' := NewTable(mem, p, i, e);
            && EntryChange(mem, mem', who, p, i) && Target(mem[p], i) == 0 && Target(mem'[p], i) == e
  {
    MakePteIs(e, 1);
    ZeroPage();
    PutPteIs(mem[e := Filled(0)], p, i, MakePte(e, 1));
    hide Pte, SetPte, MakePte, Flags;
  }

  lemma NewTableKeepsInv(mem: Memory, first: nat, who: map<nat, Place>, foreign: set<nat>, free: seq<nat>, p: nat, i: nat, e: nat)
    requires Inv(mem, first, who, foreign, free) && p in who && who[p].depth < 2 && i < ENTRIES && !Valid(Pte(mem[p], i))
    requires Available(mem, first, who, foreign, e) && e !in free
    ensures var mem' := NewTable(mem, p, i, e);
            && Inv(mem', first, who[e := Below(who, p, i)], foreign, free)
            && SameLeaves(mem, mem', who)
            && OnlyPlace(mem, mem', who, Below(who, p, i), e) && At(mem', Below(who, p, i)) == e
  {
    hide Mapped, Formatted, EntryChange, NewTable, Target, Leaf, At, Pte, Valid;
    NewTableFormat(mem, first, who, p, i, e);
    NewTableChange(mem, who, p, i, e);
    var mem', w := NewTable(mem, p, i, e), Below(who, p, i);
    EntryChangeIsOnly(mem, mem', who, foreign, p, i);
    EntryChangeLeaves(mem, mem', who, foreign, p, i);
    GainKeepsMaps(mem, mem', who, foreign, w, e);
  }

  lemma NewTableFormat(mem: Memory, first: nat, who: map<nat, Place>, p: nat, i: nat, e: nat)
    requires GoodMemory(mem, first) && Formatted(mem, who) && p in who && who[p].depth < 2 && i < ENTRIES && p < |mem| && 0 < e < |mem| && e !in who
    ensures var mem' := NewTable(mem, p, i, e);
            |mem'| == |mem| && GoodMemory(mem', first) && Formatted(mem', who[e := Below(who, p, i)])
  {
    MakePteIs(e, 1);
    ZeroPage();
    PutPteKeepsFormat(mem[e := Filled(0)], who, p, i, MakePte(e, 1));
    PutPteIs(mem[e := Filled(0)], p, i, MakePte(e, 1));
  }

  // Every mapping but that of page number v of address space r is as it was.
  ghost predicate OneLeaf(mem: Memory, mem': Memory, who: map<nat, Place>, r: nat, v: nat, pte: nat) {
    forall s, u: nat | IsRoot(who, s) :: Leaf(mem', s, u) == if s == r && u == v then pte else Leaf(mem, s, u)
  }

  // The page number an entry of a lowest table is for.
  ghost function Vpn(who: map<nat, Place>, p: nat, i: nat): nat
    requires p in who
  {
    who[p].index * ENTRIES + i
  }

  lemma LeafChange(mem: Memory, who: map<nat, Place>, p: nat, i: nat, pte: nat)
    requires 0 < p < |mem| && Whole(mem[p]) && i < ENTRIES && p in who && who[p].depth == 2 && pte < WORD * WORD
    ensures var mem' := PutPte(mem, p, i, pte);
            && EntryChange(mem, mem', who, p, i)
            && Target(mem'[p], i) == (if Valid(pte) then Ppn(pte) else 0)
            && Entry(mem'[p], i) == (if Valid(pte) then pte else 0)
  {
    PutPteIs(mem, p, i, pte);
    hide Pte, SetPte, Valid, Ppn;
  }

  lemma LeafEntryChange(mem: Memory, first: nat, who: map<nat, Place>, foreign: set<nat>, free: seq<nat>, p: nat, i: nat, pte: nat)
    requires Inv(mem, first, who, foreign, free) && p in who && who[p].depth == 2 && i < ENTRIES && pte < WORD * WORD
    requires Valid(pte) ==> Ppn(pte) != 0
    ensures var mem' := PutPte(mem, p, i, pte);
            && OnlyPlace(mem, mem', who, Below(who, p, i), if Valid(pte) then Ppn(pte) else 0)
            && At(mem, Below(who, p, i)) == Target(mem[p], i)
            && OneLeaf(mem, mem', who, who[p].root, Vpn(who, p, i), if Valid(pte) then pte else 0)
            && GoodMemory(mem', first) && Formatted(mem', who)
  {
    hide Mapped, Formatted, EntryChange, Target, Leaf, At, Pte, Valid, Ppn, PutPte, Flags, Entry;
    var mem' := PutPte(mem, p, i, pte);
    PutPteIsGood(mem, first, p, i, pte);
    PutPteKeepsFormat(mem, who, p, i, pte);
    LeafChange(mem, who, p, i, pte);
    EntryChangeIsOnly(mem, mem', who, foreign, p, i);
    EntryChangeLeaves(mem, mem', who, foreign, p, i);
  }

  // Mapping page e, which the address space takes over or borrows.
  lemma MapKeepsInv(mem: Memory, first: nat, who: map<nat, Place>, foreign: set<nat>, free: seq<nat>, p: nat, i: nat, e: nat, perm: nat)
    requires Inv(mem, first, who, foreign, free) && p in who && who[p].depth == 2 && i < ENTRIES && !Valid(Pte(mem[p], i))
    requires perm < 0x400 && e < |mem|
    requires (Available(mem, first, who, foreign, e) && e !in free) || e in foreign
    ensures MakePte(e, WithValid(perm)) < WORD * WORD
    ensures var mem' := PutPte(mem, p, i, MakePte(e, WithValid(perm)));
            && Inv(mem', first, if e in foreign then who else who[e := Below(who, p, i)], foreign, free)
            && OneLeaf(mem, mem', who, who[p].root, Vpn(who, p, i), MakePte(e, WithValid(perm)))
            && OnlyPlace(mem, mem', who, Below(who, p, i), e)
  {
    hide Mapped, Formatted, Leaf, At, Pte, SetPte, Valid, MakePte, WithValid, Ppn, PutPte, OnlyPlace, OneLeaf, Target, Flags;
    var pte := MakePte(e, WithValid(perm));
    WithValidIs(perm);
    MakePteIs(e, WithValid(perm));
    NoTarget(mem[p], i);
    PutPteIsGood(mem, first, p, i, pte);
    LeafEntryChange(mem, first, who, foreign, free, p, i, pte);
    var mem', w := PutPte(mem, p, i, pte), Below(who, p, i);
    if e in foreign {
      BorrowKeepsMaps(mem, mem', who, foreign, w, e);
    } else {
      GainKeepsMaps(mem, mem', who, foreign, w, e);
      LowerFormat(mem', who, e, w);
    }
  }

  lemma NoTarget(p: Page, i: nat)
    requires Whole(p) && i < ENTRIES && !Valid(Pte(p, i))
    ensures Target(p, i) == 0 && Entry(p, i) == 0
  {
  }

  lemma LowerFormat(mem: Memory, who: map<nat, Place>, e: nat, w: Place)
    requires Formatted(mem, who) && w.depth == 3
    ensures Formatted(mem, who[e := w])
  {
  }

  lemma FewerFormat(mem: Memory, who: map<nat, Place>, o: nat)
    requires Formatted(mem, who)
    ensures Formatted(mem, who - {o})
  {
  }

  // Clearing the entry for page o. If the address space owned o, nobody does now.
  lemma UnmapKeepsInv(mem: Memory, first: nat, who: map<nat, Place>, foreign: set<nat>, free: seq<nat>, p: nat, i: nat)
    requires Inv(mem, first, who, foreign, free) && p in who && who[p].depth == 2 && i < ENTRIES && Target(mem[p], i) != 0
    ensures var mem', o := PutPte(mem, p, i, 0), Target(mem[p], i);
            && (o in foreign || (o in who && who[o] == Below(who, p, i)))
            && Inv(mem', first, who - {o}, foreign, free)
            && OneLeaf(mem, mem', who, who[p].root, Vpn(who, p, i), 0)
            && (o !in foreign ==> o !in free)
  {
    hide Mapped, Formatted, Leaf, At, Pte, SetPte, PutPte, OnlyPlace, OneLeaf, Target;
    PutPteIsGood(mem, first, p, i, 0);
    LeafEntryChange(mem, first, who, foreign, free, p, i, 0);
    var mem', w, o := PutPte(mem, p, i, 0), Below(who, p, i), Target(mem[p], i);
    DropKeepsMaps(mem, mem', who, foreign, w, o);
    FewerFormat(mem', who, o);
  }

  // Clearing the entry for table c, which has no entries left; c itself may change too.
  ghost function DropTable(mem: Memory, p: nat, i: nat, c: nat, x: Page): Memory
    requires p < |mem| && Whole(mem[p]) && i < ENTRIES && c < |mem| && c != p
  {
    PutPte(mem[c := x], p, i, 0)
  }

  lemma DropTableChange(mem: Memory, first: nat, who: map<nat, Place>, p: nat, i: nat, c: nat, x: Page)
    requires GoodMemory(mem, first) && Formatted(mem, who) && Whole(x) && p in who
    requires 0 < p < |mem| && i < ENTRIES && who[p].depth < 2 && c == Target(mem[p], i) && c < |mem| && c != p && NoEntries(mem[c])
    ensures var mem' := DropTable(mem, p, i, c, x);
            && EntryChange(mem, mem', who, p, i) && Target(mem'[p], i) == 0 && Entry(mem'[p], i) == 0
            && |mem'| == |mem| && GoodMemory(mem', first) && Formatted(mem', who - {c})
  {
    hide Pte, SetPte, Flags;
    PutPteIs(mem[c := x], p, i, 0);
    PutPteKeepsFormat(mem[c := x], who - {c}, p, i, 0);
  }

  lemma DropTableKeepsInv(mem: Memory, first: nat, who: map<nat, Place>, foreign: set<nat>, free: seq<nat>, p: nat, i: nat, c: nat, x: Page)
    requires Inv(mem, first, who, foreign, free) && Whole(x) && p in who && who[p].depth < 2 && i < ENTRIES
    requires c == Target(mem[p], i) && c in who && who[c] == Below(who, p, i) && NoEntries(mem[c])
    ensures c != p && c !in free
    ensures var mem' := DropTable(mem, p, i, c, x);
            && Inv(mem', first, who - {c}, foreign, free)
            && SameLeaves(mem, mem', who)
            && Pte(mem'[p], i) == 0
  {
    hide Mapped, Formatted, EntryChange, DropTable, Target, Leaf, At, Pte, NoEntries, Entry;
    DropTableChange(mem, first, who, p, i, c, x);
    DropTableEntry(mem, p, i, c, x);
    var mem', w := DropTable(mem, p, i, c, x), Below(who, p, i);
    EntryChangeIsOnly(mem, mem', who, foreign, p, i);
    EntryChangeLeaves(mem, mem', who, foreign, p, i);
    DropKeepsMaps(mem, mem', who, foreign, w, c);
    TableLeaves(mem, mem', who, p, i);
  }

  lemma DropTableEntry(mem: Memory, p: nat, i: nat, c: nat, x: Page)
    requires p < |mem| && Whole(mem[p]) && i < ENTRIES && c < |mem| && c != p && Whole(x)
    ensures var mem' := DropTable(mem, p, i, c, x);
            && Whole(mem'[p]) && Pte(mem'[p], i) == 0
            && (forall j | 0 <= j < ENTRIES && j != i :: Pte(mem'[p], j) == Pte(mem[p], j))
  {
    PutPteIs(mem[c := x], p, i, 0);
  }

  lemma TableLeaves(mem: Memory, mem': Memory, who: map<nat, Place>, p: nat, i: nat)
    requires p in who && who[p].depth < 2
    requires forall r, v: nat | IsRoot(who, r) ::
      Leaf(mem', r, v) == if Place(r, 3, v) == Below(who, p, i) then 0 else Leaf(mem, r, v)
    ensures SameLeaves(mem, mem', who)
  {
    hide Leaf;
  }

  // A table found by following entries is a known table page.
  lemma TableAt(mem: Memory, first: nat, who: map<nat, Place>, foreign: set<nat>, free: seq<nat>, s: Place)
    requires Inv(mem, first, who, foreign, free) && s.depth <= 2 && IsRoot(who, s.root) && At(mem, s) != 0
    ensures var t := At(mem, s); first <= t < |mem| && t in who && who[t] == s && Whole(mem[t])
  {
    hide At, Formatted;
    assert Recorded(mem, who, foreign, s);
  }

  // Following one more entry.
  lemma StepDown(mem: Memory, first: nat, who: map<nat, Place>, foreign: set<nat>, free: seq<nat>, t: nat, i: nat)
    requires Inv(mem, first, who, foreign, free) && t in who && who[t].depth <= 2 && i < ENTRIES
    ensures first <= t < |mem| && Whole(mem[t])
    ensures At(mem, Below(who, t, i)) == Target(mem[t], i)
    ensures IsRoot(who, who[t].root)
  {
    hide At, Formatted, Target;
    assert Owned(mem, who, t);
    OldTarget(mem, who, t, i);
  }

  // Page numbers below MAXVA.
  const MAXVPN: nat := 0x400_0000

  function Pow512(n: nat): nat
    requires n <= 3
  {
    if n == 0 then 1 else if n == 1 then 0x200 else if n == 2 then 0x4_0000 else 0x800_0000
  }

  // PX(level, va), for page number vpn
  function Px(level: nat, vpn: nat): (i: nat)
    requires level <= 2
    ensures i < ENTRIES
  {
    vpn / Pow512(level) % ENTRIES
  }

  lemma PxSteps(level: nat, vpn: nat)
    requires level <= 2
    ensures vpn / Pow512(level + 1) * ENTRIES + Px(level, vpn) == vpn / Pow512(level)
  {
  }

  // The place of the table that walk has reached when it is about to use PX(level, va).
  function WalkPlace(root: nat, level: nat, vpn: nat): Place
    requires level <= 2
  {
    Place(root, 2 - level, vpn / Pow512(level + 1))
  }

  lemma WalkPlaces(root: nat, vpn: nat)
    requires vpn < MAXVPN
    ensures WalkPlace(root, 2, vpn) == Place(root, 0, 0)
    ensures WalkPlace(root, 0, vpn) == Place(root, 2, vpn / ENTRIES) && Px(0, vpn) == vpn % ENTRIES
    ensures forall level | 1 <= level <= 2 ::
      WalkPlace(root, level - 1, vpn) == Place(root, 3 - level, WalkPlace(root, level, vpn).index * ENTRIES + Px(level, vpn))
  {
    PxSteps(1, vpn);
    PxSteps(2, vpn);
  }

  // Address spaces and their pages stay; tables and pages may be added.
  ghost predicate Extends(who0: map<nat, Place>, who: map<nat, Place>) {
    && (forall b | b in who0 :: b in who && who[b] == who0[b])
    && (forall b | b in who && b !in who0 :: who[b].depth > 0)
  }

  // Mapped pages, and pages outside the pool, keep their bytes.
  ghost predicate DataSame(mem0: Memory, mem: Memory, who: map<nat, Place>, pool: set<nat>) {
    |mem| == |mem0| && forall b | 0 <= b < |mem| && ((b in who && who[b].depth == 3) || b !in pool) :: mem[b] == mem0[b]
  }

  // All the pages the allocator deals in.
  ghost function Pool(who: map<nat, Place>, free: seq<nat>): set<nat> {
    who.Keys + set f | f in free
  }

  lemma PoolMoves(who: map<nat, Place>, free: seq<nat>, e: nat, s: Place)
    requires free != [] && free[0] == e
    ensures Pool(who[e := s], free[1..]) == Pool(who, free)
  {
    assert free == [e] + free[1..];
  }

  lemma Taken(mem: Memory, first: nat, who: map<nat, Place>, foreign: set<nat>, free: seq<nat>)
    requires Inv(mem, first, who, foreign, free) && free != []
    ensures var e := free[0];
            && Available(mem, first, who, foreign, e) && e !in free[1..] && e != 0
            && Inv(mem, first, who, foreign, free[1..])
            && TablesSame(mem, mem[e := Filled(5)], who) && GoodMemory(mem[e := Filled(5)], first)
  {
    hide Mapped, Formatted;
  }

  // Giving back a page nobody has.
  lemma GivenBack(mem: Memory, first: nat, who: map<nat, Place>, foreign: set<nat>, free: seq<nat>, e: nat)
    requires Inv(mem, first, who, foreign, free) && Available(mem, first, who, foreign, e) && e !in free
    ensures Inv(mem[e := Filled(1)], first, who, foreign, [e] + free)
    ensures SameLeaves(mem, mem[e := Filled(1)], who)
  {
    hide Mapped, Formatted;
    TablesSameInv(mem, mem[e := Filled(1)], first, who, foreign, free);
  }

  // A valid entry leads somewhere.
  lemma ValidLeads(mem: Memory, first: nat, who: map<nat, Place>, foreign: set<nat>, free: seq<nat>, t: nat, i: nat)
    requires Inv(mem, first, who, foreign, free) && t in who && who[t].depth <= 2 && i < ENTRIES
    ensures t < |mem| && Whole(mem[t]) && (Valid(Pte(mem[t], i)) <==> Target(mem[t], i) != 0)
    ensures who[t].depth < 2 && Valid(Pte(mem[t], i)) ==> Flags(Pte(mem[t], i)) == 1
  {
    hide Mapped, Pte, Valid, Ppn, Flags;
  }

  // Only tables were added: every mapping, and the bytes of every mapped page, are as
  // they were, and no page was lost.
  ghost predicate Grown(m0: Memory, w0: map<nat, Place>, f0: seq<nat>, m: Memory, w: map<nat, Place>, f: seq<nat>) {
    Extends(w0, w) && SameLeaves(m0, m, w0) && DataSame(m0, m, w0, Pool(w0, f0)) && Pool(w, f) == Pool(w0, f0)
  }

  lemma GrownTwice(m0: Memory, w0: map<nat, Place>, f0: seq<nat>, m1: Memory, w1: map<nat, Place>, f1: seq<nat>,
                   m2: Memory, w2: map<nat, Place>, f2: seq<nat>)
    requires Grown(m0, w0, f0, m1, w1, f1) && Grown(m1, w1, f1, m2, w2, f2)
    ensures Grown(m0, w0, f0, m2, w2, f2)
  {
    hide Leaf, Pool;
  }

  // The entry walk finds for page number vpn.
  lemma LeafAt(mem: Memory, first: nat, who: map<nat, Place>, foreign: set<nat>, free: seq<nat>, root: nat, vpn: nat)
    requires Inv(mem, first, who, foreign, free) && IsRoot(who, root)
    ensures var t := At(mem, Place(root, 2, vpn / ENTRIES));
            if t == 0 then Leaf(mem, root, vpn) == 0
            else t in who && t < |mem| && Whole(mem[t]) && Leaf(mem, root, vpn) == Entry(mem[t], vpn % ENTRIES)
                 && (Leaf(mem, root, vpn) != 0 <==> Valid(Pte(mem[t], vpn % ENTRIES)))
    ensures Leaf(mem, root, vpn) != 0 ==> Valid(Leaf(mem, root, vpn))
    ensures At(mem, Place(root, 3, vpn)) == Ppn(Leaf(mem, root, vpn))
    ensures Leaf(mem, root, vpn) != 0 ==> 0 < Ppn(Leaf(mem, root, vpn)) < |mem|
  {
    hide Mapped, Pte, Valid, Formatted;
    var s := Place(root, 2, vpn / ENTRIES);
    if At(mem, s) != 0 {
      TableAt(mem, first, who, foreign, free, s);
      ValidLeads(mem, first, who, foreign, free, At(mem, s), vpn % ENTRIES);
      assert Ppn(0) == 0;
    }
    LeafPage(mem, first, who, foreign, free, root, vpn);
  }

  lemma LeafPage(mem: Memory, first: nat, who: map<nat, Place>, foreign: set<nat>, free: seq<nat>, root: nat, vpn: nat)
    requires Inv(mem, first, who, foreign, free) && IsRoot(who, root)
    ensures var a := At(mem, Place(root, 3, vpn));
            a != 0 ==> 0 < a < |mem| && ((a in who && who[a] == Place(root, 3, vpn)) || a in foreign)
  {
    hide At, Formatted;
    assert Recorded(mem, who, foreign, Place(root, 3, vpn));
  }

  lemma NoGrowth(m: Memory, w: map<nat, Place>, f: seq<nat>)
    ensures Grown(m, w, f, m, w, f)
  {
  }

  // Below an empty place there is nothing.
  lemma NoneBelow(mem: Memory, root: nat, level: nat, vpn: nat)
    requires 1 <= level <= 2 && vpn < MAXVPN && At(mem, WalkPlace(root, level - 1, vpn)) == 0
    ensures At(mem, Place(root, 2, vpn / ENTRIES)) == 0
  {
    hide Pow512, Px, Target;
    WalkPlaces(root, vpn);
    if level == 2 { Digits(WalkPlace(root, 1, vpn).index, Px(1, vpn)); }
  }

  lemma OwnPlace(mem: Memory, first: nat, who: map<nat, Place>, foreign: set<nat>, free: seq<nat>, t: nat)
    requires Inv(mem, first, who, foreign, free) && t in who
    ensures At(mem, who[t]) == t
  {
    hide At;
    assert Owned(mem, who, t);
  }

  // Allocated, but not (or no longer) in any address space.
  ghost predicate LoosePage(mem: Memory, first: nat, foreign: set<nat>, pool: set<nat>, p: nat) {
    first <= p < |mem| && p !in foreign && p !in pool
  }

  lemma LooseIsAvailable(mem: Memory, first: nat, who: map<nat, Place>, foreign: set<nat>, free: seq<nat>, p: nat)
    ensures LoosePage(mem, first, foreign, Pool(who, free), p) <==> Available(mem, first, who, foreign, p) && p !in free
  {
  }

  // One page more is mapped, at page number vpn of address space root.
  ghost predicate MappedOne(m0: Memory, w0: map<nat, Place>, f0: seq<nat>, m: Memory, w: map<nat, Place>, f: seq<nat>,
                            foreign: set<nat>, root: nat, vpn: nat, ppn: nat, perm: nat) {
    && Extends(w0, w) && OneLeaf(m0, m, w0, root, vpn, MakePte(ppn, WithValid(perm)))
    && DataSame(m0, m, w0, Pool(w0, f0))
    && Pool(w, f) == Pool(w0, f0) + (if ppn in foreign then {} else {ppn})
    && (ppn !in foreign ==> ppn in w && w[ppn] == Place(root, 3, vpn))
  }

  lemma MapAfterWalk(m0: Memory, w0: map<nat, Place>, f0: seq<nat>, m1: Memory, w1: map<nat, Place>, f: seq<nat>,
                     first: nat, foreign: set<nat>, t: nat, root: nat, vpn: nat, ppn: nat, perm: nat)
    requires Inv(m1, first, w1, foreign, f) && Grown(m0, w0, f0, m1, w1, f) && IsRoot(w0, root)
    requires t in w1 && w1[t] == Place(root, 2, vpn / ENTRIES) && t < |m1| && Whole(m1[t]) && !Valid(Pte(m1[t], vpn % ENTRIES))
    requires perm < 0x400 && ppn < |m1|
    requires LoosePage(m1, first, foreign, Pool(w1, f), ppn) || ppn in foreign
    ensures MakePte(ppn, WithValid(perm)) < WORD * WORD
    ensures var m := PutPte(m1, t, vpn % ENTRIES, MakePte(ppn, WithValid(perm)));
            var w := if ppn in foreign then w1 else w1[ppn := Place(root, 3, vpn)];
            Inv(m, first, w, foreign, f) && MappedOne(m0, w0, f0, m, w, f, foreign, root, vpn, ppn, perm) && SameTables(m1, m, root)
  {
    hide Mapped, Formatted, Leaf, At, Pte, SetPte, Valid, MakePte, WithValid, OnlyPlace, SameTables;
    IndexParts(vpn);
    LooseIsAvailable(m1, first, w1, foreign, f, ppn);
    assert Below(w1, t, vpn % ENTRIES) == Place(root, 3, vpn);
    MapKeepsInv(m1, first, w1, foreign, f, t, vpn % ENTRIES, ppn, perm);
    assert (w1[ppn := Place(root, 3, vpn)]).Keys == w1.Keys + {ppn};
    OnlyPageChanges(m1, PutPte(m1, t, vpn % ENTRIES, MakePte(ppn, WithValid(perm))), w1, Place(root, 3, vpn), ppn);
    OneLeafAfter(m0, m1, PutPte(m1, t, vpn % ENTRIES, MakePte(ppn, WithValid(perm))), w0, w1, root, vpn, MakePte(ppn, WithValid(perm)));
  }

  lemma OnlyPageChanges(m: Memory, m': Memory, who: map<nat, Place>, s: Place, e: nat)
    requires OnlyPlace(m, m', who, s, e) && s.depth == 3
    ensures SameTables(m, m', s.root)
  {
    hide At;
  }

  lemma OneLeafAfter(m0: Memory, m1: Memory, m2: Memory, w0: map<nat, Place>, w1: map<nat, Place>, r: nat, v: nat, pte: nat)
    requires Extends(w0, w1) && SameLeaves(m0, m1, w0) && OneLeaf(m1, m2, w1, r, v, pte)
    ensures OneLeaf(m0, m2, w0, r, v, pte)
  {
    hide Leaf;
  }

  // PTE_U
  predicate User(pte: nat) { pte / 16 % 2 == 1 }

  lemma NobodyUsesZero()
    ensures !User(0) && Ppn(0) == 0
  {
  }

  lemma GrownMeans(m0: Memory, w0: map<nat, Place>, f0: seq<nat>, m: Memory, w: map<nat, Place>, f: seq<nat>, root: nat, vpn: nat)
    requires Grown(m0, w0, f0, m, w, f) && IsRoot(w0, root)
    ensures IsRoot(w, root) && Leaf(m, root, vpn) == Leaf(m0, root, vpn) && |m| == |m0| && Pool(w, f) == Pool(w0, f0)
  {
    hide Leaf, Pool;
  }

  // Of the leaves, only those of page numbers vpn .. vpn + n - 1 of address space root
  // have changed: they are gone.
  ghost predicate Cleared(m0: Memory, m: Memory, w0: map<nat, Place>, root: nat, vpn: nat, n: nat) {
    forall s, u: nat | IsRoot(w0, s) :: Leaf(m, s, u) == if s == root && vpn <= u < vpn + n then 0 else Leaf(m0, s, u)
  }

  predicate Within(s: Place, root: nat, vpn: nat, n: nat) {
    s.root == root && s.depth == 3 && vpn <= s.index < vpn + n
  }

  // The pages that were mapped there have no owner any more; all others do.
  ghost predicate Forgets(w0: map<nat, Place>, w: map<nat, Place>, root: nat, vpn: nat, n: nat) {
    && (forall b | b in w :: b in w0 && w[b] == w0[b] && !Within(w0[b], root, vpn, n))
    && (forall b | b in w0 && !Within(w0[b], root, vpn, n) :: b in w)
  }

  // n page numbers have been unmapped, their pages freed.
  ghost predicate Unmapped(m0: Memory, w0: map<nat, Place>, f0: seq<nat>, m: Memory, w: map<nat, Place>, f: seq<nat>, root: nat, vpn: nat, n: nat) {
    && Cleared(m0, m, w0, root, vpn, n) && Forgets(w0, w, root, vpn, n)
    && DataSame(m0, m, w, Pool(w0, f0)) && Pool(w, f) == Pool(w0, f0)
    && (forall b | b in f0 :: b in f)
  }

  lemma UnmappedNone(m: Memory, w: map<nat, Place>, f: seq<nat>, root: nat, vpn: nat)
    ensures Unmapped(m, w, f, m, w, f, root, vpn, 0)
  {
    hide Leaf;
  }

  lemma UnmappedMore(m0: Memory, w0: map<nat, Place>, f0: seq<nat>, m1: Memory, w1: map<nat, Place>, f1: seq<nat>,
                     m2: Memory, w2: map<nat, Place>, f2: seq<nat>, root: nat, vpn: nat, n: nat)
    requires Unmapped(m0, w0, f0, m1, w1, f1, root, vpn, n) && Unmapped(m1, w1, f1, m2, w2, f2, root, vpn + n, 1)
    requires IsRoot(w0, root)
    ensures Unmapped(m0, w0, f0, m2, w2, f2, root, vpn, n + 1)
  {
    hide Leaf, Pool;
  }

  // The page mapped at vpn has been put on the free list and its entry cleared.
  lemma UnmapOne(m0: Memory, first: nat, w0: map<nat, Place>, foreign: set<nat>, f0: seq<nat>, t: nat, root: nat, vpn: nat)
    requires Inv(m0, first, w0, foreign, f0) && IsRoot(w0, root) && t in w0 && w0[t] == Place(root, 2, vpn / ENTRIES)
    requires t < |m0| && Whole(m0[t]) && Valid(Pte(m0[t], vpn % ENTRIES)) && Ppn(Pte(m0[t], vpn % ENTRIES)) !in foreign
    ensures var o := Ppn(Pte(m0[t], vpn % ENTRIES));
            && first <= o < |m0| && o != t
            && (var m := PutPte(m0[o := Filled(1)], t, vpn % ENTRIES, 0);
               Inv(m, first, w0 - {o}, foreign, [o] + f0) && Unmapped(m0, w0, f0, m, w0 - {o}, [o] + f0, root, vpn, 1))
  {
    hide Mapped, Formatted, Leaf, At, Pte, Valid, Ppn;
    var i := vpn % ENTRIES;
    IndexParts(vpn);
    assert Below(w0, t, i) == Place(root, 3, vpn);
    ValidLeads(m0, first, w0, foreign, f0, t, i);
    var o := Target(m0[t], i);
    UnmapKeepsInv(m0, first, w0, foreign, f0, t, i);
    var m1 := PutPte(m0, t, i, 0);
    PutPteIsGood(m0, first, t, i, 0);
    GivenBack(m1, first, w0 - {o}, foreign, f0, o);
    assert m1[o := Filled(1)] == PutPte(m0[o := Filled(1)], t, i, 0);
    var m := m1[o := Filled(1)];
    UnmapOwners(m0, first, w0, foreign, f0, o, root, vpn);
    assert (w0 - {o}).Keys == w0.Keys - {o};
    assert Pool(w0 - {o}, [o] + f0) == Pool(w0, f0);
    ClearedOne(m0, m1, m, w0, w0 - {o}, root, vpn, o);
  }

  lemma UnmapOwners(m0: Memory, first: nat, w0: map<nat, Place>, foreign: set<nat>, f0: seq<nat>, o: nat, root: nat, vpn: nat)
    requires Inv(m0, first, w0, foreign, f0) && IsRoot(w0, root) && o in w0 && w0[o] == Place(root, 3, vpn)
    ensures Forgets(w0, w0 - {o}, root, vpn, 1)
  {
    hide At, Formatted;
    forall b | b in w0
      ensures Within(w0[b], root, vpn, 1) <==> b == o
    {
      assert Owned(m0, w0, b) && Owned(m0, w0, o);
    }
  }

  lemma ClearedOne(m0: Memory, m1: Memory, m: Memory, w0: map<nat, Place>, w: map<nat, Place>, root: nat, vpn: nat, o: nat)
    requires OneLeaf(m0, m1, w0, root, vpn, 0) && SameLeaves(m1, m, w) && w == w0 - {o} && o in w0 && w0[o].depth > 0
    ensures Cleared(m0, m, w0, root, vpn, 1)
  {
    hide Leaf;
  }

  lemma UnmappedMeans(m0: Memory, w0: map<nat, Place>, f0: seq<nat>, m: Memory, w: map<nat, Place>, f: seq<nat>, root: nat, vpn: nat, n: nat, u: nat)
    requires Unmapped(m0, w0, f0, m, w, f, root, vpn, n) && IsRoot(w0, root)
    ensures IsRoot(w, root)
    ensures Leaf(m, root, u) == if vpn <= u < vpn + n then 0 else Leaf(m0, root, u)
  {
    hide Leaf, Pool;
  }

  // Unmapping a page number that is not mapped changes nothing.
  lemma NothingToUnmap(m: Memory, first: nat, w: map<nat, Place>, foreign: set<nat>, f: seq<nat>, root: nat, vpn: nat)
    requires Inv(m, first, w, foreign, f) && IsRoot(w, root) && Leaf(m, root, vpn) == 0
    ensures Unmapped(m, w, f, m, w, f, root, vpn, 1)
  {
    hide At, Formatted, Pte, Valid;
    LeafAt(m, first, w, foreign, f, root, vpn);
    assert Ppn(0) == 0;
    forall b | b in w
      ensures !Within(w[b], root, vpn, 1)
    {
      assert Owned(m, w, b);
    }
  }

  // PGROUNDUP(sz) / PGSIZE
  function Pages(sz: nat): nat { (sz + PGSIZE - 1) / PGSIZE }

  lemma PagesMonotone(a: nat, b: nat)
    requires a <= b
    ensures Pages(a) <= Pages(b)
    ensures b <= MAXVPN * PGSIZE ==> Pages(b) <= MAXVPN
  {
  }

  // What a page number is to get: nothing, or a page of its own with these contents.
  datatype Want = Nothing | Wanted(perm: nat, page: Page)

  ghost predicate Got(m: Memory, w: map<nat, Place>, root: nat, u: nat, x: Want) {
    var pte := Leaf(m, root, u);
    if x.Nothing? then pte == 0
    else
      && pte == MakePte(Ppn(pte), WithValid(x.perm))
      && Ppn(pte) in w && w[Ppn(pte)] == Place(root, 3, u) && Ppn(pte) < |m| && m[Ppn(pte)] == x.page
  }

  function Wish(want: seq<Want>, lo: nat, u: nat): Want {
    if lo <= u < lo + |want| then want[u - lo] else Nothing
  }

  // The page numbers from lo on, none of them mapped before, have got what they wanted.
  ghost predicate Enlarged(m0: Memory, w0: map<nat, Place>, f0: seq<nat>, m: Memory, w: map<nat, Place>, f: seq<nat>, root: nat, lo: nat, want: seq<Want>) {
    && Extends(w0, w) && DataSame(m0, m, w0, Pool(w0, f0)) && Pool(w, f) == Pool(w0, f0)
    && (forall u: nat | lo <= u < lo + |want| :: Got(m, w, root, u, Wish(want, lo, u)))
    && (forall s, u: nat | IsRoot(w0, s) && !(s == root && lo <= u < lo + |want|) :: Leaf(m, s, u) == Leaf(m0, s, u))
  }

  lemma EnlargedNone(m: Memory, w: map<nat, Place>, f: seq<nat>, root: nat, lo: nat)
    ensures Enlarged(m, w, f, m, w, f, root, lo, [])
  {
  }

  // Page p has been taken from the pool and filled.
  ghost predicate Drawn(m1: Memory, w1: map<nat, Place>, f1: seq<nat>, m2: Memory, f2: seq<nat>, p: nat, x: Page) {
    p < |m1| && f1 == [p] + f2 && m2 == m1[p := x] && SameLeaves(m1, m2, w1) && p !in Pool(w1, f2)
  }

  lemma DrawnPool(m1: Memory, w1: map<nat, Place>, f1: seq<nat>, m2: Memory, f2: seq<nat>, p: nat, x: Page)
    requires Drawn(m1, w1, f1, m2, f2, p, x)
    ensures Pool(w1, f1) == Pool(w1, f2) + {p} && p !in w1
  {
  }

  // Mapping it enlarges the address space by one page.
  lemma EnlargedMore(m0: Memory, w0: map<nat, Place>, f0: seq<nat>, m1: Memory, w1: map<nat, Place>, f1: seq<nat>,
                     m2: Memory, f2: seq<nat>, m3: Memory, w3: map<nat, Place>, f3: seq<nat>,
                     foreign: set<nat>, root: nat, lo: nat, want: seq<Want>, p: nat, x: Want)
    requires x.Wanted? && Enlarged(m0, w0, f0, m1, w1, f1, root, lo, want) && Drawn(m1, w1, f1, m2, f2, p, x.page)
    requires MappedOne(m2, w1, f2, m3, w3, f3, foreign, root, lo + |want|, p, x.perm)
    requires IsRoot(w0, root) && p !in foreign && x.perm < 0x400
    ensures Enlarged(m0, w0, f0, m3, w3, f3, root, lo, want + [x])
  {
    hide Leaf, WithValid, Pool, MakePte, Ppn;
    DrawnPool(m1, w1, f1, m2, f2, p, x.page);
    WithValidIs(x.perm);
    MakePteIs(p, WithValid(x.perm));
    forall u: nat | lo <= u < lo + |want + [x]|
      ensures Got(m3, w3, root, u, Wish(want + [x], lo, u))
    {
      if u < lo + |want| { assert Got(m1, w1, root, u, Wish(want, lo, u)); }
    }
  }

  // A page number that wants nothing is passed over.
  lemma EnlargedSkip(m0: Memory, w0: map<nat, Place>, f0: seq<nat>, m: Memory, w: map<nat, Place>, f: seq<nat>, root: nat, lo: nat, want: seq<Want>)
    requires Enlarged(m0, w0, f0, m, w, f, root, lo, want) && IsRoot(w0, root) && Leaf(m0, root, lo + |want|) == 0
    ensures Enlarged(m0, w0, f0, m, w, f, root, lo, want + [Nothing])
  {
    hide Leaf, Pool, MakePte, Ppn;
    forall u: nat | lo <= u < lo + |want| + 1
      ensures Got(m, w, root, u, Wish(want + [Nothing], lo, u))
    {
      if u < lo + |want| { assert Got(m, w, root, u, Wish(want, lo, u)); }
    }
  }

  // A page that was drawn and could not be mapped is back in the pool.
  lemma DrawnReturned(m1: Memory, w1: map<nat, Place>, f1: seq<nat>, m2: Memory, f2: seq<nat>, p: nat, x: Page,
                      m3: Memory, first: nat, w3: map<nat, Place>, foreign: set<nat>, f3: seq<nat>)
    requires Drawn(m1, w1, f1, m2, f2, p, x) && Grown(m2, w1, f2, m3, w3, f3)
    requires Inv(m3, first, w3, foreign, f3) && LoosePage(m3, first, foreign, Pool(w3, f3), p)
    ensures Inv(m3[p := Filled(1)], first, w3, foreign, [p] + f3)
    ensures Grown(m1, w1, f1, m3[p := Filled(1)], w3, [p] + f3)
  {
    hide Leaf, Mapped, Formatted;
    DrawnPool(m1, w1, f1, m2, f2, p, x);
    LooseIsAvailable(m3, first, w3, foreign, f3, p);
    GivenBack(m3, first, w3, foreign, f3, p);
    assert Pool(w3, [p] + f3) == Pool(w3, f3) + {p};
  }

  lemma EnlargedThenGrown(m0: Memory, w0: map<nat, Place>, f0: seq<nat>, m1: Memory, w1: map<nat, Place>, f1: seq<nat>,
                          m2: Memory, w2: map<nat, Place>, f2: seq<nat>, root: nat, lo: nat, want: seq<Want>)
    requires Enlarged(m0, w0, f0, m1, w1, f1, root, lo, want) && Grown(m1, w1, f1, m2, w2, f2) && IsRoot(w0, root)
    ensures Enlarged(m0, w0, f0, m2, w2, f2, root, lo, want)
  {
    hide Leaf, Pool, MakePte, Ppn;
    forall u: nat | lo <= u < lo + |want|
      ensures Got(m2, w2, root, u, Wish(want, lo, u))
    {
      assert Got(m1, w1, root, u, Wish(want, lo, u));
    }
  }

  // Undoing it leaves every mapping as it was.
  lemma EnlargedUndone(m0: Memory, first: nat, w0: map<nat, Place>, foreign: set<nat>, f0: seq<nat>, m1: Memory, w1: map<nat, Place>, f1: seq<nat>,
                       m2: Memory, w2: map<nat, Place>, f2: seq<nat>, root: nat, lo: nat, want: seq<Want>)
    requires Inv(m0, first, w0, foreign, f0) && IsRoot(w0, root)
    requires Enlarged(m0, w0, f0, m1, w1, f1, root, lo, want) && Unmapped(m1, w1, f1, m2, w2, f2, root, lo, |want|)
    requires forall u: nat | lo <= u < lo + |want| :: Leaf(m0, root, u) == 0
    ensures Grown(m0, w0, f0, m2, w2, f2)
  {
    hide Leaf, Pool, At, Formatted, Got;
    forall b | b in w0
      ensures !Within(w0[b], root, lo, |want|)
    {
      assert Owned(m0, w0, b);
      if Within(w0[b], root, lo, |want|) { LeafAt(m0, first, w0, foreign, f0, root, w0[b].index); PositiveOwner(m0, first, w0, foreign, f0, b); }
    }
  }

  lemma PositiveOwner(m: Memory, first: nat, w: map<nat, Place>, foreign: set<nat>, f: seq<nat>, b: nat)
    requires Inv(m, first, w, foreign, f) && b in w
    ensures b > 0 && Ppn(0) == 0
  {
    hide Mapped, Formatted;
  }

  lemma EnlargedMeans(m0: Memory, w0: map<nat, Place>, f0: seq<nat>, m: Memory, w: map<nat, Place>, f: seq<nat>, root: nat, lo: nat, want: seq<Want>, r: nat, u: nat)
    requires Enlarged(m0, w0, f0, m, w, f, root, lo, want) && IsRoot(w0, r)
    ensures IsRoot(w, r)
    ensures r != root || !(lo <= u < lo + |want|) ==> Leaf(m, r, u) == Leaf(m0, r, u)
  {
    hide Leaf, Pool, Got;
  }

  // The caller of kalloc fills the page.
  lemma Blank(m1: Memory, first: nat, w: map<nat, Place>, foreign: set<nat>, f2: seq<nat>, m: Memory, p: nat, x: Page)
    requires Inv(m, first, w, foreign, f2) && p < |m1| && m == m1[p := Filled(5)] && Whole(x)
    requires LoosePage(m, first, foreign, Pool(w, f2), p) && SameLeaves(m1, m, w)
    ensures Inv(m[p := x], first, w, foreign, f2) && Drawn(m1, w, [p] + f2, m[p := x], f2, p, x)
    ensures LoosePage(m[p := x], first, foreign, Pool(w, f2), p)
  {
    hide Mapped, Formatted, Leaf;
    TablesSameInv(m, m[p := x], first, w, foreign, f2);
  }

  lemma DrawnLeaf(m1: Memory, w1: map<nat, Place>, f1: seq<nat>, m2: Memory, f2: seq<nat>, p: nat, x: Page, root: nat, u: nat)
    requires Drawn(m1, w1, f1, m2, f2, p, x) && IsRoot(w1, root)
    ensures Leaf(m2, root, u) == Leaf(m1, root, u)
  {
    hide Leaf, Pool;
  }

  lemma GrownLoose(m0: Memory, w0: map<nat, Place>, f0: seq<nat>, m: Memory, w: map<nat, Place>, f: seq<nat>, first: nat, foreign: set<nat>, p: nat)
    requires Grown(m0, w0, f0, m, w, f) && LoosePage(m0, first, foreign, Pool(w0, f0), p)
    ensures LoosePage(m, first, foreign, Pool(w, f), p)
  {
    hide Leaf, Pool;
  }

  lemma WholePages(a: nat)
    ensures Pages(a * PGSIZE) == a
  {
  }

  // The pages it got are its own.
  lemma EnlargedOwns(m0: Memory, w0: map<nat, Place>, f0: seq<nat>, m: Memory, first: nat, w: map<nat, Place>, foreign: set<nat>, f: seq<nat>,
                     root: nat, lo: nat, want: seq<Want>)
    requires Enlarged(m0, w0, f0, m, w, f, root, lo, want) && Inv(m, first, w, foreign, f) && IsRoot(w0, root)
    ensures IsRoot(w, root)
    ensures forall u: nat | lo <= u < lo + |want| :: Ppn(Leaf(m, root, u)) !in foreign
  {
    hide Leaf, Pool, Mapped, Formatted, MakePte;
    forall u: nat | lo <= u < lo + |want|
      ensures Ppn(Leaf(m, root, u)) !in foreign
    {
      assert Got(m, w, root, u, Wish(want, lo, u));
    }
  }

  // n zeroed pages.
  function Zeros(n: nat, perm: nat): (want: seq<Want>)
    ensures |want| == n && forall j | 0 <= j < n :: want[j] == Wanted(perm, Filled(0))
  {
    seq(n, _ => Wanted(perm, Filled(0)))
  }

  // Copies of what address space root has at page numbers below n.
  ghost function Copies(m: Memory, root: nat, n: nat): (want: seq<Want>)
    ensures |want| == n && forall u | 0 <= u < n :: want[u] == CopyOf(m, root, u)
  {
    seq(n, u requires 0 <= u < n => CopyOf(m, root, u))
  }

  ghost function CopyOf(m: Memory, root: nat, u: nat): Want {
    var pte := Leaf(m, root, u);
    if pte == 0 || Ppn(pte) >= |m| then Nothing else Wanted(Flags(pte), m[Ppn(pte)])
  }

  lemma FlagsKept(pte: nat)
    ensures Flags(pte) < 0x400 && (Valid(Flags(pte)) <==> Valid(pte))
  {
  }

  // A page mapped elsewhere still has its bytes.
  lemma EnlargedPage(m0: Memory, first: nat, w0: map<nat, Place>, foreign: set<nat>, f0: seq<nat>, m: Memory, w: map<nat, Place>, f: seq<nat>,
                     root: nat, lo: nat, want: seq<Want>, r: nat, u: nat)
    requires Inv(m0, first, w0, foreign, f0) && Enlarged(m0, w0, f0, m, w, f, root, lo, want) && IsRoot(w0, r) && Leaf(m0, r, u) != 0
    ensures var p := Ppn(Leaf(m0, r, u)); p < |m0| && p < |m| && m[p] == m0[p] && Whole(m[p])
  {
    hide Leaf, Mapped, Formatted, Got, At, Ppn;
    LeafAt(m0, first, w0, foreign, f0, r, u);
    LeafPage(m0, first, w0, foreign, f0, r, u);
  }

  // An empty root table, on a page nobody has.
  lemma {:induction false} EmptyRootAt(mem: Memory, p: nat, s: Place)
    requires s.root == p && p < |mem| && NoEntries(mem[p]) && s.depth > 0
    ensures At(mem, s) == 0
    decreases s.depth
  {
    hide Pte, Valid;
    if s.depth > 1 { EmptyRootAt(mem, p, Up(s)); }
  }

  lemma NewRootKeepsInv(mem: Memory, first: nat, who: map<nat, Place>, foreign: set<nat>, free: seq<nat>, p: nat)
    requires Inv(mem, first, who, foreign, free) && LoosePage(mem, first, foreign, Pool(who, free), p) && mem[p] == Filled(0)
    ensures Inv(mem, first, who[p := Place(p, 0, 0)], foreign, free)
    ensures forall v: nat :: Leaf(mem, p, v) == 0
  {
    hide At, Pte, Leaf, Inner, Outer, NoEntries;
    var who' := who[p := Place(p, 0, 0)];
    ZeroPage();
    forall s: Place | s.depth <= 3 && IsRoot(who', s.root)
      ensures Recorded(mem, who', foreign, s)
    {
      RootAt(mem, s);
      if s.root == p {
        if s.depth > 0 { EmptyRootAt(mem, p, s); }
      } else {
        assert Recorded(mem, who, foreign, s);
      }
    }
    RootAt(mem, Place(p, 0, 0));
    forall b | b in who'
      ensures Owned(mem, who', b)
    {
      if b != p { assert Owned(mem, who, b); }
    }
    forall v: nat
      ensures Leaf(mem, p, v) == 0
    {
      EmptyRootLeaf(mem, p, v);
    }
  }

  lemma RootAt(mem: Memory, s: Place)
    ensures s.depth == 0 ==> At(mem, s) == if s.index == 0 then s.root else 0
  {
  }

  lemma EmptyRootLeaf(mem: Memory, p: nat, v: nat)
    requires p < |mem| && NoEntries(mem[p])
    ensures Leaf(mem, p, v) == 0
  {
    EmptyRootAt(mem, p, Place(p, 2, v / ENTRIES));
  }

  // Strictly below u.
  predicate Beneath(s: Place, u: Place) { Under(s, u) && s != u }

  lemma {:induction false} BeneathChild(s: Place, w: Place, u: Place)
    requires w.depth == u.depth + 1 && Up(w) == u && Under(s, w)
    ensures Beneath(s, u)
    decreases s.depth
  {
    if s != w { BeneathChild(Up(s), w, u); }
  }

  lemma {:induction false} UnderIsDeeper(s: Place, u: Place)
    requires Under(s, u)
    ensures s.depth >= u.depth && s.root == u.root && (s.depth == u.depth ==> s == u)
    decreases s.depth
  {
    if s != u { UnderIsDeeper(Up(s), u); }
  }

  // freewalk below the table at place u: nothing but what was beneath u has gone, and no
  // other table has changed.
  ghost predicate Pruned(m0: Memory, w0: map<nat, Place>, f0: seq<nat>, m: Memory, w: map<nat, Place>, f: seq<nat>, u: Place) {
    && (forall b | b in w :: b in w0 && w[b] == w0[b])
    && (forall b | b in w0 && !Beneath(w0[b], u) :: b in w)
    && |m| == |m0| && (forall b | 0 <= b < |m| && !(b in w0 && Under(w0[b], u)) :: m[b] == m0[b])
    && SameLeaves(m0, m, w0) && Pool(w, f) == Pool(w0, f0)
  }

  lemma PrunedNone(m: Memory, w: map<nat, Place>, f: seq<nat>, u: Place)
    ensures Pruned(m, w, f, m, w, f, u)
  {
    hide Leaf, Under;
  }

  // The subtree at entry i of table p is pruned to its top table, which is then freed.
  lemma PrunedMore(m0: Memory, w0: map<nat, Place>, f0: seq<nat>, m1: Memory, w1: map<nat, Place>, f1: seq<nat>,
                   m2: Memory, w2: map<nat, Place>, f2: seq<nat>, m3: Memory, p: nat, c: nat, u: Place, w: Place)
    requires Pruned(m0, w0, f0, m1, w1, f1, u) && Pruned(m1, w1, f1, m2, w2, f2, w)
    requires p in w0 && w0[p] == u && p in w1 && c in w2 && w2[c] == w && w.depth == u.depth + 1 && Up(w) == u
    requires |m3| == |m2| && (forall b | 0 <= b < |m3| && b != p && b != c :: m3[b] == m2[b]) && SameLeaves(m2, m3, w2)
    ensures Pruned(m0, w0, f0, m3, w2 - {c}, [c] + f2, u)
  {
    hide Leaf, Under;
    UnderSelf(u);
    PrunedPlaces(m0, w0, f0, m1, w1, f1, m2, w2, f2, c, u, w);
    assert (w2 - {c}).Keys == w2.Keys - {c};
    assert Pool(w2 - {c}, [c] + f2) == Pool(w2, f2);
    forall r, v: nat | IsRoot(w0, r)
      ensures Leaf(m3, r, v) == Leaf(m0, r, v)
    {
      RootStays(w0, w1, r, u);
      RootStays(w1, w2, r, w);
    }
  }

  lemma UnderSelf(u: Place)
    ensures Under(u, u)
  {
  }

  lemma RootStays(w0: map<nat, Place>, w: map<nat, Place>, r: nat, u: Place)
    requires IsRoot(w0, r) && (forall b | b in w :: b in w0 && w[b] == w0[b]) && (forall b | b in w0 && !Beneath(w0[b], u) :: b in w)
    ensures IsRoot(w, r)
  {
    if Beneath(w0[r], u) { UnderIsDeeper(w0[r], u); }
  }

  lemma PrunedPlaces(m0: Memory, w0: map<nat, Place>, f0: seq<nat>, m1: Memory, w1: map<nat, Place>, f1: seq<nat>,
                     m2: Memory, w2: map<nat, Place>, f2: seq<nat>, c: nat, u: Place, w: Place)
    requires Pruned(m0, w0, f0, m1, w1, f1, u) && Pruned(m1, w1, f1, m2, w2, f2, w)
    requires c in w2 && w2[c] == w && w.depth == u.depth + 1 && Up(w) == u
    ensures forall b | b in w0 && !Beneath(w0[b], u) :: b in w2 && b != c && w2[b] == w0[b]
    ensures forall b | 0 <= b < |m0| && !(b in w0 && Under(w0[b], u)) :: b != c && m2[b] == m0[b]
  {
    hide Leaf, Under, Pool, SameLeaves;
    UnderSelf(w);
    forall s: Place | Under(s, w)
      ensures Beneath(s, u)
    {
      BeneathChild(s, w, u);
    }
  }

  // An entry-free table has nothing beneath it.
  lemma {:induction false} NothingBeneath(mem: Memory, p: nat, u: Place, s: Place)
    requires At(mem, u) == p && (p == 0 || p >= |mem| || NoEntries(mem[p])) && Beneath(s, u)
    ensures At(mem, s) == 0
    decreases s.depth
  {
    hide Pte, Valid;
    if Up(s) != u { NothingBeneath(mem, p, u, Up(s)); }
  }

  // Nothing is mapped in the address space.
  ghost predicate Vacant(mem: Memory, root: nat) {
    forall v: nat :: Leaf(mem, root, v) == 0
  }

  // A valid entry of a lowest table maps something.
  lemma VacantTable(mem: Memory, first: nat, who: map<nat, Place>, foreign: set<nat>, free: seq<nat>, p: nat, i: nat)
    requires Inv(mem, first, who, foreign, free) && p in who && who[p].depth == 2 && i < ENTRIES && Vacant(mem, who[p].root)
    ensures p < |mem| && Whole(mem[p]) && !Valid(Pte(mem[p], i))
  {
    hide Mapped, Formatted, Pte, Leaf;
    StepDown(mem, first, who, foreign, free, p, i);
    var v := Vpn(who, p, i);
    Digits(who[p].index, i);
    OwnPlace(mem, first, who, foreign, free, p);
    LeafAt(mem, first, who, foreign, free, who[p].root, v);
    assert Leaf(mem, who[p].root, v) == 0;
  }

  // An entry of an upper table is empty or leads to a table.
  lemma InnerEntry(mem: Memory, first: nat, who: map<nat, Place>, foreign: set<nat>, free: seq<nat>, p: nat, i: nat)
    requires Inv(mem, first, who, foreign, free) && p in who && who[p].depth < 2 && i < ENTRIES
    ensures p < |mem| && Whole(mem[p])
    ensures Valid(Pte(mem[p], i)) ==> !Rwx(Pte(mem[p], i))
    ensures Valid(Pte(mem[p], i)) ==>
      var c := Ppn(Pte(mem[p], i)); c == Target(mem[p], i) && c in who && who[c] == Below(who, p, i) && first <= c < |mem| && Whole(mem[c])
  {
    hide Mapped, Formatted, At, Pte;
    StepDown(mem, first, who, foreign, free, p, i);
    ValidLeads(mem, first, who, foreign, free, p, i);
    if Valid(Pte(mem[p], i)) {
      FlagsOne(Pte(mem[p], i));
      TableAt(mem, first, who, foreign, free, Below(who, p, i));
    }
  }

  lemma FlagsOne(pte: nat)
    ensures Flags(pte) == 1 ==> !Rwx(pte)
  {
  }

  // After the subtree below entry i has been freed and the entry cleared.
  lemma PruneStep(m0: Memory, w0: map<nat, Place>, f0: seq<nat>, m1: Memory, w1: map<nat, Place>, f1: seq<nat>,
                  m2: Memory, first: nat, w2: map<nat, Place>, foreign: set<nat>, f2: seq<nat>, p: nat, i: nat, c: nat, u: Place)
    requires Pruned(m0, w0, f0, m1, w1, f1, u) && p in w0 && w0[p] == u && p in w1 && i < ENTRIES && c in w1 && w1[c] == Below(w1, p, i)
    requires Pruned(m1, w1, f1, m2, w2, f2, w1[c]) && Inv(m2, first, w2, foreign, f2) && u.depth < 2
    requires p < |m1| && c == Target(m1[p], i) && c < |m2| && NoEntries(m2[c]) && Whole(m1[p])
    ensures c != p && p in w2 && w2[p] == u && p < |m2| && Whole(m2[p]) && m2[p] == m1[p]
    ensures var m3 := DropTable(m2, p, i, c, Filled(1));
            && Inv(m3, first, w2 - {c}, foreign, [c] + f2)
            && Pruned(m0, w0, f0, m3, w2 - {c}, [c] + f2, u)
            && m3 == PutPte(m2[c := Filled(1)], p, i, 0)
            && Whole(m3[p]) && Pte(m3[p], i) == 0
            && (forall j | 0 <= j < ENTRIES && j != i :: Pte(m3[p], j) == Pte(m1[p], j))
  {
    hide Mapped, Formatted, Leaf, Under, Pte, SetPte, NoEntries, Target, Pool, PutPte;
    Digits(u.index, i);
    var w := w1[c];
    UnderSelf(w);
    if Under(u, w) { UnderIsDeeper(u, w); }
    BeneathSelf(w);
    assert p in w2;
    DropTableKeepsInv(m2, first, w2, foreign, f2, p, i, c, Filled(1));
    DropTableEntry(m2, p, i, c, Filled(1));
    var m3 := DropTable(m2, p, i, c, Filled(1));
    ReturnTable(m2, m3, first, w2, foreign, f2, p, i, c);
    PrunedMore(m0, w0, f0, m1, w1, f1, m2, w2, f2, m3, p, c, u, w);
  }

  lemma BeneathSelf(w: Place)
    ensures !Beneath(w, w)
  {
  }

  lemma ReturnTable(m2: Memory, m3: Memory, first: nat, w2: map<nat, Place>, foreign: set<nat>, f2: seq<nat>, p: nat, i: nat, c: nat)
    requires p < |m2| && Whole(m2[p]) && i < ENTRIES && c < |m2| && c != p && m3 == DropTable(m2, p, i, c, Filled(1))
    requires Inv(m2, first, w2, foreign, f2) && Inv(m3, first, w2 - {c}, foreign, f2) && c in w2
    ensures Inv(m3, first, w2 - {c}, foreign, [c] + f2)
    ensures |m3| == |m2| && forall b | 0 <= b < |m3| && b != p && b != c :: m3[b] == m2[b]
  {
    hide Mapped, Formatted, SetPte, Pte;
    GivenBack(m3, first, w2 - {c}, foreign, f2, c);
    assert m3[c := Filled(1)] == m3;
  }

  lemma PrunedVacant(m0: Memory, w0: map<nat, Place>, f0: seq<nat>, m1: Memory, w1: map<nat, Place>, f1: seq<nat>,
                     m3: Memory, w3: map<nat, Place>, f3: seq<nat>, u: Place, root: nat)
    requires Pruned(m0, w0, f0, m1, w1, f1, u) && Pruned(m0, w0, f0, m3, w3, f3, u) && IsRoot(w1, root) && Vacant(m1, root)
    ensures IsRoot(w3, root) && Vacant(m3, root)
  {
    hide Leaf, Under;
    RootStays(w0, w3, root, u);
    assert forall v: nat :: Leaf(m3, root, v) == Leaf(m0, root, v) == Leaf(m1, root, v);
  }

  // Address space root is gone: each of its pages, of tables and of data, is free again;
  // the other address spaces are untouched.
  ghost predicate SpaceFreed(m0: Memory, w0: map<nat, Place>, f0: seq<nat>, m: Memory, w: map<nat, Place>, f: seq<nat>, root: nat) {
    && (forall b | b in w :: b in w0 && w[b] == w0[b] && w0[b].root != root)
    && (forall b | b in w0 && w0[b].root != root :: b in w)
    && (forall b | b in w0 && w0[b].root == root :: b in f)
    && (forall r, v: nat | IsRoot(w0, r) && r != root :: Leaf(m, r, v) == Leaf(m0, r, v))
    && DataSame(m0, m, w, Pool(w0, f0)) && Pool(w, f) == Pool(w0, f0)
  }

  // A root table without entries is all there is of its address space.
  lemma LoneRoot(mem: Memory, first: nat, who: map<nat, Place>, foreign: set<nat>, free: seq<nat>, root: nat)
    requires Inv(mem, first, who, foreign, free) && IsRoot(who, root) && root < |mem| && NoEntries(mem[root])
    ensures forall b | b in who && who[b].root == root :: b == root
  {
    hide At, NoEntries, Formatted;
    forall b | b in who && who[b].root == root
      ensures b == root
    {
      assert Owned(mem, who, b);
      RootAt(mem, who[b]);
      if who[b].depth > 0 { EmptyRootAt(mem, root, who[b]); }
    }
  }

  lemma RootDropKeepsInv(mem: Memory, first: nat, who: map<nat, Place>, foreign: set<nat>, free: seq<nat>, root: nat)
    requires Inv(mem, first, who, foreign, free) && IsRoot(who, root) && root < |mem| && NoEntries(mem[root])
    ensures Inv(mem[root := Filled(1)], first, who - {root}, foreign, [root] + free)
    ensures SameLeaves(mem, mem[root := Filled(1)], who - {root})
  {
    hide At, NoEntries, Leaf, Inner, Outer;
    LoneRoot(mem, first, who, foreign, free, root);
    var who' := who - {root};
    forall s: Place | s.depth <= 3 && IsRoot(who', s.root)
      ensures Recorded(mem, who', foreign, s)
    {
      assert Recorded(mem, who, foreign, s);
    }
    forall b | b in who'
      ensures Owned(mem, who', b)
    {
      assert Owned(mem, who, b);
    }
    GivenBack(mem, first, who', foreign, free, root);
  }

  lemma PrunedRootFreed(m0: Memory, w0: map<nat, Place>, f0: seq<nat>, m1: Memory, first: nat, w1: map<nat, Place>, foreign: set<nat>, f1: seq<nat>, root: nat)
    requires Inv(m0, first, w0, foreign, f0) && Pruned(m0, w0, f0, m1, w1, f1, Place(root, 0, 0)) && IsRoot(w0, root) && IsRoot(w1, root)
    requires Inv(m1, first, w1, foreign, f1) && root < |m1| && NoEntries(m1[root])
    ensures Inv(m1[root := Filled(1)], first, w1 - {root}, foreign, [root] + f1)
    ensures SpaceFreed(m0, w0, f0, m1[root := Filled(1)], w1 - {root}, [root] + f1, root)
  {
    hide Mapped, Formatted, Leaf, Under, NoEntries;
    RootDropKeepsInv(m1, first, w1, foreign, f1, root);
    LoneRoot(m1, first, w1, foreign, f1, root);
    assert (w1 - {root}).Keys == w1.Keys - {root};
    assert Pool(w1 - {root}, [root] + f1) == Pool(w1, f1);
    forall b | b in w0 && Under(w0[b], Place(root, 0, 0))
      ensures w0[b].root == root
    {
      UnderIsDeeper(w0[b], Place(root, 0, 0));
    }
    forall b | b in w0 && w0[b].root == root
      ensures b in [root] + f1
    {
      assert b in Pool(w0, f0);
    }
    forall r, v: nat | IsRoot(w0, r) && r != root
      ensures Leaf(m1[root := Filled(1)], r, v) == Leaf(m0, r, v)
    {
      RootStays(w0, w1, r, Place(root, 0, 0));
    }
  }

  // Unmapping, then freeing the tables.
  lemma UnmappedThenFreed(m0: Memory, w0: map<nat, Place>, f0: seq<nat>, m1: Memory, w1: map<nat, Place>, f1: seq<nat>,
                          m2: Memory, w2: map<nat, Place>, f2: seq<nat>, root: nat, n: nat)
    requires Unmapped(m0, w0, f0, m1, w1, f1, root, 0, n) && SpaceFreed(m1, w1, f1, m2, w2, f2, root) && IsRoot(w0, root)
    ensures SpaceFreed(m0, w0, f0, m2, w2, f2, root)
  {
    hide Leaf;
    forall b | b in w0 && w0[b].root == root
      ensures b in f2
    {
      assert b in Pool(w0, f0) && b !in w2;
    }
  }

  lemma UnmappedIsVacant(m0: Memory, w0: map<nat, Place>, f0: seq<nat>, m1: Memory, w1: map<nat, Place>, f1: seq<nat>, root: nat, n: nat)
    requires Unmapped(m0, w0, f0, m1, w1, f1, root, 0, n) && IsRoot(w0, root)
    requires forall v: nat :: Leaf(m0, root, v) != 0 ==> v < n
    ensures Vacant(m1, root) && IsRoot(w1, root)
  {
    hide Leaf, Pool;
  }

  lemma PrunedKeepsRoot(m0: Memory, w0: map<nat, Place>, f0: seq<nat>, m: Memory, w: map<nat, Place>, f: seq<nat>, root: nat)
    requires Pruned(m0, w0, f0, m, w, f, Place(root, 0, 0)) && IsRoot(w0, root)
    ensures IsRoot(w, root)
  {
    hide Leaf, Under;
    RootStays(w0, w, root, Place(root, 0, 0));
  }

  lemma NoPages()
    ensures Pages(0) == 0 && Ppn(0) == 0
  {
  }

  lemma NoForeignZero(foreign: set<nat>, mem: Memory, first: nat, who: map<nat, Place>, free: seq<nat>)
    requires Inv(mem, first, who, foreign, free)
    ensures 0 !in foreign
  {
    hide Mapped, Formatted;
  }

  lemma MappedOnePage(m0: Memory, w0: map<nat, Place>, f0: seq<nat>, m: Memory, w: map<nat, Place>, f: seq<nat>,
                      foreign: set<nat>, root: nat, vpn: nat, ppn: nat, perm: nat)
    requires MappedOne(m0, w0, f0, m, w, f, foreign, root, vpn, ppn, perm) && IsRoot(w0, root) && perm < 0x400
    ensures Leaf(m, root, vpn) == MakePte(ppn, WithValid(perm)) && Ppn(Leaf(m, root, vpn)) == ppn
  {
    hide Leaf, Pool, MakePte, WithValid, Ppn;
    WithValidIs(perm);
    MakePteIs(ppn, WithValid(perm));
  }

  lemma EnlargedNothing(m0: Memory, w0: map<nat, Place>, f0: seq<nat>, m: Memory, w: map<nat, Place>, f: seq<nat>, root: nat, lo: nat)
    requires Enlarged(m0, w0, f0, m, w, f, root, lo, [])
    ensures Grown(m0, w0, f0, m, w, f)
  {
    hide Leaf, Pool, Got;
  }

  lemma PageStart(vpn: nat)
    ensures vpn * PGSIZE / PGSIZE == vpn
  {
  }

  lemma GrownExtends(m0: Memory, w0: map<nat, Place>, f0: seq<nat>, m: Memory, w: map<nat, Place>, f: seq<nat>)
    requires Grown(m0, w0, f0, m, w, f)
    ensures Extends(w0, w)
  {
  }

  lemma EnlargedExtends(m0: Memory, w0: map<nat, Place>, f0: seq<nat>, m: Memory, w: map<nat, Place>, f: seq<nat>, root: nat, lo: nat, want: seq<Want>)
    requires Enlarged(m0, w0, f0, m, w, f, root, lo, want)
    ensures Extends(w0, w)
  {
  }

  // k consecutive pages from ppn on are mapped at vpn.
  ghost predicate MappedRange(m0: Memory, w0: map<nat, Place>, f0: seq<nat>, m: Memory, w: map<nat, Place>, f: seq<nat>,
                              foreign: set<nat>, root: nat, vpn: nat, k: nat, ppn: nat, perm: nat) {
    && Extends(w0, w) && DataSame(m0, m, w0, Pool(w0, f0))
    && (forall s, u: nat | IsRoot(w0, s) ::
          Leaf(m, s, u) == if s == root && vpn <= u < vpn + k then MakePte(ppn + (u - vpn), WithValid(perm)) else Leaf(m0, s, u))
    && (forall p :: p in Pool(w, f) <==> p in Pool(w0, f0) || (ppn <= p < ppn + k && p !in foreign))
    && (forall p | ppn <= p < ppn + k && p !in foreign :: p in w && w[p] == Place(root, 3, vpn + (p - ppn)))
  }

  lemma RangeNone(m: Memory, w: map<nat, Place>, f: seq<nat>, foreign: set<nat>, root: nat, vpn: nat, ppn: nat, perm: nat)
    ensures MappedRange(m, w, f, m, w, f, foreign, root, vpn, 0, ppn, perm)
  {
    hide Leaf, Pool;
  }

  lemma RangeMore(m0: Memory, w0: map<nat, Place>, f0: seq<nat>, m1: Memory, w1: map<nat, Place>, f1: seq<nat>,
                  m2: Memory, w2: map<nat, Place>, f2: seq<nat>, foreign: set<nat>, root: nat, vpn: nat, k: nat, ppn: nat, perm: nat)
    requires MappedRange(m0, w0, f0, m1, w1, f1, foreign, root, vpn, k, ppn, perm)
    requires MappedOne(m1, w1, f1, m2, w2, f2, foreign, root, vpn + k, ppn + k, perm)
    ensures MappedRange(m0, w0, f0, m2, w2, f2, foreign, root, vpn, k + 1, ppn, perm)
  {
    hide Leaf, MakePte, WithValid;
    RangeData(m0, w0, f0, m1, w1, f1, foreign, root, vpn, k, ppn, perm);
  }

  lemma RangeData(m0: Memory, w0: map<nat, Place>, f0: seq<nat>, m1: Memory, w1: map<nat, Place>, f1: seq<nat>,
                  foreign: set<nat>, root: nat, vpn: nat, k: nat, ppn: nat, perm: nat)
    requires MappedRange(m0, w0, f0, m1, w1, f1, foreign, root, vpn, k, ppn, perm)
    ensures forall p | p in Pool(w1, f1) && p !in Pool(w0, f0) :: p in w1 && w1[p].depth == 3
  {
    hide Leaf, MakePte, WithValid, Pool;
  }

  lemma RangeGrown(m0: Memory, w0: map<nat, Place>, f0: seq<nat>, m1: Memory, w1: map<nat, Place>, f1: seq<nat>,
                   m2: Memory, w2: map<nat, Place>, f2: seq<nat>, foreign: set<nat>, root: nat, vpn: nat, k: nat, ppn: nat, perm: nat)
    requires MappedRange(m0, w0, f0, m1, w1, f1, foreign, root, vpn, k, ppn, perm) && Grown(m1, w1, f1, m2, w2, f2)
    ensures MappedRange(m0, w0, f0, m2, w2, f2, foreign, root, vpn, k, ppn, perm)
  {
    hide Leaf, MakePte, WithValid, Pool;
    RangeData(m0, w0, f0, m1, w1, f1, foreign, root, vpn, k, ppn, perm);
  }

  lemma RangeMeans(m0: Memory, w0: map<nat, Place>, f0: seq<nat>, m: Memory, w: map<nat, Place>, f: seq<nat>, first: nat,
                   foreign: set<nat>, root: nat, vpn: nat, k: nat, ppn: nat, perm: nat)
    requires MappedRange(m0, w0, f0, m, w, f, foreign, root, vpn, k, ppn, perm) && IsRoot(w0, root)
    ensures IsRoot(w, root) && Leaf(m, root, vpn + k) == Leaf(m0, root, vpn + k)
    ensures LoosePage(m0, first, foreign, Pool(w0, f0), ppn + k) ==> LoosePage(m, first, foreign, Pool(w, f), ppn + k)
  {
    hide Leaf, MakePte, WithValid, Pool;
  }
}
