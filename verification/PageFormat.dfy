// What the hardware makes of the page tables: Sv39 translation (RISC-V Privileged Architecture,
// section 4.4), from the bytes of physical memory alone.

module PageFormat {
  import opened Bytes
  import opened PageModel

  // Entry i of a table: eight bytes, the lowest first.
  function Entry64(p: Page, i: nat): nat
    requires |p.bytes| == 4096 && i < 512
  {
    LittleEndian(p.bytes[8 * i..8 * i + 8])
  }

  // The table that entry i of table t points to: 0 if it is not valid, or a leaf.
  function Follow(mem: Memory, t: nat, i: nat): nat
    requires i < 512
  {
    if t >= |mem| || |mem[t].bytes| != 4096 then 0
    else
      var e := Entry64(mem[t], i);
      if e % 2 == 1 && e / 2 % 8 == 0 then e / 1024 else 0
  }

  // The entry that translates virtual address va, or 0: nine bits of the address for each level.
  function Translation(mem: Memory, root: nat, va: nat): nat {
    var t := Follow(mem, root, va / 0x4000_0000 % 512);
    if t == 0 then 0
    else
      var u := Follow(mem, t, va / 0x20_0000 % 512);
      if u == 0 || u >= |mem| || |mem[u].bytes| != 4096 then 0
      else
        var e := Entry64(mem[u], va / 0x1000 % 512);
        if e % 2 == 1 then e else 0
  }

  lemma EntryIs(p: Page, i: nat)
    requires Whole(p) && i < 512
    ensures Entry64(p, i) == Pte(p, i)
  {
    hide LittleEndian;
    GetWordIs(p.bytes, 2 * i);
    GetWordIs(p.bytes, 2 * i + 1);
    var a, b := p.bytes[8 * i..8 * i + 4], p.bytes[8 * i + 4..8 * i + 8];
    assert p.bytes[8 * i..8 * i + 8] == a + b;
    TwoParts(a, b);
  }

  // An upper table's entry.
  lemma FollowIs(mem: Memory, first: nat, who: map<nat, Place>, foreign: set<nat>, free: seq<nat>, t: nat, i: nat)
    requires Inv(mem, first, who, foreign, free) && t in who && who[t].depth < 2 && i < 512
    ensures Follow(mem, t, i) == At(mem, Below(who, t, i))
  {
    hide Mapped, Pte, At;
    StepDown(mem, first, who, foreign, free, t, i);
    EntryIs(mem[t], i);
    assert Inner(mem[t]);
    PointersAreNoLeaves(Pte(mem[t], i));
  }

  lemma PointersAreNoLeaves(e: nat)
    ensures Flags(e) == 1 ==> e % 2 == 1 && e / 2 % 8 == 0
  {
    if Flags(e) == 1 { assert e == 1024 * (e / 1024) + 1; }
  }

  lemma Nines(va: nat)
    ensures va / 4096 / 512 == va / 0x20_0000 && va / 4096 / 512 / 512 == va / 0x4000_0000
    ensures va < 0x40_0000_0000 ==> va / 4096 < MAXVPN && va / 0x4000_0000 < 512
  {
  }

  // The map from page numbers to entries that everything else speaks of is what the hardware
  // finds, at every address below MAXVA = 2^38.
  lemma MapIsHardware(mem: Memory, first: nat, who: map<nat, Place>, foreign: set<nat>, free: seq<nat>, root: nat, va: nat)
    requires Inv(mem, first, who, foreign, free) && IsRoot(who, root) && va < 0x40_0000_0000
    ensures Translation(mem, root, va) == Leaf(mem, root, va / 4096)
  {
    hide Mapped, Formatted, At, Pte, Follow;
    var i, j, k := va / 0x4000_0000 % 512, va / 0x20_0000 % 512, va / 0x1000 % 512;
    Nines(va);
    FollowIs(mem, first, who, foreign, free, root, i);
    var s1, s2 := Place(root, 1, va / 0x4000_0000), Place(root, 2, va / 0x20_0000);
    assert Below(who, root, i) == s1;
    var t := At(mem, s1);
    if t == 0 {
      NothingUnder(mem, s1, s2);
    } else {
      TableAt(mem, first, who, foreign, free, s1);
      IndexParts(va / 0x20_0000);
      assert Below(who, t, j) == s2;
      FollowIs(mem, first, who, foreign, free, t, j);
      var u := At(mem, s2);
      if u != 0 {
        TableAt(mem, first, who, foreign, free, s2);
        EntryIs(mem[u], k);
      }
    }
  }

  lemma NothingUnder(mem: Memory, s: Place, r: Place)
    requires At(mem, s) == 0 && r.depth > 0 && Up(r) == s
    ensures At(mem, r) == 0
  {
  }
}
