// The disk as any other reader finds it: inodes, block maps and the free map from the bytes of
// the blocks alone, as kernel/fs.h lays them out.

module FileFormat {
  import opened Bytes
  import opened FileBlocks
  import opened FileModel

  // The four bytes at position at, the lowest first.
  function Number(b: Block, at: nat): nat
    requires at + 4 <= |b.bytes|
  {
    LittleEndian(b.bytes[at..at + 4])
  }

  // Sixteen inodes of 64 bytes to a block; in each the size is at byte 8, and thirteen addresses
  // follow it, of twelve blocks and of a block of 256 more.
  predicate HasInode(img: Image, inodeStart: nat, inum: nat) {
    inodeStart + inum / 16 < |img| && |img[inodeStart + inum / 16].bytes| == 1024
  }

  function DiskSize(img: Image, inodeStart: nat, inum: nat): nat
    requires HasInode(img, inodeStart, inum)
  {
    Number(img[inodeStart + inum / 16], inum % 16 * 64 + 8)
  }

  function DiskAddress(img: Image, inodeStart: nat, inum: nat, bn: nat): nat
    requires HasInode(img, inodeStart, inum) && bn < 268
  {
    var b, at := img[inodeStart + inum / 16], inum % 16 * 64 + 12;
    if bn < 12 then Number(b, at + 4 * bn)
    else
      var a := Number(b, at + 48);
      if a < |img| && |img[a].bytes| == 1024 then Number(img[a], 4 * (bn - 12)) else 0
  }

  function Power(i: nat): (p: nat)
    ensures p > 0
  {
    if i == 0 then 1 else 2 * Power(i - 1)
  }

  // Bit b of the free map: 8192 bits to a block, eight to a byte, the lowest first.
  predicate DiskBit(img: Image, bmapStart: nat, b: nat)
    requires bmapStart + b / 8192 < |img| && |img[bmapStart + b / 8192].bytes| == 1024
  {
    var x: nat := img[bmapStart + b / 8192].bytes[b % 8192 / 8];
    x / Power(b % 8) % 2 == 1
  }

  lemma WordIs(b: Block, k: nat)
    requires Whole(b) && k < 256
    ensures Word(b, k) == Number(b, 4 * k)
  {
    GetWordIs(b.bytes, k);
  }

  lemma {:induction false} BitIs(x: nat, i: nat)
    ensures BitOf(x, i) <==> x / Power(i) % 2 == 1
  {
    if i > 0 {
      BitIs(x / 2, i - 1);
      DivTwice(x, Power(i - 1));
    }
  }

  lemma DivTwice(x: nat, n: nat)
    requires n > 0
    ensures x / (2 * n) == x / 2 / n
  {
    var q, r := x / 2 / n, x / 2 % n;
    assert x / 2 == n * q + r;
    assert x == 2 * (n * q + r) + x % 2;
    assert x == (2 * n) * q + (2 * r + x % 2) && 2 * r + x % 2 < 2 * n;
    QuotientIs(x, 2 * n, q, 2 * r + x % 2);
  }

  lemma QuotientIs(x: nat, n: nat, q: nat, r: nat)
    requires n > 0 && x == n * q + r && r < n
    ensures x / n == q
  {
    var d := x / n;
    assert n * d + x % n == x;
    assert d < q ==> n * (d + 1) <= n * q;
    assert d > q ==> n * (q + 1) <= n * d;
  }

  // The addresses of an inode that is on the disk as it is in memory.
  lemma AddressIs(l: Layout, img: Image, table: seq<Inode>, owner: map<nat, Slot>, inum: nat, bn: nat)
    requires Inv(l, img, table, owner) && Synced(l, img, table, -1) && inum < l.ninodes && bn < MAXFILE
    ensures HasInode(img, l.inodeStart, inum) && bn < 268
    ensures DiskSize(img, l.inodeStart, inum) == table[inum].size
    ensures At(img, table[inum], DataSlot(bn)) != 0 ==> DiskAddress(img, l.inodeStart, inum, bn) == At(img, table[inum], DataSlot(bn))
  {
    hide Mapped, Accurate, Dense, Word, Number;
    var b := img[l.InodeBlock(inum)];
    assert HoldsInode(b, inum, table[inum]);
    WordIs(b, SizeWord(inum));
    var t := if bn < 12 then bn else 12;
    assert Word(b, SizeWord(inum) + 1 + t) == table[inum].addrs[t];
    WordIs(b, SizeWord(inum) + 1 + t);
    if bn >= 12 {
      var a := table[inum].addrs[12];
      if a < |img| { WordIs(img[a], bn - 12); }
    }
  }

  // Every file is on the disk where its inode says.
  lemma DiskHasFile(l: Layout, img: Image, table: seq<Inode>, owner: map<nat, Slot>, inum: nat, off: nat)
    requires Inv(l, img, table, owner) && Synced(l, img, table, -1) && inum < l.ninodes && off < table[inum].size
    ensures HasInode(img, l.inodeStart, inum) && DiskSize(img, l.inodeStart, inum) == table[inum].size && off / 1024 < 268
    ensures var a := DiskAddress(img, l.inodeStart, inum, off / 1024);
            0 < a < |img| && |img[a].bytes| == 1024 && img[a].bytes[off % 1024] == Content(img, table[inum])[off]
  {
    hide Mapped, Accurate, At, HasInode, DiskSize, DiskAddress;
    AddressIs(l, img, table, owner, inum, off / 1024);
    assert DenseTo(img, table[inum], table[inum].size);
    AddressInFile(l, img, table, owner, inum, off / 1024);
  }

  lemma AddressInFile(l: Layout, img: Image, table: seq<Inode>, owner: map<nat, Slot>, inum: nat, bn: nat)
    requires Inv(l, img, table, owner) && inum < l.ninodes && bn < MAXFILE
    ensures At(img, table[inum], DataSlot(bn)) < |img|
  {
    hide At, Accurate, Dense;
    var a := At(img, table[inum], DataSlot(bn));
    assert Recorded(img, table[inum], owner, inum, DataSlot(bn));
    assert a != 0 ==> Owned(l, img, table, owner[a], a);
  }

  // The free map has a bit for each block, set exactly for the metadata and for what some inode
  // says is its own.
  lemma DiskHasMap(l: Layout, img: Image, table: seq<Inode>, owner: map<nat, Slot>, b: nat)
    requires Inv(l, img, table, owner) && b < l.size
    ensures l.bmapStart + b / 8192 < |img| && |img[l.bmapStart + b / 8192].bytes| == 1024
    ensures DiskBit(img, l.bmapStart, b) <==> b < l.bmapStart + l.size / 8192 + 1 || b in owner
  {
    hide Mapped, Dense, Taken, DiskBit;
    MapBlockInBitmap(l, b);
    BitIsTaken(l, img, b);
  }

  lemma BitIsTaken(l: Layout, img: Image, b: nat)
    requires l.Good() && GoodImage(l, img) && b < l.size
    ensures l.bmapStart + b / 8192 < |img| && |img[l.bmapStart + b / 8192].bytes| == 1024
    ensures DiskBit(img, l.bmapStart, b) <==> Taken(l, img, b)
  {
    hide BitOf, Power;
    MapBlockInBitmap(l, b);
    var x: nat := img[l.MapBlock(b)].bytes[b % 8192 / 8];
    BitIs(x, b % 8);
    assert b % 8192 % 8 == b % 8;
  }
}
