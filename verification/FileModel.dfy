// Files on the disk: the free map, the block maps of inodes, and what owns each block.

module FileModel {
  import opened Bytes
  import opened FileBlocks

  const NDIRECT := 12
  const NINDIRECT := BSIZE / 4
  const MAXFILE := NDIRECT + NINDIRECT
  const SLOTS := MAXFILE + 1
  const BPB := 8 * BSIZE
  const IPB := 16

  // What the superblock says. Blocks below DataStart are metadata.
  datatype Layout = Layout(size: nat, ninodes: nat, inodeStart: nat, bmapStart: nat)
  {
    ghost predicate Good() {
      && size < WORD
      && 0 < inodeStart && inodeStart + ninodes / IPB + 1 <= bmapStart
      && DataStart() <= size
    }

    function DataStart(): nat { bmapStart + size / BPB + 1 }

    predicate InBitmap(c: nat) { bmapStart <= c < DataStart() }

    predicate InInodes(c: nat) { inodeStart <= c <= inodeStart + ninodes / IPB }

    // The map blocks in use: BBLOCK of some block.
    predicate HasMap(c: nat) { bmapStart <= c && (c - bmapStart) * BPB < size }

    // BBLOCK
    function MapBlock(b: nat): nat { b / BPB + bmapStart }

    // IBLOCK
    function InodeBlock(inum: nat): nat { inum / IPB + inodeStart }
  }

  lemma MapBlockInBitmap(l: Layout, b: nat)
    requires b < l.size
    ensures l.InBitmap(l.MapBlock(b)) && l.HasMap(l.MapBlock(b))
  {
    assert b / BPB <= l.size / BPB;
  }

  // The size and the block addresses of an inode.
  datatype Inode = Inode(addrs: seq<nat>, size: nat)

  // Address slot k of inode inum: 0 .. 11 direct, 12 the indirect block, then its words.
  datatype Slot = Slot(inum: nat, k: nat)

  // The slot of the bn-th block of a file.
  function DataSlot(bn: nat): nat { if bn < NDIRECT then bn else bn + 1 }

  // The address in slot k, or 0.
  function At(img: Image, ino: Inode, k: nat): nat
    requires k < SLOTS && |ino.addrs| == NDIRECT + 1
  {
    if k <= NDIRECT then ino.addrs[k]
    else
      var a := ino.addrs[NDIRECT];
      if a != 0 && a < |img| && Whole(img[a]) then Word(img[a], k - NDIRECT - 1) else 0
  }

  ghost predicate GoodImage(l: Layout, img: Image) {
    |img| == l.size && forall c | 0 <= c < |img| :: Whole(img[c])
  }

  ghost predicate GoodTable(l: Layout, table: seq<Inode>) {
    |table| == l.ninodes && forall i | 0 <= i < |table| :: |table[i].addrs| == NDIRECT + 1 && table[i].size <= MAXFILE * BSIZE
  }

  // owner is the inverse of the block maps of all inodes. So no block has two owners.
  ghost predicate Mapped(l: Layout, img: Image, table: seq<Inode>, owner: map<nat, Slot>)
    requires GoodTable(l, table)
  {
    && (forall i, k | 0 <= i < |table| && 0 <= k < SLOTS :: Recorded(img, table[i], owner, i, k))
    && (forall b | b in owner :: Owned(l, img, table, owner[b], b))
  }

  ghost predicate Recorded(img: Image, ino: Inode, owner: map<nat, Slot>, i: nat, k: nat)
    requires k < SLOTS && |ino.addrs| == NDIRECT + 1
  {
    var a := At(img, ino, k);
    a != 0 ==> a in owner && owner[a] == Slot(i, k)
  }

  ghost predicate Owned(l: Layout, img: Image, table: seq<Inode>, s: Slot, b: nat)
    requires GoodTable(l, table)
  {
    l.DataStart() <= b < l.size && s.inum < |table| && s.k < SLOTS && At(img, table[s.inum], s.k) == b
  }

  predicate Marked(l: Layout, img: Image, b: nat)
    requires l.MapBlock(b) < |img| && Whole(img[l.MapBlock(b)])
  {
    BlockBit(img[l.MapBlock(b)], b % BPB)
  }

  // The free map has exactly the metadata and the owned blocks: none is lost, none is
  // in use but free.
  ghost predicate Accurate(l: Layout, img: Image, owner: map<nat, Slot>)
    requires l.Good() && GoodImage(l, img)
  {
    forall b: nat | b < l.size :: Taken(l, img, b) <==> b < l.DataStart() || b in owner
  }

  ghost predicate Taken(l: Layout, img: Image, b: nat)
    requires l.Good() && GoodImage(l, img) && b < l.size
  {
    MapBlockInBitmap(l, b);
    Marked(l, img, b)
  }

  // No holes below len.
  ghost predicate DenseTo(img: Image, ino: Inode, len: nat)
    requires |ino.addrs| == NDIRECT + 1 && len <= MAXFILE * BSIZE
  {
    forall bn: nat | bn < MAXFILE && bn * BSIZE < len :: At(img, ino, DataSlot(bn)) != 0
  }

  ghost predicate Dense(l: Layout, img: Image, table: seq<Inode>)
    requires GoodTable(l, table)
  {
    forall i | 0 <= i < |table| :: DenseTo(img, table[i], table[i].size)
  }

  ghost predicate Inv(l: Layout, img: Image, table: seq<Inode>, owner: map<nat, Slot>) {
    && l.Good() && GoodImage(l, img) && GoodTable(l, table)
    && Mapped(l, img, table, owner) && Accurate(l, img, owner) && Dense(l, img, table)
  }

  // Byte p of a file.
  function ByteAt(img: Image, ino: Inode, p: nat): byte
    requires |ino.addrs| == NDIRECT + 1 && p < MAXFILE * BSIZE
  {
    var a := At(img, ino, DataSlot(p / BSIZE));
    if a < |img| && Whole(img[a]) then img[a].bytes[p % BSIZE] else 0
  }

  // The first len bytes of a file.
  ghost function Flat(img: Image, ino: Inode, len: nat): (f: seq<byte>)
    requires |ino.addrs| == NDIRECT + 1 && len <= MAXFILE * BSIZE
    ensures |f| == len && forall p | 0 <= p < len :: f[p] == ByteAt(img, ino, p)
  {
    seq(len, p requires 0 <= p < len => ByteAt(img, ino, p))
  }

  ghost function Content(img: Image, ino: Inode): seq<byte>
    requires |ino.addrs| == NDIRECT + 1 && ino.size <= MAXFILE * BSIZE
  {
    Flat(img, ino, ino.size)
  }

  // Every file but i has the bytes, and the inode, it had.
  ghost predicate OthersSame(l: Layout, img: Image, table: seq<Inode>, img': Image, table': seq<Inode>, i: nat)
    requires GoodTable(l, table) && GoodTable(l, table')
  {
    forall j | 0 <= j < l.ninodes && j != i :: table'[j] == table[j] && Content(img', table'[j]) == Content(img, table[j])
  }

  // The inode area is as it was.
  ghost predicate InodesSame(l: Layout, img: Image, img': Image) {
    |img'| == |img| && forall c | 0 <= c < |img| && l.InInodes(c) :: img'[c] == img[c]
  }

  // A block that was free is now marked and zeroed.
  ghost predicate Allocated(l: Layout, img: Image, img': Image, b: nat)
    requires l.Good() && GoodImage(l, img)
  {
    && GoodImage(l, img') && b < l.size
    && !Taken(l, img, b)
    && (forall c: nat | c < l.size :: Taken(l, img', c) <==> Taken(l, img, c) || c == b)
    && img'[b] == Zero()
    && forall c | 0 <= c < |img| && !l.InBitmap(c) && c != b :: img'[c] == img[c]
  }

  // Equal addresses and equal blocks make equal bytes.
  lemma SameBytes(img: Image, ino: Inode, img': Image, ino': Inode, len: nat)
    requires |ino.addrs| == |ino'.addrs| == NDIRECT + 1 && len <= MAXFILE * BSIZE && |img| == |img'|
    requires forall bn: nat | bn < MAXFILE && bn * BSIZE < len ::
      var a := At(img, ino, DataSlot(bn)); At(img', ino', DataSlot(bn)) == a && (a < |img| ==> img'[a] == img[a])
    ensures Flat(img', ino', len) == Flat(img, ino, len)
  {
    forall p | 0 <= p < len
      ensures ByteAt(img', ino', p) == ByteAt(img, ino, p)
    {
      assert p / BSIZE * BSIZE <= p;
      assert At(img', ino', DataSlot(p / BSIZE)) == At(img, ino, DataSlot(p / BSIZE));
    }
  }

  // Allocation leaves every address slot alone.
  lemma AllocatedAt(l: Layout, img: Image, table: seq<Inode>, owner: map<nat, Slot>, img': Image, b: nat, j: nat, m: nat)
    requires Inv(l, img, table, owner) && Allocated(l, img, img', b) && j < l.ninodes && m < SLOTS
    ensures At(img', table[j], m) == At(img, table[j], m)
    ensures var a := At(img, table[j], m); a != 0 ==> l.DataStart() <= a < l.size && a != b && img'[a] == img[a]
    ensures l.DataStart() <= b && b !in owner
  {
    assert Taken(l, img, b) <==> b < l.DataStart() || b in owner;
    assert Recorded(img, table[j], owner, j, m);
    assert Recorded(img, table[j], owner, j, NDIRECT);
  }

  // The block map of inode i gains b in slot k.
  ghost function Attach(table: seq<Inode>, i: nat, k: nat, b: nat): seq<Inode>
    requires i < |table| && k < |table[i].addrs|
  {
    table[i := table[i].(addrs := table[i].addrs[k := b])]
  }

  // The only change to the block maps: slot k of inode i, which was empty, now says b.
  ghost predicate Gains(l: Layout, img: Image, table: seq<Inode>, img': Image, table': seq<Inode>, i: nat, k: nat, b: nat)
    requires GoodTable(l, table) && GoodTable(l, table')
  {
    && (forall j, m | 0 <= j < l.ninodes && 0 <= m < SLOTS ::
          At(img', table'[j], m) == if j == i && m == k then b else At(img, table[j], m))
    && (forall j | 0 <= j < l.ninodes :: table'[j].size == table[j].size)
  }

  // A block nobody owned gets its owner.
  lemma GainKeepsMaps(l: Layout, img: Image, table: seq<Inode>, owner: map<nat, Slot>, img': Image, table': seq<Inode>, i: nat, k: nat, b: nat)
    requires GoodTable(l, table) && GoodTable(l, table') && Mapped(l, img, table, owner) && Dense(l, img, table)
    requires Gains(l, img, table, img', table', i, k, b)
    requires i < l.ninodes && k < SLOTS && At(img, table[i], k) == 0 && b !in owner && l.DataStart() <= b < l.size
    ensures Mapped(l, img', table', owner[b := Slot(i, k)]) && Dense(l, img', table')
  {
    hide At;
    var o := owner[b := Slot(i, k)];
    forall j, m | 0 <= j < l.ninodes && 0 <= m < SLOTS
      ensures Recorded(img', table'[j], o, j, m)
    {
      assert Recorded(img, table[j], owner, j, m);
    }
    forall c | c in o
      ensures Owned(l, img', table', o[c], c)
    {
      assert c != b ==> Owned(l, img, table, owner[c], c);
    }
    forall j | 0 <= j < l.ninodes
      ensures DenseTo(img', table'[j], table'[j].size)
    {
      assert DenseTo(img, table[j], table[j].size);
    }
  }

  // Recording a fresh block in ip->addrs[k].
  lemma AttachDirectAt(l: Layout, img: Image, table: seq<Inode>, owner: map<nat, Slot>, img': Image, b: nat, i: nat, k: nat, j: nat, m: nat)
    requires Inv(l, img, table, owner) && Allocated(l, img, img', b)
    requires i < l.ninodes && k <= NDIRECT && table[i].addrs[k] == 0 && j < l.ninodes && m < SLOTS
    ensures At(img', Attach(table, i, k, b)[j], m) == if j == i && m == k then b else At(img, table[j], m)
    ensures l.DataStart() <= b && b !in owner
  {
    hide Mapped, Accurate, Dense, Taken, Word;
    AllocatedAt(l, img, table, owner, img', b, j, m);
    AllocatedAt(l, img, table, owner, img', b, j, NDIRECT);
    if m > NDIRECT { ZeroWord(m - NDIRECT - 1); }
  }

  lemma AttachDirect(l: Layout, img: Image, table: seq<Inode>, owner: map<nat, Slot>, img': Image, b: nat, i: nat, k: nat)
    requires Inv(l, img, table, owner) && Allocated(l, img, img', b)
    requires i < l.ninodes && k <= NDIRECT && table[i].addrs[k] == 0
    ensures Inv(l, img', Attach(table, i, k, b), owner[b := Slot(i, k)])
  {
    hide Mapped, Dense, Taken;
    var t := Attach(table, i, k, b);
    AttachDirectAt(l, img, table, owner, img', b, i, k, i, k);
    forall j, m | 0 <= j < l.ninodes && 0 <= m < SLOTS
      ensures At(img', t[j], m) == if j == i && m == k then b else At(img, table[j], m)
    {
      AttachDirectAt(l, img, table, owner, img', b, i, k, j, m);
    }
    GainKeepsMaps(l, img, table, owner, img', t, i, k, b);
  }

  // Recording a fresh block in the indirect block.
  ghost function LinkIn(l: Layout, img: Image, ind: nat, k: nat, b: nat): Image
    requires ind < |img| && Whole(img[ind]) && NDIRECT < k < SLOTS && b < WORD
  {
    img[ind := SetWord(img[ind], k - NDIRECT - 1, b)]
  }

  lemma AttachIndirectAt(l: Layout, img: Image, table: seq<Inode>, owner: map<nat, Slot>, img': Image, b: nat, i: nat, k: nat, j: nat, m: nat)
    requires Inv(l, img, table, owner) && Allocated(l, img, img', b)
    requires i < l.ninodes && NDIRECT < k < SLOTS && j < l.ninodes && m < SLOTS
    requires table[i].addrs[NDIRECT] != 0
    ensures var ind := table[i].addrs[NDIRECT];
            l.DataStart() <= ind < l.size && ind != b && At(LinkIn(l, img', ind, k, b), table[j], m) == if j == i && m == k then b else At(img, table[j], m)
    ensures l.DataStart() <= b && b !in owner
  {
    hide Accurate, Dense, Taken, Word, SetWord;
    var ind := table[i].addrs[NDIRECT];
    AllocatedAt(l, img, table, owner, img', b, j, m);
    AllocatedAt(l, img, table, owner, img', b, j, NDIRECT);
    AllocatedAt(l, img, table, owner, img', b, i, NDIRECT);
    assert Recorded(img, table[i], owner, i, NDIRECT) && Recorded(img, table[j], owner, j, NDIRECT);
    if m > NDIRECT { SetWordAt(img'[ind], k - NDIRECT - 1, b, m - NDIRECT - 1); }
  }

  lemma AttachIndirect(l: Layout, img: Image, table: seq<Inode>, owner: map<nat, Slot>, img': Image, b: nat, i: nat, k: nat)
    requires Inv(l, img, table, owner) && Allocated(l, img, img', b)
    requires i < l.ninodes && NDIRECT < k < SLOTS && table[i].addrs[NDIRECT] != 0 && At(img, table[i], k) == 0
    ensures table[i].addrs[NDIRECT] < |img'| && b < WORD
    ensures Inv(l, LinkIn(l, img', table[i].addrs[NDIRECT], k, b), table, owner[b := Slot(i, k)])
  {
    hide Mapped, Dense, At, Word, SetWord, Marked;
    var ind := table[i].addrs[NDIRECT];
    AttachIndirectAt(l, img, table, owner, img', b, i, k, i, k);
    var r := LinkIn(l, img', ind, k, b);
    SetWordAt(img'[ind], k - NDIRECT - 1, b, 0);
    forall j, m | 0 <= j < l.ninodes && 0 <= m < SLOTS
      ensures At(r, table[j], m) == if j == i && m == k then b else At(img, table[j], m)
    {
      AttachIndirectAt(l, img, table, owner, img', b, i, k, j, m);
    }
    GainKeepsMaps(l, img, table, owner, r, table, i, k, b);
    TakenSame(l, img', r);
  }

  // The free map lives in its own blocks.
  lemma TakenSame(l: Layout, img: Image, img': Image)
    requires l.Good() && GoodImage(l, img) && GoodImage(l, img')
    requires forall c | 0 <= c < |img| && l.InBitmap(c) :: img'[c] == img[c]
    ensures forall b: nat | b < l.size :: Taken(l, img', b) <==> Taken(l, img, b)
  {
    forall b: nat | b < l.size
      ensures Taken(l, img', b) <==> Taken(l, img, b)
    {
      MapBlockInBitmap(l, b);
    }
  }

  // Allocation changes no byte of any file, even past its size.
  lemma AttachDirectBytes(l: Layout, img: Image, table: seq<Inode>, owner: map<nat, Slot>, img': Image, b: nat, i: nat, k: nat, j: nat, len: nat)
    requires Inv(l, img, table, owner) && Allocated(l, img, img', b)
    requires i < l.ninodes && k <= NDIRECT && table[i].addrs[k] == 0
    requires j < l.ninodes && len <= MAXFILE * BSIZE && DenseTo(img, table[j], len)
    ensures var t := Attach(table, i, k, b);
            DenseTo(img', t[j], len) && Flat(img', t[j], len) == Flat(img, table[j], len)
  {
    hide Mapped, Accurate, Dense, Allocated, At;
    var t := Attach(table, i, k, b);
    AllocatedSize(l, img, img', b);
    forall bn: nat | bn < MAXFILE && bn * BSIZE < len
      ensures var a := At(img, table[j], DataSlot(bn)); At(img', t[j], DataSlot(bn)) == a && a != 0 && (a < |img| ==> img'[a] == img[a])
    {
      AllocatedAt(l, img, table, owner, img', b, j, DataSlot(bn));
      AttachDirectAt(l, img, table, owner, img', b, i, k, j, DataSlot(bn));
      AttachedIsZero(img, table, i, k, j, DataSlot(bn));
    }
    SameBytes(img, table[j], img', t[j], len);
  }

  lemma AllocatedSize(l: Layout, img: Image, img': Image, b: nat)
    requires l.Good() && GoodImage(l, img) && Allocated(l, img, img', b)
    ensures |img'| == |img| && Whole(img'[b])
  {
  }

  lemma AttachedIsZero(img: Image, table: seq<Inode>, i: nat, k: nat, j: nat, m: nat)
    requires i < |table| && j < |table| && k <= NDIRECT && m < SLOTS && |table[i].addrs| == |table[j].addrs| == NDIRECT + 1
    requires table[i].addrs[k] == 0
    ensures j == i && m == k ==> At(img, table[j], m) == 0
  {
  }

  lemma AttachIndirectBytes(l: Layout, img: Image, table: seq<Inode>, owner: map<nat, Slot>, img': Image, b: nat, i: nat, k: nat, j: nat, len: nat)
    requires Inv(l, img, table, owner) && Allocated(l, img, img', b)
    requires i < l.ninodes && NDIRECT < k < SLOTS && table[i].addrs[NDIRECT] != 0 && At(img, table[i], k) == 0
    requires j < l.ninodes && len <= MAXFILE * BSIZE && DenseTo(img, table[j], len)
    ensures table[i].addrs[NDIRECT] < |img'| && b < WORD
    ensures var r := LinkIn(l, img', table[i].addrs[NDIRECT], k, b);
            DenseTo(r, table[j], len) && Flat(r, table[j], len) == Flat(img, table[j], len)
  {
    hide At, Mapped, Accurate, Dense, SetWord, Taken;
    var ind := table[i].addrs[NDIRECT];
    AllocatedSize(l, img, img', b);
    AttachIndirectAt(l, img, table, owner, img', b, i, k, i, k);
    var r := LinkIn(l, img', ind, k, b);
    forall bn: nat | bn < MAXFILE && bn * BSIZE < len
      ensures var a := At(img, table[j], DataSlot(bn)); At(r, table[j], DataSlot(bn)) == a && a != 0 && (a < |img| ==> r[a] == img[a])
    {
      AllocatedAt(l, img, table, owner, img', b, j, DataSlot(bn));
      AttachIndirectAt(l, img, table, owner, img', b, i, k, j, DataSlot(bn));
      NotIndirect(l, img, table, owner, i, j, bn);
    }
    SameBytes(img, table[j], r, table[j], len);
  }

  // A data block is nobody's indirect block.
  lemma NotIndirect(l: Layout, img: Image, table: seq<Inode>, owner: map<nat, Slot>, i: nat, j: nat, bn: nat)
    requires Inv(l, img, table, owner) && i < l.ninodes && j < l.ninodes && bn < MAXFILE
    ensures var a := At(img, table[j], DataSlot(bn)); a != 0 ==> l.DataStart() <= a < l.size && a != table[i].addrs[NDIRECT]
  {
    hide Accurate, Dense;
    assert Recorded(img, table[i], owner, i, NDIRECT) && Recorded(img, table[j], owner, j, DataSlot(bn));
  }

  // A block with d written over the bytes from o on.
  function Overlay(b: Block, o: nat, d: seq<byte>): (r: Block)
    requires Whole(b) && o + |d| <= BSIZE
    ensures Whole(r) && forall q | 0 <= q < BSIZE :: r.bytes[q] == if o <= q < o + |d| then d[q - o] else b.bytes[q]
  {
    Block(b.bytes[..o] + d + b.bytes[o + |d|..])
  }

  // A file with d written over the bytes from off on.
  ghost function Splice(f: seq<byte>, off: nat, d: seq<byte>): (r: seq<byte>)
    requires off <= |f|
    ensures |r| == if |f| < off + |d| then off + |d| else |f|
    ensures forall p | 0 <= p < |r| :: r[p] == if off <= p < off + |d| then d[p - off] else f[p]
  {
    f[..off] + d + (if off + |d| < |f| then f[off + |d|..] else [])
  }

  // Storing into a data block changes no address.
  lemma StoreAt(l: Layout, img: Image, table: seq<Inode>, owner: map<nat, Slot>, i: nat, bn: nat, blk: Block, j: nat, m: nat)
    requires Inv(l, img, table, owner) && i < l.ninodes && bn < MAXFILE && j < l.ninodes && m < SLOTS
    requires At(img, table[i], DataSlot(bn)) != 0 && Whole(blk)
    ensures var a := At(img, table[i], DataSlot(bn));
            l.DataStart() <= a < l.size && At(img[a := blk], table[j], m) == At(img, table[j], m)
  {
    hide Accurate, Dense;
    NotIndirect(l, img, table, owner, j, i, bn);
  }

  lemma StoreKeepsInv(l: Layout, img: Image, table: seq<Inode>, owner: map<nat, Slot>, i: nat, bn: nat, blk: Block)
    requires Inv(l, img, table, owner) && i < l.ninodes && bn < MAXFILE && At(img, table[i], DataSlot(bn)) != 0 && Whole(blk)
    ensures var a := At(img, table[i], DataSlot(bn));
            l.DataStart() <= a < l.size && Inv(l, img[a := blk], table, owner)
  {
    hide At, Taken;
    StoreAt(l, img, table, owner, i, bn, blk, i, 0);
    var r := img[At(img, table[i], DataSlot(bn)) := blk];
    forall j, m | 0 <= j < l.ninodes && 0 <= m < SLOTS
      ensures At(r, table[j], m) == At(img, table[j], m)
    {
      StoreAt(l, img, table, owner, i, bn, blk, j, m);
    }
    TakenSame(l, img, r);
    SameMaps(l, img, r, table, owner);
  }

  lemma SameMaps(l: Layout, img: Image, r: Image, table: seq<Inode>, owner: map<nat, Slot>)
    requires GoodTable(l, table) && Mapped(l, img, table, owner) && Dense(l, img, table)
    requires forall j, m | 0 <= j < l.ninodes && 0 <= m < SLOTS :: At(r, table[j], m) == At(img, table[j], m)
    ensures Mapped(l, r, table, owner) && Dense(l, r, table)
  {
    hide At;
    forall j, m | 0 <= j < l.ninodes && 0 <= m < SLOTS
      ensures Recorded(r, table[j], owner, j, m)
    {
      assert Recorded(img, table[j], owner, j, m);
    }
    forall c | c in owner
      ensures Owned(l, r, table, owner[c], c)
    {
      assert Owned(l, img, table, owner[c], c);
    }
    forall j | 0 <= j < l.ninodes
      ensures DenseTo(r, table[j], table[j].size)
    {
      assert DenseTo(img, table[j], table[j].size);
    }
  }

  // Different data slots are different blocks.
  lemma DataDiffers(l: Layout, img: Image, table: seq<Inode>, owner: map<nat, Slot>, i: nat, bn: nat, j: nat, m: nat)
    requires Inv(l, img, table, owner) && i < l.ninodes && j < l.ninodes && bn < MAXFILE && m < MAXFILE
    requires At(img, table[i], DataSlot(bn)) != 0 && (j != i || m != bn)
    ensures At(img, table[j], DataSlot(m)) != At(img, table[i], DataSlot(bn))
  {
    hide Accurate, Dense, At;
    assert Recorded(img, table[i], owner, i, DataSlot(bn)) && Recorded(img, table[j], owner, j, DataSlot(m));
  }

  lemma StoreElsewhere(l: Layout, img: Image, table: seq<Inode>, owner: map<nat, Slot>, i: nat, bn: nat, blk: Block, j: nat)
    requires Inv(l, img, table, owner) && i < l.ninodes && bn < MAXFILE && At(img, table[i], DataSlot(bn)) != 0 && Whole(blk)
    requires j < l.ninodes && j != i
    ensures var a := At(img, table[i], DataSlot(bn));
            a < |img| && Content(img[a := blk], table[j]) == Content(img, table[j])
  {
    hide Mapped, Accurate, Dense, At;
    StoreAt(l, img, table, owner, i, bn, blk, i, 0);
    SizeOf(l, img, table, owner);
    var r := img[At(img, table[i], DataSlot(bn)) := blk];
    forall m: nat | m < MAXFILE && m * BSIZE < table[j].size
      ensures var a := At(img, table[j], DataSlot(m)); At(r, table[j], DataSlot(m)) == a && (a < |img| ==> r[a] == img[a])
    {
      StoreAt(l, img, table, owner, i, bn, blk, j, DataSlot(m));
      DataDiffers(l, img, table, owner, i, bn, j, m);
    }
    SameBytes(img, table[j], r, table[j], table[j].size);
  }

  lemma SizeOf(l: Layout, img: Image, table: seq<Inode>, owner: map<nat, Slot>)
    requires Inv(l, img, table, owner)
    ensures |img| == l.size && GoodImage(l, img)
  {
  }

  // Storing d at off, within one block, splices d into the file.
  lemma StoreSplices(l: Layout, img: Image, table: seq<Inode>, owner: map<nat, Slot>, i: nat, off: nat, d: seq<byte>, len: nat)
    requires Inv(l, img, table, owner) && i < l.ninodes && off <= len <= MAXFILE * BSIZE
    requires 0 < |d| && off % BSIZE + |d| <= BSIZE && off < MAXFILE * BSIZE
    requires At(img, table[i], DataSlot(off / BSIZE)) != 0 && DenseTo(img, table[i], len)
    ensures var a := At(img, table[i], DataSlot(off / BSIZE));
            && a < |img| && Whole(img[a])
            && (var r, end := img[a := Overlay(img[a], off % BSIZE, d)], if len < off + |d| then off + |d| else len;
               && end <= MAXFILE * BSIZE && DenseTo(r, table[i], end)
               && Flat(r, table[i], end) == Splice(Flat(img, table[i], len), off, d))
  {
    hide Mapped, Accurate, Dense, At, Overlay, Splice;
    var bn := off / BSIZE;
    var a := At(img, table[i], DataSlot(bn));
    SizeOf(l, img, table, owner);
    StoreAt(l, img, table, owner, i, bn, img[0], i, 0);
    var r, end := img[a := Overlay(img[a], off % BSIZE, d)], if len < off + |d| then off + |d| else len;
    forall m: nat | m < MAXFILE && m * BSIZE < end
      ensures At(r, table[i], DataSlot(m)) == At(img, table[i], DataSlot(m)) != 0
      ensures m != bn ==> At(img, table[i], DataSlot(m)) != a
    {
      StoreAt(l, img, table, owner, i, bn, Overlay(img[a], off % BSIZE, d), i, DataSlot(m));
      if m != bn { DataDiffers(l, img, table, owner, i, bn, i, m); }
    }
    forall p | 0 <= p < end
      ensures Flat(r, table[i], end)[p] == Splice(Flat(img, table[i], len), off, d)[p]
    {
      StoredByte(img, table[i], off, d, r, p);
    }
  }

  lemma StoredByte(img: Image, ino: Inode, off: nat, d: seq<byte>, r: Image, p: nat)
    requires |ino.addrs| == NDIRECT + 1 && p < MAXFILE * BSIZE && off < MAXFILE * BSIZE && off % BSIZE + |d| <= BSIZE
    requires var a := At(img, ino, DataSlot(off / BSIZE)); a < |img| && Whole(img[a]) && r == img[a := Overlay(img[a], off % BSIZE, d)]
    requires At(r, ino, DataSlot(p / BSIZE)) == At(img, ino, DataSlot(p / BSIZE))
    requires p / BSIZE != off / BSIZE ==> At(img, ino, DataSlot(p / BSIZE)) != At(img, ino, DataSlot(off / BSIZE))
    ensures ByteAt(r, ino, p) == if off <= p < off + |d| then d[p - off] else ByteAt(img, ino, p)
  {
    hide At, Overlay;
    SameBlockRange(off, |d|, p);
    if p / BSIZE == off / BSIZE {
      assert p - off == p % BSIZE - off % BSIZE;
    }
  }

  lemma SameBlockRange(off: nat, n: nat, p: nat)
    requires off % BSIZE + n <= BSIZE
    ensures off <= p < off + n ==> p / BSIZE == off / BSIZE
  {
  }

  // balloc's two writes.
  ghost function MarkAndZero(l: Layout, img: Image, b: nat): Image
    requires l.Good() && GoodImage(l, img) && b < l.size
  {
    MapBlockInBitmap(l, b);
    img[l.MapBlock(b) := MarkBit(img[l.MapBlock(b)], b % BPB)][b := Zero()]
  }

  // b is the first block of a map block.
  predicate FirstOfMap(b: nat) { b % BPB == 0 }

  lemma FirstOfNext(b: nat)
    requires FirstOfMap(b)
    ensures FirstOfMap(b + BPB)
  {
  }

  lemma MapBit(l: Layout, b: nat, bi: nat)
    requires b % BPB == 0 && bi < BPB
    ensures l.MapBlock(b + bi) == l.MapBlock(b) && (b + bi) % BPB == bi
  {
  }

  // Every block below n is in use.
  ghost predicate TakenBelow(l: Layout, img: Image, n: nat)
    requires l.Good() && GoodImage(l, img)
  {
    forall c: nat | c < n && c < l.size :: Taken(l, img, c)
  }

  // balloc has looked at the first bi bits of the map block for b.
  lemma ScanStep(l: Layout, img: Image, b: nat, bi: nat)
    requires l.Good() && GoodImage(l, img) && b < l.size && FirstOfMap(b) && bi <= BPB
    requires l.MapBlock(b) < |img| && TakenBelow(l, img, b) && forall c: nat | c < bi :: BlockBit(img[l.MapBlock(b)], c)
    ensures TakenBelow(l, img, b + bi) && (b + bi >= l.size ==> TakenBelow(l, img, b + BPB))
    ensures bi < BPB && b + bi < l.size ==>
      l.MapBlock(b + bi) == l.MapBlock(b) && (b + bi) % BPB == bi && (Taken(l, img, b + bi) <==> BlockBit(img[l.MapBlock(b)], bi))
  {
    hide BlockBit;
    forall c: nat | b <= c < b + bi && c < l.size
      ensures Taken(l, img, c)
    {
      MapBit(l, b, c - b);
      MapBlockInBitmap(l, c);
    }
    if bi < BPB { MapBit(l, b, bi); }
  }

  // Two blocks with the same bit in the same map block are the same.
  lemma SameBit(l: Layout, b: nat, c: nat)
    ensures l.MapBlock(b) == l.MapBlock(c) && b % BPB == c % BPB ==> b == c
  {
  }

  lemma MarkAllocates(l: Layout, img: Image, b: nat)
    requires l.Good() && GoodImage(l, img) && l.DataStart() <= b < l.size && !Taken(l, img, b)
    ensures Allocated(l, img, MarkAndZero(l, img, b), b)
  {
    MapBlockInBitmap(l, b);
    BitsAt(img[l.MapBlock(b)], b % BPB, 0);
    var r := MarkAndZero(l, img, b);
    forall c: nat | c < l.size
      ensures Taken(l, r, c) <==> Taken(l, img, c) || c == b
    {
      MapBlockInBitmap(l, c);
      SameBit(l, b, c);
      BitsAt(img[l.MapBlock(b)], b % BPB, c % BPB);
    }
  }

  // A block that was marked is now free, and nothing else has changed.
  ghost predicate Freed(l: Layout, img: Image, img': Image, b: nat)
    requires l.Good() && GoodImage(l, img)
  {
    && GoodImage(l, img') && b < l.size
    && (forall c: nat | c < l.size :: Taken(l, img', c) <==> Taken(l, img, c) && c != b)
    && forall c | 0 <= c < |img| && !l.InBitmap(c) :: img'[c] == img[c]
  }

  lemma ClearFrees(l: Layout, img: Image, b: nat)
    requires l.Good() && GoodImage(l, img) && b < l.size
    ensures l.MapBlock(b) < |img| && Freed(l, img, img[l.MapBlock(b) := ClearBit(img[l.MapBlock(b)], b % BPB)], b)
  {
    MapBlockInBitmap(l, b);
    BitsAt(img[l.MapBlock(b)], b % BPB, 0);
    var r := img[l.MapBlock(b) := ClearBit(img[l.MapBlock(b)], b % BPB)];
    forall c: nat | c < l.size
      ensures Taken(l, r, c) <==> Taken(l, img, c) && c != b
    {
      MapBlockInBitmap(l, c);
      SameBit(l, b, c);
      BitsAt(img[l.MapBlock(b)], b % BPB, c % BPB);
    }
  }

  // The first word of a struct dinode that iupdate writes is its size; the addresses follow.
  function SizeWord(inum: nat): nat { 16 * (inum % IPB) + 2 }

  predicate HoldsInode(b: Block, inum: nat, ino: Inode)
    requires |ino.addrs| == NDIRECT + 1
  {
    && Whole(b)
    && Word(b, SizeWord(inum)) == ino.size
    && forall t | 0 <= t <= NDIRECT :: Word(b, SizeWord(inum) + 1 + t) == ino.addrs[t]
  }

  // Every inode but the dirty one is on the disk as it is in the table.
  ghost predicate Synced(l: Layout, img: Image, table: seq<Inode>, dirty: int)
    requires l.Good() && GoodImage(l, img) && GoodTable(l, table)
  {
    forall j | 0 <= j < l.ninodes && j != dirty :: l.InodeBlock(j) < |img| && HoldsInode(img[l.InodeBlock(j)], j, table[j])
  }

  lemma InodeBlockInArea(l: Layout, j: nat)
    requires l.Good() && j < l.ninodes
    ensures l.InInodes(l.InodeBlock(j)) && l.InodeBlock(j) < l.bmapStart
  {
  }

  lemma SyncedSame(l: Layout, img: Image, table: seq<Inode>, img': Image, table': seq<Inode>, dirty: int)
    requires l.Good() && GoodImage(l, img) && GoodTable(l, table) && GoodImage(l, img') && GoodTable(l, table')
    requires Synced(l, img, table, dirty) && InodesSame(l, img, img')
    requires forall j | 0 <= j < l.ninodes && j != dirty :: table'[j] == table[j]
    ensures Synced(l, img', table', dirty)
  {
    forall j | 0 <= j < l.ninodes && j != dirty
      ensures l.InodeBlock(j) < |img'| && HoldsInode(img'[l.InodeBlock(j)], j, table'[j])
    {
      InodeBlockInArea(l, j);
    }
  }

  // Writing a dinode leaves its neighbours alone.
  ghost predicate OnlyInode(b: Block, b': Block, inum: nat) {
    && Whole(b) && Whole(b')
    && forall w | 0 <= w < BSIZE / 4 && !(SizeWord(inum) <= w < SizeWord(inum) + 14) :: Word(b', w) == Word(b, w)
  }

  lemma InodeWrites(l: Layout, img: Image, table: seq<Inode>, i: nat, b: Block)
    requires l.Good() && GoodImage(l, img) && GoodTable(l, table) && i < l.ninodes
    requires Synced(l, img, table, i) && HoldsInode(b, i, table[i]) && OnlyInode(img[l.InodeBlock(i)], b, i)
    ensures l.InodeBlock(i) < |img| && GoodImage(l, img[l.InodeBlock(i) := b]) && Synced(l, img[l.InodeBlock(i) := b], table, -1)
  {
    hide Word, HoldsInode;
    var r := img[l.InodeBlock(i) := b];
    forall j | 0 <= j < l.ninodes
      ensures l.InodeBlock(j) < |img| && HoldsInode(r[l.InodeBlock(j)], j, table[j])
    {
      if j != i && l.InodeBlock(j) == l.InodeBlock(i) { NeighbourKept(img[l.InodeBlock(i)], b, i, j, table[j]); }
    }
  }

  lemma NeighbourKept(b: Block, b': Block, i: nat, j: nat, ino: Inode)
    requires OnlyInode(b, b', i) && |ino.addrs| == NDIRECT + 1 && HoldsInode(b, j, ino)
    requires i / IPB == j / IPB && i != j
    ensures HoldsInode(b', j, ino)
  {
    hide Word;
    assert i % IPB != j % IPB;
  }

  // Metadata writes outside the free map change no file.
  lemma MetadataKeepsFiles(l: Layout, img: Image, table: seq<Inode>, owner: map<nat, Slot>, img': Image)
    requires Inv(l, img, table, owner) && GoodImage(l, img')
    requires forall c | 0 <= c < |img| && (l.InBitmap(c) || c >= l.DataStart()) :: img'[c] == img[c]
    ensures Inv(l, img', table, owner)
    ensures forall j | 0 <= j < l.ninodes :: Content(img', table[j]) == Content(img, table[j])
  {
    hide Taken;
    forall j, m | 0 <= j < l.ninodes && 0 <= m < SLOTS
      ensures At(img', table[j], m) == At(img, table[j], m)
      ensures var a := At(img, table[j], m); a != 0 ==> l.DataStart() <= a < l.size
    {
      assert Recorded(img, table[j], owner, j, m) && Recorded(img, table[j], owner, j, NDIRECT);
    }
    TakenSame(l, img, img');
    SameMaps(l, img, img', table, owner);
    forall j | 0 <= j < l.ninodes
      ensures Content(img', table[j]) == Content(img, table[j])
    {
      hide At;
      assert DenseTo(img, table[j], table[j].size);
      SameBytes(img, table[j], img', table[j], table[j].size);
    }
  }

  // Inode i may have gained blocks; otherwise every file, read to any length it had no
  // holes below, has the bytes it had.
  ghost predicate Grown(l: Layout, img: Image, table: seq<Inode>, img': Image, table': seq<Inode>, i: nat)
    requires GoodTable(l, table) && GoodTable(l, table')
  {
    && InodesSame(l, img, img')
    && (forall j | 0 <= j < l.ninodes :: table'[j].size == table[j].size && (j != i ==> table'[j] == table[j]))
    && (forall j, len: nat | 0 <= j < l.ninodes && len <= MAXFILE * BSIZE && DenseTo(img, table[j], len) ::
          DenseTo(img', table'[j], len) && Flat(img', table'[j], len) == Flat(img, table[j], len))
  }

  ghost predicate Exhausted(l: Layout, img: Image)
    requires l.Good() && GoodImage(l, img)
  {
    forall b: nat | b < l.size :: Taken(l, img, b)
  }

  lemma AttachDirectGrows(l: Layout, img: Image, table: seq<Inode>, owner: map<nat, Slot>, img': Image, b: nat, i: nat, k: nat)
    requires Inv(l, img, table, owner) && Allocated(l, img, img', b)
    requires i < l.ninodes && k <= NDIRECT && table[i].addrs[k] == 0
    ensures Inv(l, img', Attach(table, i, k, b), owner[b := Slot(i, k)])
    ensures Grown(l, img, table, img', Attach(table, i, k, b), i)
    ensures l.DataStart() <= b
  {
    AttachDirect(l, img, table, owner, img', b, i, k);
    AttachDirectAt(l, img, table, owner, img', b, i, k, i, k);
    hide Inv, Allocated, DenseTo;
    forall j, len: nat | 0 <= j < l.ninodes && len <= MAXFILE * BSIZE && DenseTo(img, table[j], len)
      ensures DenseTo(img', Attach(table, i, k, b)[j], len) && Flat(img', Attach(table, i, k, b)[j], len) == Flat(img, table[j], len)
    {
      AttachDirectBytes(l, img, table, owner, img', b, i, k, j, len);
    }
    AllocatedKeepsInodes(l, img, img', b);
  }

  lemma AllocatedKeepsInodes(l: Layout, img: Image, img': Image, b: nat)
    requires l.Good() && GoodImage(l, img) && Allocated(l, img, img', b) && l.DataStart() <= b
    ensures InodesSame(l, img, img')
  {
    hide Taken, Whole, Zero;
  }

  lemma LinkKeepsInodes(l: Layout, img: Image, img': Image, b: nat, ind: nat, k: nat)
    requires l.Good() && GoodImage(l, img) && Allocated(l, img, img', b) && l.DataStart() <= b < WORD
    requires l.DataStart() <= ind < l.size && NDIRECT < k < SLOTS
    ensures InodesSame(l, img, LinkIn(l, img', ind, k, b))
  {
    hide Taken, SetWord, Zero, Whole;
    AllocatedKeepsInodes(l, img, img', b);
    InodesBelowData(l, ind);
  }

  lemma InodesBelowData(l: Layout, c: nat)
    requires l.Good() && l.DataStart() <= c
    ensures !l.InInodes(c)
  {
  }

  lemma AttachIndirectGrows(l: Layout, img: Image, table: seq<Inode>, owner: map<nat, Slot>, img': Image, b: nat, i: nat, k: nat)
    requires Inv(l, img, table, owner) && Allocated(l, img, img', b)
    requires i < l.ninodes && NDIRECT < k < SLOTS && table[i].addrs[NDIRECT] != 0 && At(img, table[i], k) == 0
    ensures table[i].addrs[NDIRECT] < |img'| && b < WORD && l.DataStart() <= b
    ensures var r := LinkIn(l, img', table[i].addrs[NDIRECT], k, b);
            && Inv(l, r, table, owner[b := Slot(i, k)])
            && Grown(l, img, table, r, table, i)
            && At(r, table[i], k) == b
  {
    AttachIndirect(l, img, table, owner, img', b, i, k);
    AttachIndirectAt(l, img, table, owner, img', b, i, k, i, k);
    LinkKeepsInodes(l, img, img', b, table[i].addrs[NDIRECT], k);
    var r := LinkIn(l, img', table[i].addrs[NDIRECT], k, b);
    hide Inv, Allocated, DenseTo, At, LinkIn, InodesSame;
    forall j, len: nat | 0 <= j < l.ninodes && len <= MAXFILE * BSIZE && DenseTo(img, table[j], len)
      ensures DenseTo(r, table[j], len) && Flat(r, table[j], len) == Flat(img, table[j], len)
    {
      AttachIndirectBytes(l, img, table, owner, img', b, i, k, j, len);
    }
  }

  lemma GrownSame(l: Layout, img: Image, table: seq<Inode>, owner: map<nat, Slot>, i: nat)
    requires Inv(l, img, table, owner)
    ensures GoodTable(l, table) && Grown(l, img, table, img, table, i)
  {
  }

  lemma GrownIsSynced(l: Layout, img: Image, table: seq<Inode>, owner: map<nat, Slot>, img': Image, table': seq<Inode>, owner': map<nat, Slot>, i: nat)
    requires Inv(l, img, table, owner) && Inv(l, img', table', owner')
    requires Grown(l, img, table, img', table', i) && Synced(l, img, table, i)
    ensures Synced(l, img', table', i)
  {
    SyncedSame(l, img, table, img', table', i);
  }

  lemma TakenBelowStarts(l: Layout, img: Image)
    requires l.Good() && GoodImage(l, img)
    ensures TakenBelow(l, img, 0) && FirstOfMap(0)
  {
  }

  lemma TakenBelowAll(l: Layout, img: Image, n: nat)
    requires l.Good() && GoodImage(l, img) && n >= l.size && TakenBelow(l, img, n)
    ensures Exhausted(l, img)
  {
  }

  lemma AddressInData(l: Layout, img: Image, table: seq<Inode>, owner: map<nat, Slot>, i: nat, k: nat)
    requires Inv(l, img, table, owner) && i < l.ninodes && k < SLOTS
    ensures At(img, table[i], k) != 0 ==> l.DataStart() <= At(img, table[i], k) < l.size
  {
    assert Recorded(img, table[i], owner, i, k);
  }

  lemma GrownTwice(l: Layout, img0: Image, t0: seq<Inode>, img1: Image, t1: seq<Inode>, img2: Image, t2: seq<Inode>, i: nat)
    requires GoodTable(l, t0) && GoodTable(l, t1) && GoodTable(l, t2)
    requires Grown(l, img0, t0, img1, t1, i) && Grown(l, img1, t1, img2, t2, i)
    ensures Grown(l, img0, t0, img2, t2, i)
  {
    hide DenseTo;
  }

  // A word of the indirect block is an address slot.
  lemma IndirectWord(l: Layout, img: Image, table: seq<Inode>, owner: map<nat, Slot>, i: nat, k: nat)
    requires Inv(l, img, table, owner) && i < l.ninodes && NDIRECT < k < SLOTS && table[i].addrs[NDIRECT] != 0
    ensures var ind := table[i].addrs[NDIRECT];
            l.DataStart() <= ind < l.size && Whole(img[ind]) && At(img, table[i], k) == Word(img[ind], k - NDIRECT - 1)
  {
    AddressInData(l, img, table, owner, i, NDIRECT);
  }

  // balloc leaves the indirect block alone.
  lemma AllocatedKeepsIndirect(l: Layout, img: Image, table: seq<Inode>, owner: map<nat, Slot>, img': Image, b: nat, i: nat)
    requires Inv(l, img, table, owner) && Allocated(l, img, img', b) && i < l.ninodes && table[i].addrs[NDIRECT] != 0
    ensures var ind := table[i].addrs[NDIRECT]; ind < |img| && ind < |img'| && img'[ind] == img[ind]
  {
    AllocatedAt(l, img, table, owner, img', b, i, NDIRECT);
  }

  // One turn of readi's loop reads the bytes of the file.
  lemma ReadPiece(l: Layout, img: Image, table: seq<Inode>, owner: map<nat, Slot>, i: nat, off: nat, m: nat)
    requires Inv(l, img, table, owner) && i < l.ninodes && 0 < m && off % BSIZE + m <= BSIZE && off + m <= table[i].size
    ensures var a := At(img, table[i], DataSlot(off / BSIZE));
            && 0 < a < |img| && Whole(img[a])
            && img[a].bytes[off % BSIZE..off % BSIZE + m] == Content(img, table[i])[off..off + m]
  {
    hide At, Mapped, Accurate;
    AddressInData(l, img, table, owner, i, DataSlot(off / BSIZE));
    assert DenseTo(img, table[i], table[i].size);
    assert off / BSIZE * BSIZE <= off;
    var a, f := At(img, table[i], DataSlot(off / BSIZE)), Content(img, table[i]);
    var x, y := f[off..off + m], img[a].bytes[off % BSIZE..off % BSIZE + m];
    forall q | 0 <= q < m
      ensures x[q] == y[q]
    {
      SameBlockRange(off, m, off + q);
      assert (off + q) % BSIZE == off % BSIZE + q;
      assert f[off + q] == ByteAt(img, table[i], off + q);
    }
    assert x == y;
  }

  lemma SpliceTwice(f: seq<byte>, off: nat, d: seq<byte>, e: seq<byte>)
    requires off <= |f|
    ensures Splice(Splice(f, off, d), off + |d|, e) == Splice(f, off, d + e)
  {
  }

  // What writei has achieved when the first n bytes of src are written at off: the file,
  // read as far as it now reaches, has them spliced in; every other file is untouched.
  ghost predicate Wrote(l: Layout, img0: Image, t0: seq<Inode>, img: Image, table: seq<Inode>, i: nat, off: nat, d: seq<byte>)
    requires GoodTable(l, t0) && GoodTable(l, table) && i < l.ninodes
  {
    var len := Reach(t0[i].size, off + |d|);
    && off <= t0[i].size && len <= MAXFILE * BSIZE
    && table[i].size == t0[i].size
    && InodesSame(l, img0, img)
    && OthersSame(l, img0, t0, img, table, i)
    && DenseTo(img, table[i], len)
    && Flat(img, table[i], len) == Splice(Content(img0, t0[i]), off, d)
  }

  function Reach(size: nat, end: nat): nat { if size < end then end else size }

  lemma WroteNothing(l: Layout, img: Image, table: seq<Inode>, owner: map<nat, Slot>, i: nat, off: nat)
    requires Inv(l, img, table, owner) && i < l.ninodes && off <= table[i].size
    ensures GoodTable(l, table) && Wrote(l, img, table, img, table, i, off, [])
  {
    hide At;
    assert DenseTo(img, table[i], table[i].size);
  }

  // bmap keeps what was written.
  lemma WroteGrows(l: Layout, img0: Image, t0: seq<Inode>, img: Image, table: seq<Inode>, owner: map<nat, Slot>, img': Image, table': seq<Inode>, i: nat, off: nat, d: seq<byte>)
    requires GoodTable(l, t0) && Inv(l, img, table, owner) && GoodTable(l, table') && i < l.ninodes
    requires Wrote(l, img0, t0, img, table, i, off, d) && Grown(l, img, table, img', table', i)
    ensures Wrote(l, img0, t0, img', table', i, off, d)
  {
    hide Mapped, Accurate, At, DenseTo, Splice;
    forall j | 0 <= j < l.ninodes && j != i
      ensures table'[j] == t0[j] && Content(img', table'[j]) == Content(img0, t0[j])
    {
      assert DenseTo(img, table[j], table[j].size);
    }
  }

  // One turn of writei's loop: in the file it writes,
  lemma FlatMore(l: Layout, img0: Image, t0: seq<Inode>, img: Image, table: seq<Inode>, owner: map<nat, Slot>, i: nat, off: nat, d: seq<byte>, e: seq<byte>)
    requires GoodTable(l, t0) && Inv(l, img, table, owner) && i < l.ninodes && Wrote(l, img0, t0, img, table, i, off, d)
    requires 0 < |e| && (off + |d|) % BSIZE + |e| <= BSIZE && off + |d| + |e| <= MAXFILE * BSIZE
    requires At(img, table[i], DataSlot((off + |d|) / BSIZE)) != 0
    ensures var a, len := At(img, table[i], DataSlot((off + |d|) / BSIZE)), Reach(t0[i].size, off + |d + e|);
            && a < |img| && Whole(img[a]) && len <= MAXFILE * BSIZE
            && (var r := img[a := Overlay(img[a], (off + |d|) % BSIZE, e)];
               DenseTo(r, table[i], len) && Flat(r, table[i], len) == Splice(Content(img0, t0[i]), off, d + e))
  {
    hide Mapped, Accurate, Dense, At, DenseTo, Overlay, Splice, OthersSame, InodesSame;
    StoreSplices(l, img, table, owner, i, off + |d|, e, Reach(t0[i].size, off + |d|));
    SpliceTwice(Content(img0, t0[i]), off, d, e);
  }

  // and in the others.
  lemma OthersMore(l: Layout, img0: Image, t0: seq<Inode>, img: Image, table: seq<Inode>, owner: map<nat, Slot>, i: nat, bn: nat, blk: Block)
    requires GoodTable(l, t0) && Inv(l, img, table, owner) && i < l.ninodes && bn < MAXFILE && Whole(blk) && OthersSame(l, img0, t0, img, table, i)
    requires At(img, table[i], DataSlot(bn)) != 0
    ensures var a := At(img, table[i], DataSlot(bn));
            l.DataStart() <= a < |img| && OthersSame(l, img0, t0, img[a := blk], table, i) && InodesSame(l, img, img[a := blk])
  {
    hide Mapped, Accurate, Dense, At, Content;
    AddressInData(l, img, table, owner, i, DataSlot(bn));
    forall j | 0 <= j < l.ninodes && j != i
      ensures Content(img[At(img, table[i], DataSlot(bn)) := blk], table[j]) == Content(img0, t0[j])
    {
      StoreElsewhere(l, img, table, owner, i, bn, blk, j);
    }
  }

  lemma WroteMore(l: Layout, img0: Image, t0: seq<Inode>, img: Image, table: seq<Inode>, owner: map<nat, Slot>, i: nat, off: nat, d: seq<byte>, e: seq<byte>)
    requires GoodTable(l, t0) && Inv(l, img, table, owner) && i < l.ninodes && Wrote(l, img0, t0, img, table, i, off, d)
    requires 0 < |e| && (off + |d|) % BSIZE + |e| <= BSIZE && off + |d| + |e| <= MAXFILE * BSIZE
    requires At(img, table[i], DataSlot((off + |d|) / BSIZE)) != 0
    ensures var a := At(img, table[i], DataSlot((off + |d|) / BSIZE));
            && l.DataStart() <= a < |img| && Whole(img[a])
            && (var r := img[a := Overlay(img[a], (off + |d|) % BSIZE, e)];
               Inv(l, r, table, owner) && Wrote(l, img0, t0, r, table, i, off, d + e))
  {
    hide Mapped, Accurate, Dense, At, DenseTo, Overlay, Splice, OthersSame, Content;
    var bn := (off + |d|) / BSIZE;
    FlatMore(l, img0, t0, img, table, owner, i, off, d, e);
    var blk := Overlay(img[At(img, table[i], DataSlot(bn))], (off + |d|) % BSIZE, e);
    StoreKeepsInv(l, img, table, owner, i, bn, blk);
    OthersMore(l, img0, t0, img, table, owner, i, bn, blk);
  }

  // The new size, once the bytes are there.
  lemma ResizeKeepsInv(l: Layout, img: Image, table: seq<Inode>, owner: map<nat, Slot>, i: nat, size: nat)
    requires Inv(l, img, table, owner) && i < l.ninodes && size <= MAXFILE * BSIZE && DenseTo(img, table[i], size)
    ensures Inv(l, img, table[i := table[i].(size := size)], owner)
  {
    hide Taken;
    var t := table[i := table[i].(size := size)];
    forall j, m | 0 <= j < l.ninodes && 0 <= m < SLOTS
      ensures At(img, t[j], m) == At(img, table[j], m)
    {
    }
    hide At;
    forall j, m | 0 <= j < l.ninodes && 0 <= m < SLOTS
      ensures Recorded(img, t[j], owner, j, m)
    {
      assert Recorded(img, table[j], owner, j, m);
    }
    forall c | c in owner
      ensures Owned(l, img, t, owner[c], c)
    {
      assert Owned(l, img, table, owner[c], c);
    }
    forall j | 0 <= j < l.ninodes
      ensures DenseTo(img, t[j], t[j].size)
    {
      assert DenseTo(img, table[j], table[j].size);
    }
  }

  // How many blocks a write from off to end touches.
  function BlocksTouched(off: nat, end: nat): nat
    requires off <= end
  {
    if off == end then 0 else (end - 1) / BSIZE - off / BSIZE + 1
  }

  // k blocks are touched up to end, and m of them may have to be allocated.
  predicate CountedTo(off: nat, end: nat, k: nat, m: nat)
    requires off <= end
  {
    k == BlocksTouched(off, end) && m == NewBlocks(off, k)
  }

  // So it is after tot of n bytes, and every turn but the last ends at the end of a block.
  predicate Counted(n: nat, off: nat, tot: nat, k: nat, m: nat) {
    CountedTo(off, off + tot, k, m) && (tot == 0 <==> k == 0) && (tot == n || tot == 0 || (off + tot) % BSIZE == 0)
  }

  lemma TurnCounts(n: nat, off: nat, tot: nat, k: nat, m: nat)
    requires tot < n && Counted(n, off, tot, k, m)
    ensures var next, maps := tot + Piece(n - tot, off + tot), m + if tot > 0 || off % BSIZE == 0 then 1 else 0;
            Counted(n, off, next, k + 1, maps) && CountedTo(off, off + next, k + 1, maps)
  {
    hide Piece, BlocksTouched;
    var pos, size := off + tot, Piece(n - tot, off + tot);
    TouchOneMore(off, pos, size);
    NextBlock(pos, size);
    if tot + size != n { BlockEnds(pos, size); }
  }

  lemma CountsNone(n: nat, off: nat)
    ensures Counted(n, off, 0, 0, 0)
  {
  }

  lemma BlockEnds(p: nat, m: nat)
    requires p % BSIZE + m == BSIZE
    ensures (p + m) % BSIZE == 0
  {
    assert p + m == (p / BSIZE + 1) * BSIZE;
  }

  lemma TouchOneMore(off: nat, p: nat, m: nat)
    requires off <= p && 0 < m && p % BSIZE + m <= BSIZE && (p == off || p % BSIZE == 0)
    ensures BlocksTouched(off, p + m) == BlocksTouched(off, p) + 1
  {
  }

  // Where the piece begins in which the copy fails that can take given bytes.
  function PieceStart(off: nat, given: nat): nat {
    var b := (off + given) / BSIZE * BSIZE;
    if b > off then b else off
  }

  // The copy fails inside a block, after some bytes of it, and the file reaches beyond the
  // first of these.
  predicate Tears(size: nat, n: nat, off: nat, given: nat) {
    given < n && PieceStart(off, given) < off + given && PieceStart(off, given) < size
  }

  // How a write of n bytes ends that stops after tot, with part more copied.
  ghost predicate StopsAt(size: nat, n: nat, off: nat, given: nat, tot: nat, part: nat) {
    && tot <= given
    && (part > 0 ==> off + tot == PieceStart(off, given))
    && (tot < n && off + tot < size ==> tot + part == given)
    && (Tears(size, n, off, given) ==> part > 0)
  }

  lemma StopsHere(size: nat, n: nat, off: nat, given: nat, tot: nat, part: nat, k: nat, m: nat)
    requires tot < n && tot <= given && Counted(n, off, tot, k, m)
    requires part > 0 ==> tot + part == given && part < Piece(n - tot, off + tot)
    requires off + tot < size ==> tot + part == given
    ensures StopsAt(size, n, off, given, tot, part)
  {
    var pos, start := off + tot, PieceStart(off, given);
    assert tot > 0 ==> pos / BSIZE * BSIZE == pos;
    assert pos / BSIZE * BSIZE <= (off + given) / BSIZE * BSIZE by { assert pos / BSIZE <= (off + given) / BSIZE; }
    if part > 0 { SameBlockStart(pos, part); }
  }

  lemma NextBlock(pos: nat, m: nat)
    ensures pos % BSIZE + m == BSIZE ==> (pos + m) / BSIZE == pos / BSIZE + 1
  {
    if pos % BSIZE + m == BSIZE { assert pos + m == (pos / BSIZE + 1) * BSIZE; }
  }

  lemma SameBlockStart(pos: nat, part: nat)
    requires pos % BSIZE + part < BSIZE
    ensures (pos + part) / BSIZE == pos / BSIZE
  {
  }

  lemma StopsNever(size: nat, n: nat, off: nat, given: nat)
    requires n <= given
    ensures StopsAt(size, n, off, given, n, 0)
  {
  }

  lemma StopMeans(size: nat, n: nat, off: nat, given: nat, tot: nat, part: nat)
    requires StopsAt(size, n, off, given, tot, part)
    ensures tot <= given && (tot < n && off + tot < size ==> tot + part == given)
  {
  }

  // So the bytes that are seen but not counted are those of a torn block, as far as the file
  // reaches.
  lemma SeenIs(size: nat, n: nat, off: nat, given: nat, tot: nat, part: nat, saved: nat)
    requires off <= size && StopsAt(size, n, off, given, tot, part) && (part > 0 ==> tot + part == given < n)
    requires saved == 0 || saved == part
    requires part > 0 && off + tot < size ==> saved == 0
    ensures Visible(size, off, tot + saved, tot) == tot
    ensures Visible(size, off, tot + part, tot) == Seen(size, n, off, given, tot)
    ensures Tears(size, n, off, given) ==> off + tot == PieceStart(off, given)
    ensures tot <= Seen(size, n, off, given, tot) && (tot < Seen(size, n, off, given, tot) <==> Tears(size, n, off, given))
  {
    VisibleIs(size, off, tot + part, tot);
    VisibleIs(size, off, tot + saved, tot);
  }

  // The bytes that can be read of those written or copied.
  function Seen(size: nat, n: nat, off: nat, given: nat, tot: nat): nat
    requires off <= size
  {
    if !Tears(size, n, off, given) then tot else if off + given <= size then given else size - off
  }

  // How many of n blocks touched from off on may have to be allocated: the file already
  // has the first one when off is inside a block.
  function NewBlocks(off: nat, n: nat): nat { if off % BSIZE == 0 || n == 0 then n else n - 1 }

  lemma FirstIsThere(l: Layout, img: Image, table: seq<Inode>, owner: map<nat, Slot>, i: nat, off: nat)
    requires Inv(l, img, table, owner) && i < l.ninodes && off <= table[i].size && (off < table[i].size || off % BSIZE != 0)
    ensures off / BSIZE < MAXFILE && At(img, table[i], DataSlot(off / BSIZE)) != 0
  {
    hide At, Mapped, Accurate;
    assert DenseTo(img, table[i], table[i].size);
  }

  // How many blocks n bytes from off can touch.
  function TouchLimit(off: nat, n: nat): nat { (off % BSIZE + n + BSIZE - 1) / BSIZE }

  lemma TouchBound(off: nat, end: nat, n: nat)
    requires off <= end <= off + n
    ensures BlocksTouched(off, end) <= TouchLimit(off, n)
  {
  }

  // "off + n < off" on uints
  predicate Wraps(off: nat, n: nat) { (off + n) % WORD < off }

  lemma WrapsWhenLarge(off: nat, n: nat)
    requires off < WORD && n < WORD
    ensures Wraps(off, n) <==> off + n >= WORD
  {
  }

  // min of what is left and what fits in the block
  function Piece(left: nat, off: nat): (m: nat)
    ensures m <= left && off % BSIZE + m <= BSIZE && (left > 0 ==> m > 0)
    ensures m == left || off % BSIZE + m == BSIZE
  {
    if left < BSIZE - off % BSIZE then left else BSIZE - off % BSIZE
  }

  lemma SizeOk(l: Layout, img: Image, table: seq<Inode>, owner: map<nat, Slot>, i: nat)
    requires Inv(l, img, table, owner) && i < l.ninodes
    ensures |table| == l.ninodes && |table[i].addrs| == NDIRECT + 1 && table[i].size <= MAXFILE * BSIZE
    ensures |Content(img, table[i])| == table[i].size
  {
  }

  // iupdate's block, with the size and the first t addresses in place.
  ghost predicate PartInode(b0: Block, b: Block, inum: nat, ino: Inode, t: nat)
    requires |ino.addrs| == NDIRECT + 1 && t <= NDIRECT + 1
  {
    && OnlyInode(b0, b, inum) && Word(b, SizeWord(inum)) == ino.size
    && forall u | 0 <= u < t :: Word(b, SizeWord(inum) + 1 + u) == ino.addrs[u]
  }

  lemma PartStarts(b: Block, inum: nat, ino: Inode)
    requires Whole(b) && |ino.addrs| == NDIRECT + 1 && ino.size < WORD
    ensures PartInode(b, SetWord(b, SizeWord(inum), ino.size), inum, ino, 0)
  {
    hide Word, SetWord;
    forall w | 0 <= w < BSIZE / 4
      ensures var r := SetWord(b, SizeWord(inum), ino.size); Whole(r) && Word(r, w) == if w == SizeWord(inum) then ino.size else Word(b, w)
    {
      SetWordAt(b, SizeWord(inum), ino.size, w);
    }
    assert Whole(SetWord(b, SizeWord(inum), ino.size)) by { SetWordAt(b, SizeWord(inum), ino.size, 0); }
  }

  lemma PartStep(b0: Block, b: Block, inum: nat, ino: Inode, t: nat)
    requires |ino.addrs| == NDIRECT + 1 && t <= NDIRECT && PartInode(b0, b, inum, ino, t) && ino.addrs[t] < WORD
    ensures PartInode(b0, SetWord(b, SizeWord(inum) + 1 + t, ino.addrs[t]), inum, ino, t + 1)
  {
    hide Word, SetWord;
    var k := SizeWord(inum) + 1 + t;
    forall w | 0 <= w < BSIZE / 4
      ensures var r := SetWord(b, k, ino.addrs[t]); Whole(r) && Word(r, w) == if w == k then ino.addrs[t] else Word(b, w)
    {
      SetWordAt(b, k, ino.addrs[t], w);
    }
    assert Whole(SetWord(b, k, ino.addrs[t])) by { SetWordAt(b, k, ino.addrs[t], 0); }
  }

  // A struct dinode is sixteen words: type and major, minor and nlink, the size, and thirteen
  // addresses. Those from the size on are the inode's; all else in the block is as it was.
  ghost predicate Dinode(b0: Block, b: Block, inum: nat, ino: Inode)
    requires |ino.addrs| == 13
  {
    && Whole(b0) && Whole(b)
    && forall w | 0 <= w < 256 ::
         Word(b, w) == var at := inum % 16 * 16;
                       if w == at + 2 then ino.size else if at + 3 <= w < at + 16 then ino.addrs[w - at - 3] else Word(b0, w)
  }

  // Of the disk, only that inode has changed.
  ghost predicate Updated(l: Layout, img0: Image, img: Image, inum: nat, ino: Inode) {
    var a := inum / 16 + l.inodeStart;
    |ino.addrs| == 13 && a < |img0| == |img| && img == img0[a := img[a]] && Dinode(img0[a], img[a], inum, ino)
  }

  lemma DinodeIs(b0: Block, b: Block, inum: nat, ino: Inode)
    requires |ino.addrs| == NDIRECT + 1 && PartInode(b0, b, inum, ino, NDIRECT + 1)
    ensures Dinode(b0, b, inum, ino)
  {
    hide Word;
    var at := inum % 16 * 16;
    forall w | 0 <= w < 256
      ensures Word(b, w) == if w == at + 2 then ino.size else if at + 3 <= w < at + 16 then ino.addrs[w - at - 3] else Word(b0, w)
    {
      if at + 3 <= w < at + 16 { assert Word(b, SizeWord(inum) + 1 + (w - at - 3)) == ino.addrs[w - at - 3]; }
    }
  }

  lemma InodeWritten(l: Layout, img: Image, table: seq<Inode>, owner: map<nat, Slot>, i: nat, b: Block)
    requires Inv(l, img, table, owner) && i < l.ninodes && Synced(l, img, table, i)
    requires l.InodeBlock(i) < |img| && PartInode(img[l.InodeBlock(i)], b, i, table[i], NDIRECT + 1)
    ensures var r := img[l.InodeBlock(i) := b];
            && Inv(l, r, table, owner) && Synced(l, r, table, -1)
            && (forall j | 0 <= j < l.ninodes :: Content(r, table[j]) == Content(img, table[j]))
            && (Exhausted(l, img) ==> Exhausted(l, r))
  {
    hide Mapped, Accurate, Dense, Word, Taken;
    InodeBlockInArea(l, i);
    InodeWrites(l, img, table, i, b);
    TakenSame(l, img, img[l.InodeBlock(i) := b]);
    MetadataKeepsFiles(l, img, table, owner, img[l.InodeBlock(i) := b]);
  }

  lemma SavedIsSynced(l: Layout, img: Image, table: seq<Inode>, i: nat)
    requires l.Good() && GoodImage(l, img) && GoodTable(l, table) && Synced(l, img, table, -1)
    ensures Synced(l, img, table, i)
  {
  }

  lemma StoreKeepsSync(l: Layout, img: Image, table: seq<Inode>, i: nat, a: nat, b: Block)
    requires l.Good() && GoodImage(l, img) && GoodTable(l, table) && Synced(l, img, table, i)
    requires l.DataStart() <= a < l.size && Whole(b)
    ensures Synced(l, img[a := b], table, i)
  {
    SyncedSame(l, img, table, img[a := b], table, i);
  }

  // Storing the first got bytes of a piece, all at once.
  lemma PieceStored(l: Layout, img0: Image, t0: seq<Inode>, img: Image, table: seq<Inode>, owner: map<nat, Slot>, i: nat, off: nat, d: seq<byte>, piece: seq<byte>, got: nat)
    requires GoodTable(l, t0) && Inv(l, img, table, owner) && i < l.ninodes && Wrote(l, img0, t0, img, table, i, off, d) && Synced(l, img, table, i)
    requires 0 < got <= |piece| && (off + |d|) % BSIZE + |piece| <= BSIZE && off + |d| + |piece| <= MAXFILE * BSIZE
    requires At(img, table[i], DataSlot((off + |d|) / BSIZE)) != 0
    ensures var a := At(img, table[i], DataSlot((off + |d|) / BSIZE));
            && l.DataStart() <= a < |img| && Whole(img[a])
            && (var r := img[a := Overlay(img[a], (off + |d|) % BSIZE, piece[..got])];
               Inv(l, r, table, owner) && Synced(l, r, table, i) && Wrote(l, img0, t0, r, table, i, off, d + piece[..got]))
  {
    hide Mapped, Accurate, Dense, At, Overlay, Wrote, Synced;
    WroteMore(l, img0, t0, img, table, owner, i, off, d, piece[..got]);
    var a := At(img, table[i], DataSlot((off + |d|) / BSIZE));
    StoreKeepsSync(l, img, table, i, a, Overlay(img[a], (off + |d|) % BSIZE, piece[..got]));
  }

  // Of n bytes stored at off, those the file reaches when its end is moved to off + tot.
  function Visible(size: nat, off: nat, n: nat, tot: nat): (v: nat)
    requires off <= size && tot <= n
    ensures tot <= v <= n && (n == tot ==> v == n)
  {
    if off + n <= Reach(size, off + tot) then n else Reach(size, off + tot) - off
  }

  lemma VisibleIs(size: nat, off: nat, n: nat, tot: nat)
    requires off <= size && tot <= n
    ensures Visible(size, off, n, tot) == (if off + n <= size then n else if size <= off + tot then tot else size - off)
  {
  }

  // When the new size is stored, what was written as far as that is the file.
  lemma WroteAll(l: Layout, img0: Image, t0: seq<Inode>, img: Image, table: seq<Inode>, owner: map<nat, Slot>, i: nat, off: nat, d: seq<byte>, tot: nat)
    requires GoodTable(l, t0) && Inv(l, img, table, owner) && i < l.ninodes && Wrote(l, img0, t0, img, table, i, off, d) && tot <= |d|
    ensures var t, f := table[i := table[i].(size := Reach(t0[i].size, off + tot))], Content(img0, t0[i]);
            && Inv(l, img, t, owner) && off <= |f|
            && Content(img, t[i]) == Splice(f, off, d[..Visible(|f|, off, |d|, tot)])
            && OthersSame(l, img0, t0, img, t, i)
  {
    hide Mapped, Accurate, Dense, At, ByteAt;
    var size := Reach(t0[i].size, off + tot);
    ResizeKeepsInv(l, img, table, owner, i, size);
    SizeIsNoByte(img, table[i], size, size);
    FlatPrefix(img, table[i], Reach(t0[i].size, off + |d|), size);
  }

  lemma SizeIsNoByte(img: Image, ino: Inode, size: nat, n: nat)
    requires |ino.addrs| == NDIRECT + 1 && n <= MAXFILE * BSIZE
    ensures Flat(img, ino.(size := size), n) == Flat(img, ino, n)
  {
    SameBytes(img, ino, img, ino.(size := size), n);
  }

  lemma FlatPrefix(img: Image, ino: Inode, len: nat, n: nat)
    requires |ino.addrs| == NDIRECT + 1 && n <= len <= MAXFILE * BSIZE
    ensures Flat(img, ino, n) == Flat(img, ino, len)[..n]
  {
    hide ByteAt;
  }

  lemma ResizeIsSynced(l: Layout, img: Image, t1: seq<Inode>, t2: seq<Inode>, i: nat)
    requires l.Good() && GoodImage(l, img) && GoodTable(l, t1) && GoodTable(l, t2) && Synced(l, img, t1, i)
    requires forall j | 0 <= j < l.ninodes && j != i :: t2[j] == t1[j]
    ensures Synced(l, img, t2, i)
  {
  }

  lemma OthersStill(l: Layout, img0: Image, t0: seq<Inode>, img1: Image, img2: Image, table: seq<Inode>, i: nat)
    requires GoodTable(l, t0) && GoodTable(l, table) && OthersSame(l, img0, t0, img1, table, i)
    requires forall j | 0 <= j < l.ninodes :: Content(img2, table[j]) == Content(img1, table[j])
    ensures OthersSame(l, img0, t0, img2, table, i)
  {
  }

  lemma {:induction false} ElementsBound(s: seq<nat>) returns (e: set<nat>)
    ensures |e| <= |s| && forall c: nat | c in s :: c in e
  {
    if s == [] {
      e := {};
    } else {
      var f := ElementsBound(s[1..]);
      e := {s[0]} + f;
      assert s == [s[0]] + s[1..];
    }
  }

  lemma {:induction false} SubsetSize(a: set<nat>, b: set<nat>)
    requires a <= b
    ensures |a| <= |b|
  {
    if a != {} {
      var x :| x in a;
      SubsetSize(a - {x}, b - {x});
    }
  }

  // One map block, the indirect block, the inode's block, and the data blocks.
  lemma Budget(l: Layout, before: set<nat>, after: set<nat>, ind: nat, inodeBlock: nat, touched: seq<nat>)
    requires forall c | c in after && c !in before :: l.HasMap(c) || c == ind || c == inodeBlock || c in touched
    ensures l.size <= BPB ==> |after - before| <= |touched| + 3
  {
    if l.size <= BPB {
      var e := ElementsBound(touched);
      var all := {l.bmapStart, ind, inodeBlock} + e;
      forall c | c in after - before
        ensures c in all
      {
        assert l.HasMap(c) ==> c == l.bmapStart;
      }
      SubsetSize(after - before, all);
    }
  }

  // What an allocated block needs logged: itself and its block of the free map.
  ghost predicate LogsFor(l: Layout, c: nat, a: nat) {
    a != 0 && (c == a || c == l.MapBlock(a))
  }

  // Newly logged are the indirect block, the data blocks that were touched, and their maps.
  ghost predicate Booked(l: Layout, before: set<nat>, after: set<nat>, ind: nat, touched: seq<nat>, maps: seq<nat>) {
    && (forall c | c in maps :: l.HasMap(c))
    && forall c | c in after && c !in before :: LogsFor(l, c, ind) || c in touched || c in maps
  }

  lemma BookedNone(l: Layout, logged: set<nat>, ind: nat)
    ensures Booked(l, logged, logged, ind, [], [])
  {
  }

  // One block more, whose map block counts only if it may be new.
  lemma BookedMore(l: Layout, before: set<nat>, logged: set<nat>, ind: nat, touched: seq<nat>, maps: seq<nat>,
                   after: set<nat>, ind': nat, addr: nat, isNew: bool)
    requires Booked(l, before, logged, ind, touched, maps) && (ind != 0 ==> ind' == ind) && addr < l.size
    requires forall c | c in after && c !in logged :: LogsFor(l, c, addr) || LogsFor(l, c, ind')
    requires !isNew ==> after <= logged + {addr}
    ensures Booked(l, before, after, ind', touched + if addr != 0 then [addr] else [], if addr != 0 && isNew then maps + [l.MapBlock(addr)] else maps)
  {
    MapBlockInBitmap(l, addr);
    forall c | c in after && c !in before
      ensures LogsFor(l, c, ind') || c in touched || c in maps || (addr != 0 && (c == addr || (isNew && c == l.MapBlock(addr))))
    {
      assert c in logged ==> LogsFor(l, c, ind) || c in touched || c in maps;
    }
  }

  // Of the blocks of inode i only slots below k are logged.
  ghost predicate LoggedBelow(owner: map<nat, Slot>, logged: set<nat>, i: nat, k: nat) {
    forall c | c in logged && c in owner && owner[c].inum == i :: owner[c].k < k
  }

  lemma NotLoggedYet(l: Layout, img: Image, table: seq<Inode>, owner: map<nat, Slot>, i: nat, bn: nat, logged: set<nat>)
    requires Inv(l, img, table, owner) && i < l.ninodes && bn < MAXFILE && At(img, table[i], DataSlot(bn)) != 0
    requires LoggedBelow(owner, logged, i, DataSlot(bn))
    ensures var a := At(img, table[i], DataSlot(bn)); a !in logged && LoggedBelow(owner, logged + {a}, i, DataSlot(bn + 1))
  {
    hide At, Accurate, Dense;
    assert Recorded(img, table[i], owner, i, DataSlot(bn));
  }

  lemma LoggedFewer(owner: map<nat, Slot>, logged: set<nat>, fewer: set<nat>, i: nat, k: nat)
    requires LoggedBelow(owner, logged, i, k) && fewer <= logged
    ensures LoggedBelow(owner, fewer, i, k)
  {
  }

  // What a write logs: the inode's block, the indirect block, the data blocks, and the map
  // blocks of those that are new.
  lemma WriteBudget(l: Layout, before: set<nat>, after: set<nat>, ind: nat, inodeBlock: nat, touched: seq<nat>, maps: seq<nat>)
    requires ind < l.size && Booked(l, before, after, ind, touched, maps)
    ensures |after + {inodeBlock} - before| <= |touched| + |maps| + 3
    ensures l.size <= BPB ==> |after + {inodeBlock} - before| <= |touched| + 3
  {
    MapBlockInBitmap(l, ind);
    var all := after + {inodeBlock};
    forall c | c in all && c !in before
      ensures c in [inodeBlock, ind, l.MapBlock(ind)] || c in touched || c in maps
    {
    }
    Budget(l, before, all, ind, inodeBlock, touched);
    var e := ElementsBound([inodeBlock, ind, l.MapBlock(ind)] + touched + maps);
    SubsetSize(all - before, e);
  }

  lemma WriteWithin(l: Layout, before: set<nat>, after: set<nat>, ind: nat, inodeBlock: nat, touched: seq<nat>, maps: seq<nat>, off: nat, end: nat, n: nat)
    requires ind < l.size && Booked(l, before, after, ind, touched, maps) && off <= end <= off + n && CountedTo(off, end, |touched|, |maps|)
    ensures |after + {inodeBlock} - before| <= TouchLimit(off, n) + NewBlocks(off, TouchLimit(off, n)) + 3
    ensures l.size <= BPB ==> |after + {inodeBlock} - before| <= TouchLimit(off, n) + 3
  {
    hide Booked, TouchLimit, BlocksTouched;
    WriteBudget(l, before, after, ind, inodeBlock, touched, maps);
    TouchBound(off, end, n);
  }

  // The order in which itrunc frees the address slots: the direct ones, the words of the
  // indirect block, the indirect block.
  function Rank(k: nat): nat { if k < NDIRECT then k else if k == NDIRECT then SLOTS - 1 else k - 1 }

  function SlotOfRank(n: nat): nat { if n < NDIRECT then n else if n == SLOTS - 1 then NDIRECT else n + 1 }

  // Among the blocks of inode i, the first n slots are free again; only the free map has
  // changed.
  ghost predicate FreedTo(l: Layout, img0: Image, owner: map<nat, Slot>, img: Image, i: nat, n: nat)
    requires l.Good() && GoodImage(l, img0)
  {
    && GoodImage(l, img)
    && (forall c: nat | c < l.size :: Taken(l, img, c) <==> Taken(l, img0, c) && !Dropped(owner, c, i, n))
    && forall c | 0 <= c < |img| && !l.InBitmap(c) :: img[c] == img0[c]
  }

  ghost predicate Dropped(owner: map<nat, Slot>, c: nat, i: nat, n: nat) {
    c in owner && owner[c].inum == i && Rank(owner[c].k) < n
  }

  lemma FreedNone(l: Layout, img: Image, owner: map<nat, Slot>, i: nat)
    requires l.Good() && GoodImage(l, img)
    ensures FreedTo(l, img, owner, img, i, 0)
  {
  }

  // The next slot, when it is empty.
  lemma FreedSkip(l: Layout, img0: Image, table: seq<Inode>, owner: map<nat, Slot>, img: Image, i: nat, n: nat)
    requires Inv(l, img0, table, owner) && i < l.ninodes && n < SLOTS && FreedTo(l, img0, owner, img, i, n)
    requires At(img0, table[i], SlotOfRank(n)) == 0
    ensures FreedTo(l, img0, owner, img, i, n + 1)
  {
    hide Inv, Taken, Dropped;
    forall c: nat | c < l.size
      ensures Dropped(owner, c, i, n + 1) <==> Dropped(owner, c, i, n)
    {
      DroppedSkip(l, img0, table, owner, i, n, c);
    }
  }

  lemma DroppedSkip(l: Layout, img: Image, table: seq<Inode>, owner: map<nat, Slot>, i: nat, n: nat, c: nat)
    requires Inv(l, img, table, owner) && i < l.ninodes && n < SLOTS && At(img, table[i], SlotOfRank(n)) == 0
    ensures Dropped(owner, c, i, n + 1) <==> Dropped(owner, c, i, n)
  {
    hide At, Accurate, Dense, Taken;
    if c in owner { assert Owned(l, img, table, owner[c], c); }
  }

  // The next slot, when it holds block a: a is marked, so bfree does not panic.
  lemma FreedReady(l: Layout, img0: Image, table: seq<Inode>, owner: map<nat, Slot>, img: Image, i: nat, n: nat)
    requires Inv(l, img0, table, owner) && i < l.ninodes && n < SLOTS && FreedTo(l, img0, owner, img, i, n)
    requires At(img0, table[i], SlotOfRank(n)) != 0
    ensures var a := At(img0, table[i], SlotOfRank(n));
            l.DataStart() <= a < l.size && Taken(l, img, a) && a in owner && owner[a] == Slot(i, SlotOfRank(n))
  {
    hide At, Dense;
    assert Recorded(img0, table[i], owner, i, SlotOfRank(n));
  }

  lemma FreedStep(l: Layout, img0: Image, table: seq<Inode>, owner: map<nat, Slot>, img: Image, img': Image, i: nat, n: nat)
    requires Inv(l, img0, table, owner) && i < l.ninodes && n < SLOTS && FreedTo(l, img0, owner, img, i, n)
    requires At(img0, table[i], SlotOfRank(n)) != 0 && Freed(l, img, img', At(img0, table[i], SlotOfRank(n)))
    ensures FreedTo(l, img0, owner, img', i, n + 1)
  {
    FreedReady(l, img0, table, owner, img, i, n);
    hide At, Accurate, Dense, Taken;
    var a := At(img0, table[i], SlotOfRank(n));
    forall c: nat | c < l.size
      ensures Dropped(owner, c, i, n + 1) <==> Dropped(owner, c, i, n) || c == a
    {
      if c in owner { assert Owned(l, img0, table, owner[c], c); }
    }
  }

  // The map blocks of what has been freed.
  ghost function MapsOf(l: Layout, owner: map<nat, Slot>, i: nat, n: nat): set<nat> {
    set c | c in owner && Dropped(owner, c, i, n) :: l.MapBlock(c)
  }

  lemma MapsMore(l: Layout, img: Image, table: seq<Inode>, owner: map<nat, Slot>, i: nat, n: nat)
    requires Inv(l, img, table, owner) && i < l.ninodes && n < SLOTS
    ensures var a := At(img, table[i], SlotOfRank(n));
            MapsOf(l, owner, i, n + 1) == MapsOf(l, owner, i, n) + if a != 0 then {l.MapBlock(a)} else {}
  {
    hide At, Mapped, Accurate, Dense, Taken, MapsOf, Rank, Dropped;
    var a := At(img, table[i], SlotOfRank(n));
    RecordedThere(l, img, table, owner, i, SlotOfRank(n));
    forall c | c in owner
      ensures Dropped(owner, c, i, n + 1) <==> Dropped(owner, c, i, n) || c == a
    {
      DroppedGain(l, img, table, owner, i, n, c);
    }
    MapsAdd(l, owner, i, n, a);
  }

  lemma RecordedThere(l: Layout, img: Image, table: seq<Inode>, owner: map<nat, Slot>, i: nat, k: nat)
    requires GoodTable(l, table) && Mapped(l, img, table, owner) && i < l.ninodes && k < SLOTS
    ensures (At(img, table[i], k) != 0 ==> At(img, table[i], k) in owner) && 0 !in owner
  {
    hide At;
    assert Recorded(img, table[i], owner, i, k);
    assert 0 in owner ==> Owned(l, img, table, owner[0], 0);
  }

  lemma DroppedGain(l: Layout, img: Image, table: seq<Inode>, owner: map<nat, Slot>, i: nat, n: nat, c: nat)
    requires GoodTable(l, table) && Mapped(l, img, table, owner) && i < l.ninodes && n < SLOTS && c in owner
    ensures Dropped(owner, c, i, n + 1) <==> Dropped(owner, c, i, n) || c == At(img, table[i], SlotOfRank(n))
  {
    hide At;
    assert Owned(l, img, table, owner[c], c);
    assert Recorded(img, table[i], owner, i, SlotOfRank(n));
  }

  lemma MapsAdd(l: Layout, owner: map<nat, Slot>, i: nat, n: nat, a: nat)
    requires forall c | c in owner :: Dropped(owner, c, i, n + 1) <==> Dropped(owner, c, i, n) || c == a
    requires (a != 0 ==> a in owner) && 0 !in owner
    ensures MapsOf(l, owner, i, n + 1) == MapsOf(l, owner, i, n) + if a != 0 then {l.MapBlock(a)} else {}
  {
    hide Dropped, Layout.MapBlock;
  }

  lemma MapsNone(l: Layout, owner: map<nat, Slot>, i: nat)
    ensures MapsOf(l, owner, i, 0) == {}
  {
  }

  lemma {:induction false} MapsRest(l: Layout, img: Image, table: seq<Inode>, owner: map<nat, Slot>, i: nat, n: nat)
    requires Inv(l, img, table, owner) && i < l.ninodes && NDIRECT <= n <= SLOTS && table[i].addrs[NDIRECT] == 0
    ensures MapsOf(l, owner, i, SLOTS) == MapsOf(l, owner, i, n)
    decreases SLOTS - n
  {
    hide MapsOf;
    if n < SLOTS {
      NoIndirect(img, table[i], n);
      MapsMore(l, img, table, owner, i, n);
      MapsRest(l, img, table, owner, i, n + 1);
    }
  }

  lemma NoIndirect(img: Image, ino: Inode, n: nat)
    requires |ino.addrs| == NDIRECT + 1 && ino.addrs[NDIRECT] == 0 && NDIRECT <= n < SLOTS
    ensures At(img, ino, SlotOfRank(n)) == 0
  {
  }

  // In a map of one block there is one to log.
  lemma MapsFew(l: Layout, img: Image, table: seq<Inode>, owner: map<nat, Slot>, i: nat, n: nat)
    requires Inv(l, img, table, owner)
    ensures l.size <= BPB ==> MapsOf(l, owner, i, n) <= {l.bmapStart}
  {
    hide At, Accurate, Dense, Taken;
    forall c | c in owner && l.size <= BPB
      ensures l.MapBlock(c) == l.bmapStart
    {
      assert Owned(l, img, table, owner[c], c);
    }
  }

  // The map blocks of all the blocks of a file.
  ghost function FileMaps(l: Layout, owner: map<nat, Slot>, i: nat): set<nat> {
    set c | c in owner && owner[c].inum == i :: l.MapBlock(c)
  }

  lemma MapsAll(l: Layout, img: Image, table: seq<Inode>, owner: map<nat, Slot>, i: nat)
    requires Inv(l, img, table, owner)
    ensures MapsOf(l, owner, i, SLOTS) == FileMaps(l, owner, i)
  {
    hide At, Accurate, Dense, Taken;
    forall c | c in owner
      ensures Dropped(owner, c, i, SLOTS) <==> owner[c].inum == i
    {
      assert Owned(l, img, table, owner[c], c);
    }
  }

  function EmptyInode(): Inode { Inode(seq(NDIRECT + 1, _ => 0), 0) }

  ghost function Disown(owner: map<nat, Slot>, i: nat): map<nat, Slot> {
    map b | b in owner && owner[b].inum != i :: owner[b]
  }

  lemma EmptyAt(img: Image, k: nat)
    requires k < SLOTS
    ensures At(img, EmptyInode(), k) == 0
  {
  }

  // All slots freed and zeroed: the inode is empty, its blocks are free, and no other
  // file has changed.
  lemma TruncateKeepsInv(l: Layout, img0: Image, table: seq<Inode>, owner: map<nat, Slot>, img: Image, i: nat)
    requires Inv(l, img0, table, owner) && i < l.ninodes && FreedTo(l, img0, owner, img, i, SLOTS)
    ensures Inv(l, img, table[i := EmptyInode()], Disown(owner, i))
    ensures OthersSame(l, img0, table, img, table[i := EmptyInode()], i)
    ensures InodesSame(l, img0, img)
  {
    hide Taken, Dense;
    var t, o := table[i := EmptyInode()], Disown(owner, i);
    forall j, m | 0 <= j < l.ninodes && 0 <= m < SLOTS
      ensures At(img, t[j], m) == if j == i then 0 else At(img0, table[j], m)
    {
      assert Recorded(img0, table[j], owner, j, NDIRECT);
      if j == i { EmptyAt(img, m); }
    }
    TruncateMaps(l, img0, table, owner, img, i);
    forall c: nat | c < l.size
      ensures Taken(l, img, c) <==> c < l.DataStart() || c in o
    {
      if c in owner { assert Owned(l, img0, table, owner[c], c); }
    }
    forall j | 0 <= j < l.ninodes && j != i
      ensures Content(img, t[j]) == Content(img0, table[j])
    {
      TruncateBytes(l, img0, table, owner, img, i, j);
    }
  }

  lemma TruncateMaps(l: Layout, img0: Image, table: seq<Inode>, owner: map<nat, Slot>, img: Image, i: nat)
    requires GoodTable(l, table) && Mapped(l, img0, table, owner) && Dense(l, img0, table) && i < l.ninodes
    requires forall j, m | 0 <= j < l.ninodes && 0 <= m < SLOTS ::
      At(img, table[i := EmptyInode()][j], m) == if j == i then 0 else At(img0, table[j], m)
    ensures var t := table[i := EmptyInode()];
            GoodTable(l, t) && Mapped(l, img, t, Disown(owner, i)) && Dense(l, img, t)
  {
    hide At;
    var t, o := table[i := EmptyInode()], Disown(owner, i);
    forall j, m | 0 <= j < l.ninodes && 0 <= m < SLOTS
      ensures Recorded(img, t[j], o, j, m)
    {
      assert Recorded(img0, table[j], owner, j, m);
      assert At(img, t[j], m) == if j == i then 0 else At(img0, table[j], m);
    }
    forall c | c in o
      ensures Owned(l, img, t, o[c], c)
    {
      assert Owned(l, img0, table, owner[c], c);
      assert At(img, t[o[c].inum], o[c].k) == At(img0, table[o[c].inum], o[c].k);
    }
    forall j | 0 <= j < l.ninodes
      ensures DenseTo(img, t[j], t[j].size)
    {
      if j != i {
        assert DenseTo(img0, table[j], table[j].size);
        forall bn: nat | bn < MAXFILE && bn * BSIZE < t[j].size
          ensures At(img, t[j], DataSlot(bn)) != 0
        {
          assert At(img, t[j], DataSlot(bn)) == At(img0, table[j], DataSlot(bn));
        }
      }
    }
  }

  lemma TruncateBytes(l: Layout, img0: Image, table: seq<Inode>, owner: map<nat, Slot>, img: Image, i: nat, j: nat)
    requires Inv(l, img0, table, owner) && i < l.ninodes && FreedTo(l, img0, owner, img, i, SLOTS) && j < l.ninodes
    ensures Content(img, table[j]) == Content(img0, table[j])
  {
    hide Taken, Accurate;
    assert DenseTo(img0, table[j], table[j].size);
    forall bn: nat | bn < MAXFILE && bn * BSIZE < table[j].size
      ensures var a := At(img0, table[j], DataSlot(bn)); At(img, table[j], DataSlot(bn)) == a && (a < |img0| ==> img[a] == img0[a])
    {
      assert Recorded(img0, table[j], owner, j, DataSlot(bn)) && Recorded(img0, table[j], owner, j, NDIRECT);
    }
    SameBytes(img0, table[j], img, table[j], table[j].size);
  }

  // Without an indirect block there is nothing more to free.
  lemma {:induction false} FreedRest(l: Layout, img0: Image, table: seq<Inode>, owner: map<nat, Slot>, img: Image, i: nat, n: nat)
    requires Inv(l, img0, table, owner) && i < l.ninodes && NDIRECT <= n <= SLOTS && FreedTo(l, img0, owner, img, i, n)
    requires table[i].addrs[NDIRECT] == 0
    ensures FreedTo(l, img0, owner, img, i, SLOTS)
    decreases SLOTS - n
  {
    if n < SLOTS {
      FreedSkip(l, img0, table, owner, img, i, n);
      FreedRest(l, img0, table, owner, img, i, n + 1);
    }
  }

  // The words of the indirect block are the slots that come next.
  lemma IndirectRank(l: Layout, img0: Image, table: seq<Inode>, owner: map<nat, Slot>, img: Image, i: nat, n: nat, j: nat)
    requires Inv(l, img0, table, owner) && i < l.ninodes && FreedTo(l, img0, owner, img, i, n)
    requires table[i].addrs[NDIRECT] != 0 && j < NINDIRECT
    ensures var ind := table[i].addrs[NDIRECT];
            ind < |img| == |img0| && Whole(img[ind]) && img[ind] == img0[ind] && Word(img[ind], j) == At(img0, table[i], SlotOfRank(NDIRECT + j))
  {
    hide Accurate, Dense, Taken, Word;
    IndirectWord(l, img0, table, owner, i, NDIRECT + 1 + j);
  }

  lemma IndirectSlotIsLast(img: Image, ino: Inode)
    requires |ino.addrs| == NDIRECT + 1
    ensures At(img, ino, SlotOfRank(SLOTS - 1)) == ino.addrs[NDIRECT]
  {
  }

  // Two writes one after the other, to the same file.
  lemma WritesJoin(f: seq<byte>, off: nat, src: seq<byte>, i: nat, n: nat, r: nat)
    requires off <= |f| && i + n <= |src| && r <= n
    ensures |src[i..i + n]| == n && off + i <= |Splice(f, off, src[..i])|
    ensures Splice(Splice(f, off, src[..i]), off + i, src[i..i + n][..r]) == Splice(f, off, src[..i + r])
  {
    SpliceTwice(f, off, src[..i], src[i..i + n][..r]);
    assert src[..i] + src[i..i + n][..r] == src[..i + r];
  }

  lemma OthersTwice(l: Layout, img0: Image, t0: seq<Inode>, img1: Image, t1: seq<Inode>, img2: Image, t2: seq<Inode>, i: nat)
    requires GoodTable(l, t0) && GoodTable(l, t1) && GoodTable(l, t2)
    requires OthersSame(l, img0, t0, img1, t1, i) && OthersSame(l, img1, t1, img2, t2, i)
    ensures OthersSame(l, img0, t0, img2, t2, i)
  {
  }

  // A chunk of filewrite fits a transaction: at most four data blocks.
  lemma ChunkTouches(off: nat, n: nat)
    requires n <= MAXCHUNK
    ensures TouchLimit(off, n) <= 4 && TouchLimit(off, n) + NewBlocks(off, TouchLimit(off, n)) + 3 <= MAXOPBLOCKS
  {
  }

  const MAXOPBLOCKS := 10
  const MAXCHUNK := (MAXOPBLOCKS - 1 - 1 - 2) / 2 * BSIZE

  function ChunkOf(left: nat): nat { if left > MAXCHUNK then MAXCHUNK else left }

  // Where the chunk begins in which the copy fails.
  function ChunkStart(given: nat): (i: nat)
    ensures i <= given
  {
    given / MAXCHUNK * MAXCHUNK
  }

  // The same for all of filewrite: the chunk in which the copy fails is torn.
  predicate TearsFile(size: nat, n: nat, off: nat, given: nat) {
    var i := ChunkStart(given);
    given < n && off + i + ChunkOf(n - i) <= MAXFILE * BSIZE && Tears(size, ChunkOf(n - i), off + i, given - i)
  }

  function SeenInFile(size: nat, n: nat, off: nat, given: nat, w: nat): nat
    requires off <= size
  {
    if !TearsFile(size, n, off, given) then w else if off + given <= size then given else size - off
  }

  lemma SeenWhole(size: nat, n: nat, off: nat, given: nat, w: nat)
    requires off <= size && !TearsFile(size, n, off, given)
    ensures SeenInFile(size, n, off, given, w) == w
  {
  }

  lemma ChunkAt(given: nat, i: nat)
    requires i % MAXCHUNK == 0 && i <= given < i + MAXCHUNK
    ensures ChunkStart(given) == i
  {
    Multiple(given, i);
  }

  // Rounding down does not pass a multiple.
  lemma Multiple(given: nat, i: nat)
    requires i % MAXCHUNK == 0 && i <= given
    ensures i <= ChunkStart(given) && (given < i + MAXCHUNK ==> ChunkStart(given) == i)
  {
    assert MAXCHUNK == 3072;
    var q, g := i / 3072, given / 3072;
    assert i == 3072 * q && 3072 * g <= given < 3072 * g + 3072;
    assert q <= g;
  }

  // The copy fails in the chunk from i on: what is seen of it.
  lemma TearsHere(size: nat, n: nat, off: nat, given: nat, i: nat, r: int)
    requires i < n && i % MAXCHUNK == 0 && i <= given < i + ChunkOf(n - i) && off <= size
    requires -1 <= r && (r == -1 <==> off + i + ChunkOf(n - i) > MAXFILE * BSIZE)
    requires r >= 0 && Tears(Reach(size, off + i), ChunkOf(n - i), off + i, given - i) ==> off + i + r == PieceStart(off + i, given - i)
    ensures if r < 0 then !TearsFile(size, n, off, given)
            else i + Seen(Reach(size, off + i), ChunkOf(n - i), off + i, given - i, r) == SeenInFile(size, n, off, given, i + r)
    ensures TearsFile(size, n, off, given) ==> r >= 0 && off + i + r == PieceStart(off + i, given - i)
  {
    hide PieceStart, ChunkStart;
    ChunkAt(given, i);
    SeenMeans(size, ChunkOf(n - i), off + i, given - i);
    TearsSame(size, ChunkOf(n - i), off, i, given - i);
  }

  lemma TearsSame(size: nat, n: nat, off: nat, i: nat, given: nat)
    ensures Tears(size, n, off + i, given) <==> Tears(Reach(size, off + i), n, off + i, given)
  {
    hide PieceStart;
    FromOff(off + i, given);
  }

  lemma FromOff(off: nat, given: nat)
    ensures off <= PieceStart(off, given) <= off + given
  {
  }

  lemma SeenMeans(size: nat, n: nat, off: nat, given: nat)
    ensures Tears(size, n, off, given) ==> off < size && Reach(size, off) == size && given < n
  {
    hide PieceStart;
    FromOff(off, given);
  }

  // A chunk that is short before the copy fails is short beyond the end of the file.
  lemma TearsNever(size: nat, n: nat, off: nat, given: nat, i: nat, r: int)
    requires i < n && i % MAXCHUNK == 0 && i + ChunkOf(n - i) <= given && off <= size
    requires -1 <= r && (r == -1 <==> off + i + ChunkOf(n - i) > MAXFILE * BSIZE)
    requires r >= 0 ==> r < ChunkOf(n - i) && Reach(size, off + i) <= off + i + r
    ensures !TearsFile(size, n, off, given)
  {
    hide Tears, PieceStart, ChunkStart;
    if given < n {
      var g := ChunkStart(given);
      Multiple(given, i + MAXCHUNK);
      TearsMeans(size, ChunkOf(n - g), off + g, given - g);
    }
  }

  lemma TearsMeans(size: nat, n: nat, off: nat, given: nat)
    ensures Tears(size, n, off, given) ==> off < size
  {
    hide PieceStart;
    FromOff(off, given);
  }

  // filewrite ends after w bytes with seen to be read: there are more of these if and only if
  // a chunk is torn, and then the kept bytes end where the torn block begins.
  ghost predicate EndsAt(size: nat, n: nat, off: nat, given: nat, w: nat, seen: nat) {
    && (off <= size ==> seen == SeenInFile(size, n, off, given, w))
    && (off > size ==> w == seen == 0)
    && (TearsFile(size, n, off, given) ==> off + w == PieceStart(off + ChunkStart(given), given - ChunkStart(given)))
  }

  // The last chunk is the one from i on, which is not written whole.
  lemma ChunkEnds(size: nat, n: nat, off: nat, given: nat, i: nat, cur: nat, r: int, seen: nat)
    requires i < n && i % MAXCHUNK == 0 && i <= given && (i > 0 ==> off <= size)
    requires cur == if off <= size then Reach(size, off + i) else size
    requires -1 <= r < ChunkOf(n - i) && (r == -1 <==> off + i > cur || off + i + ChunkOf(n - i) > MAXFILE * BSIZE)
    requires if r < 0 then seen == i else off + i <= cur && seen == i + Seen(cur, ChunkOf(n - i), off + i, given - i, r)
    requires r >= 0 && Tears(cur, ChunkOf(n - i), off + i, given - i) ==> off + i + r == PieceStart(off + i, given - i)
    requires r >= 0 ==> cur <= off + i + r || given - i < ChunkOf(n - i)
    ensures EndsAt(size, n, off, given, i + if r < 0 then 0 else r, seen)
  {
    hide Tears, TearsFile, SeenInFile, PieceStart, ChunkStart;
    if off > size {
      TearsPast(size, n, off, given);
    } else if given - i < ChunkOf(n - i) {
      ChunkAt(given, i);
      TearsHere(size, n, off, given, i, r);
    } else {
      SeenMeans(cur, ChunkOf(n - i), off + i, given - i);
      TearsNever(size, n, off, given, i, r);
    }
    if off <= size && !TearsFile(size, n, off, given) { SeenWhole(size, n, off, given, i + if r < 0 then 0 else r); }
  }

  lemma AllWritten(size: nat, n: nat, off: nat, given: nat)
    requires n <= given && (n > 0 ==> off <= size)
    ensures EndsAt(size, n, off, given, n, n)
  {
    hide Tears, PieceStart, ChunkStart;
    TearsPast(size, n, off, given);
  }

  lemma ChunkIs(n: nat, i: nat)
    requires i < n && i % MAXCHUNK == 0
    ensures 0 < ChunkOf(n - i) <= n - i && (i + ChunkOf(n - i) == n || (i + ChunkOf(n - i)) % MAXCHUNK == 0)
    ensures ChunkOf(n - i) <= MAXCHUNK
  {
  }

  lemma TearsFileIs(size: nat, n: nat, off: nat, given: nat, w: nat, seen: nat)
    requires EndsAt(size, n, off, given, w, seen)
    ensures w < seen <==> TearsFile(size, n, off, given)
    ensures off <= size ==> seen == SeenInFile(size, n, off, given, w)
  {
    hide PieceStart, ChunkStart;
    TearsPast(size, n, off, given);
  }

  lemma TearsPast(size: nat, n: nat, off: nat, given: nat)
    ensures off > size || given >= n ==> !TearsFile(size, n, off, given)
  {
    hide Tears, ChunkStart;
    TearsMeans(size, ChunkOf(if given < n then n - ChunkStart(given) else 0), off + ChunkStart(given), given - ChunkStart(given));
  }

  // A write that is done, and the size it leaves.
  lemma WriteDoneSize(l: Layout, img0: Image, t0: seq<Inode>, img: Image, t: seq<Inode>, k: nat, off: nat, d: seq<byte>)
    requires GoodTable(l, t0) && GoodTable(l, t) && k < l.ninodes && WriteDone(l, img0, t0, img, t, k, off, d)
    ensures t[k].size == if off <= t0[k].size then Reach(t0[k].size, off + |d|) else t0[k].size
  {
  }

  lemma ReadsBack(f: seq<byte>, off: nat, d: seq<byte>)
    requires off <= |f|
    ensures Splice(f, off, d)[off..off + |d|] == d
  {
  }

  lemma OthersNone(l: Layout, img: Image, t: seq<Inode>, i: nat)
    requires GoodTable(l, t)
    ensures OthersSame(l, img, t, img, t, i)
  {
  }

  lemma SpliceNone(f: seq<byte>, off: nat, src: seq<byte>)
    requires off <= |f|
    ensures Splice(f, off, src[..0]) == f
  {
  }

  // filewrite has written d at off, if it could start at all.
  ghost predicate WriteDone(l: Layout, img0: Image, t0: seq<Inode>, img: Image, t: seq<Inode>, k: nat, off: nat, d: seq<byte>)
    requires GoodTable(l, t0) && GoodTable(l, t) && k < l.ninodes
  {
    if off > t0[k].size then img == img0 && t == t0
    else Content(img, t[k]) == Splice(Content(img0, t0[k]), off, d) && OthersSame(l, img0, t0, img, t, k)
  }

  lemma WriteDoneStarts(l: Layout, img: Image, t: seq<Inode>, k: nat, off: nat, src: seq<byte>)
    requires GoodTable(l, t) && k < l.ninodes
    ensures WriteDone(l, img, t, img, t, k, off, src[..0])
  {
    if off <= t[k].size { SpliceNone(Content(img, t[k]), off, src); }
  }

  lemma WriteDoneMeans(l: Layout, img0: Image, t0: seq<Inode>, img: Image, t: seq<Inode>, k: nat, off: nat, d: seq<byte>)
    requires GoodTable(l, t0) && GoodTable(l, t) && k < l.ninodes && WriteDone(l, img0, t0, img, t, k, off, d)
    ensures if off > t0[k].size then img == img0 && t == t0
            else off + |d| <= t[k].size && Content(img, t[k]) == Splice(Content(img0, t0[k]), off, d)
    ensures OthersSame(l, img0, t0, img, t, k)
  {
  }

  lemma WriteDoneStep(l: Layout, img0: Image, t0: seq<Inode>, img1: Image, t1: seq<Inode>, img2: Image, t2: seq<Inode>,
                      k: nat, off: nat, src: seq<byte>, i: nat, n: nat, r: nat)
    requires GoodTable(l, t0) && GoodTable(l, t1) && GoodTable(l, t2) && k < l.ninodes && off <= t0[k].size
    requires i + n <= |src| && r <= n && WriteDone(l, img0, t0, img1, t1, k, off, src[..i]) && off + i <= t1[k].size
    requires Content(img2, t2[k]) == Splice(Content(img1, t1[k]), off + i, src[i..i + n][..r])
    requires OthersSame(l, img1, t1, img2, t2, k)
    ensures WriteDone(l, img0, t0, img2, t2, k, off, src[..i + r])
  {
    hide Splice, OthersSame;
    WritesJoin(Content(img0, t0[k]), off, src, i, n, r);
    OthersTwice(l, img0, t0, img1, t1, img2, t2, k);
  }

  // A map block with its first n bits set.
  function FirstBits(n: nat): (b: Block)
    requires n <= BPB
    ensures Whole(b)
  {
    if n == 0 then Zero() else MarkBit(FirstBits(n - 1), n - 1)
  }

  lemma {:induction false} FirstBitsAt(n: nat, j: nat)
    requires n <= BPB && j < BPB
    ensures BlockBit(FirstBits(n), j) <==> j < n
  {
    if n == 0 {
      ZeroBit(j % 8);
    } else {
      FirstBitsAt(n - 1, j);
      BitsAt(FirstBits(n - 1), n - 1, j);
    }
  }

  lemma {:induction false} ZeroBit(i: nat)
    ensures !BitOf(0, i)
  {
    if i > 0 { ZeroBit(i - 1); }
  }

  // A disk without files, with one map block: the metadata is marked, and all else is zero.
  function FreshDisk(l: Layout): (img: Image)
    requires l.Good() && l.size < BPB
    ensures |img| == l.size
  {
    seq(l.size, _ => Zero())[l.bmapStart := FirstBits(l.DataStart())]
  }

  function NoFiles(l: Layout): seq<Inode> { seq(l.ninodes, _ => EmptyInode()) }

  lemma ZeroInode(j: nat)
    ensures HoldsInode(Zero(), j, EmptyInode())
  {
    hide Word, Zero;
    ZeroWord(SizeWord(j));
    forall t | 0 <= t <= NDIRECT
      ensures Word(Zero(), SizeWord(j) + 1 + t) == EmptyInode().addrs[t]
    {
      ZeroWord(SizeWord(j) + 1 + t);
    }
  }

  lemma FreshImage(l: Layout)
    requires l.Good() && l.size < BPB
    ensures GoodImage(l, FreshDisk(l)) && GoodTable(l, NoFiles(l))
    ensures FreshDisk(l)[l.bmapStart] == FirstBits(l.DataStart())
    ensures forall c | 0 <= c < l.size && c != l.bmapStart :: FreshDisk(l)[c] == Zero()
    ensures forall i | 0 <= i < l.ninodes :: NoFiles(l)[i] == EmptyInode()
  {
    hide FirstBits, Zero;
  }

  lemma FreshBits(l: Layout, b: nat)
    requires l.Good() && l.size < BPB && b < l.size && GoodImage(l, FreshDisk(l))
    ensures Taken(l, FreshDisk(l), b) <==> b < l.DataStart()
  {
    hide FirstBits, BlockBit, FreshDisk;
    FreshImage(l);
    assert l.MapBlock(b) == l.bmapStart && b % BPB == b;
    FirstBitsAt(l.DataStart(), b);
  }

  lemma FreshMaps(l: Layout)
    requires l.Good() && l.size < BPB && GoodTable(l, NoFiles(l))
    ensures Mapped(l, FreshDisk(l), NoFiles(l), map[]) && Dense(l, FreshDisk(l), NoFiles(l))
  {
    hide FreshDisk, At;
    FreshImage(l);
    forall i, k | 0 <= i < l.ninodes && 0 <= k < SLOTS
      ensures At(FreshDisk(l), NoFiles(l)[i], k) == 0
    {
      EmptyAt(FreshDisk(l), k);
    }
  }

  // Such a disk is consistent: everything the file layer does starts from somewhere.
  lemma FreshDiskIsOk(l: Layout)
    requires l.Good() && l.size < BPB
    ensures Inv(l, FreshDisk(l), NoFiles(l), map[])
    ensures Synced(l, FreshDisk(l), NoFiles(l), -1)
  {
    hide FirstBits, Zero, FreshDisk, NoFiles, Taken, Mapped, Dense, HoldsInode;
    FreshImage(l);
    FreshMaps(l);
    forall b: nat | b < l.size
      ensures Taken(l, FreshDisk(l), b) <==> b < l.DataStart()
    {
      FreshBits(l, b);
    }
    forall j | 0 <= j < l.ninodes
      ensures l.InodeBlock(j) < l.size && HoldsInode(FreshDisk(l)[l.InodeBlock(j)], j, NoFiles(l)[j])
    {
      InodeBlockInArea(l, j);
      ZeroInode(j);
    }
  }

  lemma Joined(src: seq<byte>, tot: nat, m: nat, n: nat)
    requires tot + m <= |src| && n <= m
    ensures src[..tot] + src[tot..tot + m][..n] == src[..tot + n]
  {
    assert src[tot..tot + m][..n] == src[tot..tot + n];
  }

  lemma PrefixOfPrefix(s: seq<byte>, n: nat, k: nat)
    requires k <= n <= |s|
    ensures s[..n][..k] == s[..k]
  {
  }

  // A piece of a block, of which only a part is copied, joins what was read before.
  lemma SlicesJoin(f: seq<byte>, off: nat, tot: nat, b: seq<byte>, o: nat, m: nat, got: nat)
    requires off + tot + m <= |f| && o + m <= |b| && b[o..o + m] == f[off + tot..off + tot + m] && got <= m
    ensures f[off..off + tot] + b[o..o + got] == f[off..off + tot + got]
  {
    var x, y, whole := b[o..o + got], f[off + tot..off + tot + got], b[o..o + m];
    forall q | 0 <= q < |x|
      ensures x[q] == y[q]
    {
      assert x[q] == whole[q] == f[off + tot..off + tot + m][q];
    }
    assert x == y;
  }
}
