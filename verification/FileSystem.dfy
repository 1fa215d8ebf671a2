// kernel/fs.c: block allocation, block maps and the contents of files.

module FileSystem {
  import opened Bytes
  import opened FileBlocks
  import opened FileModel
  import opened FileTransactions

  // The disk as a file system call sees it through the log and the cache: bread finds
  // what was last written, and log_write records the block for the running operation.
  class Store {
    var image: Image
    ghost var kept: Image        // what the disk and the log have of it, once the operation is committed
    ghost var stray: set<nat>    // blocks changed in the cache and not logged
    ghost var begun: Image       // the image when the running operation began
    ghost var logged: set<nat>   // blocks it has logged
    ghost const low: nat         // the boot block, the superblock and the log are below

    constructor (image: Image, ghost low: nat)
      ensures this.image == kept == begun == image && logged == stray == {} && this.low == low && Framed()
    {
      this.image, kept, begun, logged, stray, this.low := image, image, image, {}, {}, low;
    }

    // Nothing is kept that is not logged, and the log itself never changes; what is cached
    // is kept but for stray blocks.
    ghost predicate Framed()
      reads this
    {
      && Changes(low, begun, kept, logged) && |image| == |kept|
      && (forall c | 0 <= c < |image| && c !in stray :: image[c] == kept[c])
      && (stray == {} ==> image == kept)
    }

    method Read(bn: nat) returns (data: Block)
      requires bn < |image|
      ensures data == image[bn]
    {
      data := image[bn];
    }

    // A change that is logged.
    method Write(bn: nat, data: Block)
      requires low <= bn < |image| && Framed()
      modifies `image, `kept, `logged
      ensures image == old(image)[bn := data] && kept == old(kept)[bn := data] && logged == old(logged) + {bn} && Framed()
    {
      ChangesMore(low, begun, kept, logged, bn, data);
      image, kept := image[bn := data], kept[bn := data];
      logged := logged + {bn};
    }

    // A change that is not. A commit copies what is cached for the blocks of the log, so it
    // takes the change along if the block is logged anyway.
    method Scribble(bn: nat, data: Block)
      requires low <= bn < |image| && Framed()
      modifies `image, `kept, `stray
      ensures image == old(image)[bn := data] && Framed()
      ensures if bn in logged then kept == old(kept)[bn := data] && stray == old(stray)
              else kept == old(kept) && stray == old(stray) + {bn}
    {
      image := image[bn := data];
      if bn in logged {
        ChangesMore(low, begun, kept, logged, bn, data);
        assert logged + {bn} == logged;
        kept := kept[bn := data];
      } else {
        stray := stray + {bn};
      }
    }

    // begin_op, with everything before committed
    method BeginOp()
      requires stray == {} && Framed()
      modifies `begun, `logged
      ensures image == begun && logged == {} && Framed()
    {
      ChangesNone(low, image);
      begun, logged := image, {};
    }
  }

  // struct inode, as far as the contents of the file go.
  class InodeRef {
    const inum: nat
    const addrs: array<nat>
    var size: nat

    ghost function Value(): Inode
      reads this, addrs
    {
      Inode(addrs[..], size)
    }

    constructor (inum: nat, ino: Inode)
      ensures this.inum == inum && Value() == ino && fresh(addrs)
    {
      this.inum, size := inum, ino.size;
      addrs := new nat[|ino.addrs|](i requires 0 <= i < |ino.addrs| => ino.addrs[i]);
      new;
      assert addrs[..] == ino.addrs;
    }
  }

  class Volume {
    const store: Store
    const layout: Layout               // the superblock
    ghost var table: seq<Inode>        // every inode, as held in memory or on the disk
    ghost var owner: map<nat, Slot>    // who owns each allocated block

    constructor (store: Store, layout: Layout, ghost table: seq<Inode>, ghost owner: map<nat, Slot>)
      ensures this.store == store && this.layout == layout && this.table == table && this.owner == owner
    {
      this.store, this.layout, this.table, this.owner := store, layout, table, owner;
    }

    ghost predicate Consistent()
      reads this, store
    {
      Inv(layout, store.image, table, owner) && Guarded()
    }

    ghost predicate Guarded()
      reads store
    {
      store.Framed() && store.low == layout.inodeStart
    }

    // ip is the locked in-memory copy of its inode; the others are on the disk.
    ghost predicate Open(ip: InodeRef)
      reads this, store, ip, ip.addrs
    {
      && Consistent() && ip.inum < layout.ninodes && ip.addrs.Length == NDIRECT + 1
      && table[ip.inum] == ip.Value()
      && Synced(layout, store.image, table, ip.inum)
    }

    // balloc's inner loop: the first clear bit of bp, the map block for b onwards.
    method FirstClear(bp: Block, b: nat) returns (bi: nat)
      requires Whole(bp)
      ensures bi <= BPB && forall c: nat | c < bi :: BlockBit(bp, c)
      ensures bi < BPB && b + bi < layout.size ==> !BlockBit(bp, bi)
      ensures bi == BPB || b + bi >= layout.size || !BlockBit(bp, bi)
    {
      bi := 0;
      while bi < BPB && b + bi < layout.size
        invariant 0 <= bi <= BPB && forall c: nat | c < bi :: BlockBit(bp, c)
      {
        if !BlockBit(bp, bi) {
          return;
        }
        bi := bi + 1;
      }
    }

    // balloc. 0: no free block.
    method Balloc() returns (r: nat)
      requires Consistent()
      modifies store`image, store`kept, store`logged
      ensures Guarded() && (r == 0 ==> store.image == old(store.image) && store.logged == old(store.logged))
      ensures r == 0 ==> Exhausted(layout, store.image)
      ensures r != 0 ==> Allocated(layout, old(store.image), store.image, r) && TakenBelow(layout, old(store.image), r)
      ensures r != 0 ==> store.logged == old(store.logged) + {layout.MapBlock(r), r}
    {
      hide Store.Framed, Mapped, Dense, BlockBit, MarkBit, Allocated, Taken, TakenBelow, Layout.MapBlock, Layout.HasMap, FirstOfMap;
      ghost var img := store.image;
      TakenBelowStarts(layout, img);
      var b := 0;
      while b < layout.size
        invariant FirstOfMap(b) && store.image == img && store.logged == old(store.logged) && Guarded() && TakenBelow(layout, img, b)
        decreases layout.size - b
      {
        MapBlockInBitmap(layout, b);
        var bp := store.Read(layout.MapBlock(b));
        var bi := FirstClear(bp, b);
        ScanStep(layout, img, b, bi);
        FirstOfNext(b);
        if bi < BPB && b + bi < layout.size {
          MarkAllocates(layout, img, b + bi);
          store.Write(layout.MapBlock(b), MarkBit(bp, bi));
          store.Write(b + bi, Zero());
          return b + bi;
        }
        b := b + BPB;
      }
      TakenBelowAll(layout, img, b);
      return 0;
    }

    // Allocation logs the new block, the indirect block, and their blocks of the free map.
    ghost predicate Logs(ip: InodeRef, c: nat, addr: nat)
      requires ip.addrs.Length == NDIRECT + 1
      reads ip.addrs
    {
      LogsFor(layout, c, addr) || LogsFor(layout, c, ip.addrs[NDIRECT])
    }

    // "addr = balloc; if 0, fail; ip->addrs[k] = addr"
    method AllocSlot(ip: InodeRef, k: nat) returns (addr: nat)
      requires Open(ip) && k <= NDIRECT && ip.addrs[k] == 0
      modifies store`image, store`kept, store`logged, ip.addrs, `table, `owner
      ensures Open(ip) && Grown(layout, old(store.image), old(table), store.image, table, ip.inum)
      ensures addr == ip.addrs[k]
      ensures forall m | 0 <= m <= NDIRECT && m != k :: ip.addrs[m] == old(ip.addrs[m])
      ensures addr == 0 ==> store.image == old(store.image) && table == old(table) && Exhausted(layout, store.image)
      ensures forall c | c in store.logged && c !in old(store.logged) :: Logs(ip, c, addr)
    {
      hide Store.Framed, Mapped, Accurate, Dense, Grown, Synced, Taken;
      ghost var img, table0, owner0 := store.image, table, owner;
      addr := Balloc();
      if addr == 0 {
        GrownSame(layout, img, table, owner, ip.inum);
        return 0;
      }
      MapBlockInBitmap(layout, addr);
      AttachDirectGrows(layout, img, table, owner, store.image, addr, ip.inum, k);
      ip.addrs[k] := addr;
      owner := owner[addr := Slot(ip.inum, k)];
      table := Attach(table, ip.inum, k, addr);
      GrownIsSynced(layout, img, table0, owner0, store.image, table, owner, ip.inum);
      assert table[ip.inum] == ip.Value();
    }

    // The rest of bmap, once there is an indirect block.
    method LinkSlot(ip: InodeRef, k: nat) returns (addr: nat)
      requires Open(ip) && NDIRECT < k < SLOTS && ip.addrs[NDIRECT] != 0
      modifies store`image, store`kept, store`logged, `owner
      ensures Open(ip) && Grown(layout, old(store.image), table, store.image, table, ip.inum)
      ensures addr == At(store.image, table[ip.inum], k)
      ensures old(At(store.image, table[ip.inum], k)) != 0 ==> Unwritten(old(store.image), old(store.logged)) && owner == old(owner)
      ensures addr == 0 ==> Exhausted(layout, store.image)
      ensures forall c | c in store.logged && c !in old(store.logged) :: Logs(ip, c, addr)
    {
      hide Store.Framed, Mapped, Accurate, Dense, Grown, Synced, Taken, At, Word;
      ghost var img, i, owner0 := store.image, ip.inum, owner;
      var ind := ip.addrs[NDIRECT];
      IndirectWord(layout, img, table, owner, i, k);
      GrownSame(layout, img, table, owner, i);
      var a := store.Read(ind);
      addr := Word(a, k - NDIRECT - 1);
      if addr == 0 {
        addr := Balloc();
        if addr != 0 {
          MapBlockInBitmap(layout, addr);
          AllocatedKeepsIndirect(layout, img, table, owner, store.image, addr, i);
          AttachIndirectGrows(layout, img, table, owner, store.image, addr, i, k);
          store.Write(ind, SetWord(a, k - NDIRECT - 1, addr));
          owner := owner[addr := Slot(i, k)];
          GrownIsSynced(layout, img, table, owner0, store.image, table, owner, i);
        }
      }
    }

    ghost predicate Unwritten(img: Image, logged: set<nat>)
      reads store
    {
      store.image == img && store.logged == logged
    }

    // bmap, in range. 0: out of disk space.
    method Bmap(ip: InodeRef, bn: nat) returns (addr: nat)
      requires Open(ip) && bn < MAXFILE
      modifies store`image, store`kept, store`logged, ip.addrs, `table, `owner
      ensures Open(ip) && Grown(layout, old(store.image), old(table), store.image, table, ip.inum)
      ensures addr == At(store.image, table[ip.inum], DataSlot(bn))
      ensures old(At(store.image, table[ip.inum], DataSlot(bn))) != 0 ==> Unwritten(old(store.image), old(store.logged)) && table == old(table) && owner == old(owner)
      ensures addr == 0 ==> Exhausted(layout, store.image)
      ensures old(ip.addrs[NDIRECT]) != 0 ==> ip.addrs[NDIRECT] == old(ip.addrs[NDIRECT])
      ensures forall c | c in store.logged && c !in old(store.logged) :: Logs(ip, c, addr)
    {
      hide Store.Framed, LogsFor, Mapped, Accurate, Dense, Synced, Taken;
      ghost var i := ip.inum;
      GrownSame(layout, store.image, table, owner, i);
      if bn < NDIRECT {
        addr := ip.addrs[bn];
        if addr == 0 {
          addr := AllocSlot(ip, bn);
        }
        return;
      }
      ghost var img0, t0 := store.image, table;
      if ip.addrs[NDIRECT] == 0 {
        var ind := AllocSlot(ip, NDIRECT);
        if ind == 0 {
          return 0;
        }
      }
      ghost var img1, t1 := store.image, table;
      addr := LinkSlot(ip, bn + 1);
      GrownTwice(layout, img0, t0, img1, t1, store.image, table, i);
    }

    // readi's loop, over left bytes of the file; room of them can be copied.
    method ReadLoop(ip: InodeRef, off: nat, left: nat, room: nat) returns (dst: seq<byte>)
      requires Open(ip) && off + left <= ip.size
      modifies store`image, store`kept, store`logged, ip.addrs, `table, `owner
      ensures Open(ip) && Unwritten(old(store.image), old(store.logged)) && table == old(table)
      ensures |Content(store.image, table[ip.inum])| == ip.size
      ensures dst == Content(store.image, table[ip.inum])[off..off + if room < left then room else left]
    {
      hide Inv, Synced, Content, Grown, Store.Framed, Logs, Piece, At, DataSlot;
      dst := [];
      SizeOk(layout, store.image, table, owner, ip.inum);
      ghost var i, img := ip.inum, store.image;
      ghost var f := Content(img, table[i]);
      var tot := 0;
      while tot < left
        invariant Open(ip) && Unwritten(img, old(store.logged)) && table == old(table)
        invariant tot <= left && tot <= room && dst == f[off..off + tot]
      {
        var pos := off + tot;
        var m := Piece(left - tot, pos);
        ReadPiece(layout, img, table, owner, i, pos, m);
        var addr := Bmap(ip, pos / BSIZE);
        if addr == 0 {
          break;
        }
        var bp := store.Read(addr);
        var got := if m <= room - tot then m else room - tot;
        SlicesJoin(f, off, tot, bp.bytes, pos % BSIZE, m, got);
        dst := dst + bp.bytes[pos % BSIZE..pos % BSIZE + got];
        if got < m {
          break;
        }
        tot := tot + m;
      }
    }

    // readi. room is how many bytes the destination takes before a copy fails; then the
    // result is -1.
    method Readi(ip: InodeRef, off: nat, n: nat, room: nat) returns (r: int, dst: seq<byte>)
      requires Open(ip) && off < WORD && n < WORD
      modifies store`image, store`kept, store`logged, ip.addrs, `table, `owner
      ensures Open(ip) && Unwritten(old(store.image), old(store.logged)) && table == old(table)
      ensures var want := InRange(Content(store.image, table[ip.inum]), off, n);
              if room < |want| then r == -1 && dst == want[..room] else r == |want| && dst == want
    {
      hide Inv, Synced, Content, Grown, Wraps, Store.Framed;
      WrapsWhenLarge(off, n);
      SizeOk(layout, store.image, table, owner, ip.inum);
      if off > ip.size || Wraps(off, n) {
        return 0, [];
      }
      var left := if off + n > ip.size then ip.size - off else n;
      dst := ReadLoop(ip, off, left, room);
      r := if |dst| < left then -1 else left;
    }

    // The bytes of the file a read asks for: none when the range wraps or starts past the end.
    ghost function InRange(f: seq<byte>, off: nat, n: nat): seq<byte> {
      if off > |f| || off + n >= WORD then [] else f[off..if off + n < |f| then off + n else |f|]
    }

    // Every inode is on the disk.
    ghost predicate Saved()
      requires Consistent()
      reads this, store
    {
      Synced(layout, store.image, table, -1)
    }

    // What is kept is as sound as what is cached.
    ghost predicate Twin(dirty: int)
      reads this, store
    {
      && Inv(layout, store.kept, table, owner) && Synced(layout, store.kept, table, dirty)
      && |store.kept| == |store.image| && forall c | c in store.stray :: layout.DataStart() <= c
    }

    lemma OnlyLogged()
      requires Guarded()
      ensures Changes(layout.inodeStart, store.begun, store.kept, store.logged)
    {
      hide Changes;
    }

    lemma TwinWhenClean(ip: InodeRef)
      requires Open(ip) && store.stray == {}
      ensures Twin(ip.inum) && store.image == store.kept
    {
      hide Changes, Mapped, Accurate, Dense, Synced;
    }

    // The stores into the dinode in iupdate.
    method FillDinode(ip: InodeRef, bp: Block) returns (dip: Block)
      requires Open(ip) && Whole(bp)
      ensures Whole(dip) && PartInode(bp, dip, ip.inum, ip.Value(), NDIRECT + 1)
    {
      hide Store.Framed, Mapped, Accurate, Dense, Synced, PartInode, SetWord;
      ghost var i := ip.inum;
      PartStarts(bp, i, table[i]);
      SetWordAt(bp, SizeWord(i), ip.size, 0);
      dip := SetWord(bp, SizeWord(ip.inum), ip.size);
      for t := 0 to NDIRECT + 1
        invariant Whole(dip) && PartInode(bp, dip, i, ip.Value(), t)
      {
        AddressInData(layout, store.image, table, owner, i, t);
        PartStep(bp, dip, i, table[i], t);
        SetWordAt(dip, SizeWord(i) + 1 + t, ip.addrs[t], 0);
        dip := SetWord(dip, SizeWord(ip.inum) + 1 + t, ip.addrs[t]);
      }
    }

    // iupdate
    method Iupdate(ip: InodeRef)
      requires Open(ip) && Twin(ip.inum)
      modifies store`image, store`kept, store`logged
      ensures Open(ip) && Saved() && Twin(-1)
      ensures forall j | 0 <= j < layout.ninodes :: Content(store.image, table[j]) == Content(old(store.image), table[j])
      ensures forall j | 0 <= j < layout.ninodes :: Content(store.kept, table[j]) == Content(old(store.kept), table[j])
      ensures old(Exhausted(layout, store.image)) ==> Exhausted(layout, store.image)
      ensures store.logged == old(store.logged) + {layout.InodeBlock(ip.inum)}
      ensures Updated(layout, old(store.image), store.image, ip.inum, ip.Value())
    {
      hide Changes, Mapped, Accurate, Dense, Synced, Content, PartInode, Dinode, Exhausted;
      ghost var img, kept, i := store.image, store.kept, ip.inum;
      InodeBlockInArea(layout, i);
      assert img[layout.InodeBlock(i)] == kept[layout.InodeBlock(i)];
      var bp := store.Read(layout.InodeBlock(ip.inum));
      var dip := FillDinode(ip, bp);
      InodeWritten(layout, img, table, owner, i, dip);
      DinodeIs(bp, dip, i, table[i]);
      InodeWritten(layout, kept, table, owner, i, dip);
      store.Write(layout.InodeBlock(ip.inum), dip);
      SavedIsSynced(layout, store.image, table, i);
    }

    // One turn of writei's loop; done has been written, and got bytes of piece can be copied
    // before the copy fails. 0: out of disk space. saved: how many of them are kept.
    method WritePiece(ip: InodeRef, off: nat, pos: nat, ghost done: seq<byte>, piece: seq<byte>, got: nat, ghost img0: Image, ghost t0: seq<Inode>)
      returns (addr: nat, ghost saved: nat)
      requires Open(ip) && GoodTable(layout, t0) && Wrote(layout, img0, t0, store.image, table, ip.inum, off, done) && store.stray == {}
      requires pos == off + |done| && 0 < |piece| && pos % BSIZE + |piece| <= BSIZE && pos + |piece| <= MAXFILE * BSIZE && got <= |piece|
      modifies store`image, store`kept, store`logged, store`stray, ip.addrs, `table, `owner
      ensures Open(ip) && Twin(ip.inum) && ip.size == old(ip.size)
      ensures addr == 0 ==> Wrote(layout, img0, t0, store.image, table, ip.inum, off, done) && Exhausted(layout, store.image) && store.stray == {}
      ensures addr != 0 ==> addr < layout.size && Wrote(layout, img0, t0, store.image, table, ip.inum, off, done + piece[..got])
      ensures addr != 0 ==> (saved == 0 || saved == got) && Wrote(layout, img0, t0, store.kept, table, ip.inum, off, done + piece[..saved])
      ensures addr != 0 && (got == 0 || got == |piece|) ==> store.stray == {}
      ensures store.stray == {} ==> saved == got
      ensures old(ip.addrs[NDIRECT]) != 0 ==> ip.addrs[NDIRECT] == old(ip.addrs[NDIRECT])
      ensures forall c | c in store.logged && c !in old(store.logged) :: Logs(ip, c, addr)
      ensures var a := old(At(store.image, table[ip.inum], DataSlot(pos / BSIZE)));
              a != 0 ==> addr == a && store.logged <= old(store.logged) + {a} && owner == old(owner) && (a !in old(store.logged) && got < |piece| ==> saved == 0)
    {
      hide Store.Framed, Mapped, Accurate, Dense, Synced, Wrote, Grown, At, Overlay, Exhausted;
      ghost var i, img1, t1, o1 := ip.inum, store.image, table, owner;
      saved := got;
      addr := Bmap(ip, pos / BSIZE);
      WroteGrows(layout, img0, t0, img1, t1, o1, store.image, table, i, off, done);
      TwinWhenClean(ip);
      if addr == 0 {
        return;
      }
      saved := StorePiece(ip, addr, off, pos, done, piece, got, img0, t0);
    }

    // "bp = bread(addr); either_copyin; log_write(bp)"
    method StorePiece(ip: InodeRef, addr: nat, off: nat, pos: nat, ghost done: seq<byte>, piece: seq<byte>, got: nat, ghost img0: Image, ghost t0: seq<Inode>)
      returns (ghost saved: nat)
      requires Open(ip) && GoodTable(layout, t0) && Wrote(layout, img0, t0, store.image, table, ip.inum, off, done) && store.stray == {}
      requires pos == off + |done| && 0 < |piece| && pos % BSIZE + |piece| <= BSIZE && pos + |piece| <= MAXFILE * BSIZE && got <= |piece|
      requires addr == At(store.image, table[ip.inum], DataSlot(pos / BSIZE)) != 0
      modifies store`image, store`kept, store`logged, store`stray
      ensures Open(ip) && Twin(ip.inum) && addr < layout.size
      ensures Wrote(layout, img0, t0, store.image, table, ip.inum, off, done + piece[..got])
      ensures (saved == 0 || saved == got) && Wrote(layout, img0, t0, store.kept, table, ip.inum, off, done + piece[..saved])
      ensures got == 0 || got == |piece| ==> store.stray == {}
      ensures store.stray == {} ==> saved == got
      ensures addr !in old(store.logged) && got < |piece| ==> saved == 0
      ensures store.logged <= old(store.logged) + {addr}
    {
      hide Store.Framed, Mapped, Accurate, Dense, Synced, Wrote, At, Overlay;
      saved := got;
      assert done + piece[..0] == done;
      TwinWhenClean(ip);
      AddressInData(layout, store.image, table, owner, ip.inum, DataSlot(pos / BSIZE));
      if got == 0 {
        return;
      }
      PieceStored(layout, img0, t0, store.image, table, owner, ip.inum, off, done, piece, got);
      var bp := store.Read(addr);
      if got < |piece| {
        if addr !in store.logged { saved := 0; }
        store.Scribble(addr, Overlay(bp, pos % BSIZE, piece[..got]));
      } else {
        assert piece[..got] == piece;
        store.Write(addr, Overlay(bp, pos % BSIZE, piece));
      }
    }

    // How a write ended: tot bytes are written; part more are cached, because the copy failed
    // inside a block, and saved of these are kept.
    ghost predicate Stopped(n: nat, given: nat, tot: nat, part: nat, saved: nat)
      reads store
    {
      && tot + part <= n && (part > 0 ==> tot + part == given < n) && (saved == 0 || saved == part)
      && (part == 0 ==> store.stray == {}) && (store.stray == {} ==> saved == part)
    }

    // writei's loop has written tot bytes. touched are the data blocks it has written, and
    // maps the blocks of the free map it may have needed for them.
    ghost predicate Progress(ip: InodeRef, s0: State, logged0: set<nat>, src: seq<byte>, off: nat, tot: nat, touched: seq<nat>, maps: seq<nat>)
      requires Open(ip) && GoodTable(layout, s0.table)
      reads this, store, ip, ip.addrs
    {
      && tot <= |src| && Wrote(layout, s0.img, s0.table, store.image, table, ip.inum, off, src[..tot])
      && (tot == 0 ==> store.image == s0.img && table == s0.table && store.logged == logged0 && off <= ip.size)
      && Counted(|src|, off, tot, |touched|, |maps|)
      && Booked(layout, logged0, store.logged, ip.addrs[NDIRECT], touched, maps)
      && (LoggedBelow(s0.owner, logged0, ip.inum, 0) && tot < |src| && off + tot < ip.size ==>
            LoggedBelow(owner, store.logged, ip.inum, DataSlot((off + tot) / BSIZE)))
    }

    // It has ended; touched goes up to end.
    ghost predicate Finished(ip: InodeRef, s0: State, logged0: set<nat>, src: seq<byte>, off: nat, tot: nat, part: nat, saved: nat,
                             end: nat, touched: seq<nat>, maps: seq<nat>)
      requires Open(ip) && GoodTable(layout, s0.table) && tot + part <= |src| && saved <= part
      reads this, store, ip, ip.addrs
    {
      && Wrote(layout, s0.img, s0.table, store.image, table, ip.inum, off, src[..tot + part])
      && Wrote(layout, s0.img, s0.table, store.kept, table, ip.inum, off, src[..tot + saved])
      && off + tot <= end <= off + |src| && CountedTo(off, end, |touched|, |maps|)
      && Booked(layout, logged0, store.logged, ip.addrs[NDIRECT], touched, maps)
    }

    lemma ProgressStarts(ip: InodeRef, src: seq<byte>, off: nat)
      requires Open(ip) && off <= ip.size
      ensures Progress(ip, Here(), store.logged, src, off, 0, [], [])
    {
      hide Store.Framed, Mapped, Accurate, Dense, Synced, Wrote, BlocksTouched, Booked;
      WroteNothing(layout, store.image, table, owner, ip.inum, off);
      BookedNone(layout, store.logged, ip.addrs[NDIRECT]);
      CountsNone(|src|, off);
      assert src[..0] == [];
    }

    lemma ProgressEnds(ip: InodeRef, s0: State, logged0: set<nat>, src: seq<byte>, off: nat, tot: nat, touched: seq<nat>, maps: seq<nat>)
      requires Open(ip) && GoodTable(layout, s0.table) && store.stray == {} && Progress(ip, s0, logged0, src, off, tot, touched, maps)
      ensures Twin(ip.inum) && Finished(ip, s0, logged0, src, off, tot, 0, 0, off + tot, touched, maps)
    {
      hide Store.Framed, Mapped, Accurate, Dense, Synced, Wrote, BlocksTouched, Booked;
      TwinWhenClean(ip);
    }

    // What is known of the block for the next turn: the file has it if it reaches there, and
    // then it is not logged yet.
    lemma NextPiece(ip: InodeRef, s0: State, logged0: set<nat>, src: seq<byte>, off: nat, tot: nat, touched: seq<nat>, maps: seq<nat>)
      requires Open(ip) && GoodTable(layout, s0.table) && Progress(ip, s0, logged0, src, off, tot, touched, maps) && tot < |src|
      ensures var pos := off + tot;
              && Counted(|src|, off, tot, |touched|, |maps|) && CountedTo(off, pos, |touched|, |maps|)
              && (pos < ip.size || (tot == 0 && off % BSIZE != 0) ==>
                    pos / BSIZE < MAXFILE && At(store.image, table[ip.inum], DataSlot(pos / BSIZE)) != 0)
              && (pos < ip.size && LoggedBelow(s0.owner, logged0, ip.inum, 0) ==>
                    var a := At(store.image, table[ip.inum], DataSlot(pos / BSIZE));
                    a !in store.logged && LoggedBelow(owner, store.logged + {a}, ip.inum, DataSlot(pos / BSIZE + 1)))
    {
      hide LoggedBelow, Store.Framed, Mapped, Accurate, Dense, Synced, Wrote, At, Booked, BlocksTouched, DataSlot;
      var pos := off + tot;
      if pos < ip.size || (tot == 0 && off % BSIZE != 0) { FirstIsThere(layout, store.image, table, owner, ip.inum, pos); }
      if pos < ip.size && LoggedBelow(s0.owner, logged0, ip.inum, 0) { NotLoggedYet(layout, store.image, table, owner, ip.inum, pos / BSIZE, store.logged); }
    }

    // One turn of the loop; more says that it goes on.
    method LoopTurn(ip: InodeRef, src: seq<byte>, off: nat, given: nat, tot0: nat, ghost s0: State, ghost logged0: set<nat>, ghost touched0: seq<nat>, ghost maps0: seq<nat>)
      returns (more: bool, tot: nat, ghost part: nat, ghost saved: nat, ghost end: nat, ghost touched: seq<nat>, ghost maps: seq<nat>)
      requires Open(ip) && GoodTable(layout, s0.table) && store.stray == {} && Progress(ip, s0, logged0, src, off, tot0, touched0, maps0)
      requires tot0 < |src| && tot0 <= given && off + |src| <= MAXFILE * BSIZE
      modifies store`image, store`kept, store`logged, store`stray, ip.addrs, `table, `owner
      ensures Open(ip) && ip.size == old(ip.size)
      ensures more ==> store.stray == {} && tot0 < tot <= given && tot <= |src| && Progress(ip, s0, logged0, src, off, tot, touched, maps)
      ensures !more ==> tot == tot0 && Stopped(|src|, given, tot, part, saved) && Twin(ip.inum)
      ensures !more ==> saved <= part && Finished(ip, s0, logged0, src, off, tot, part, saved, end, touched, maps)
      ensures !more ==> Exhausted(layout, store.image) || tot + part == given
      ensures !more ==> (part > 0 ==> tot + part == given && part < Piece(|src| - tot, off + tot)) && (off + tot < ip.size ==> tot + part == given)
      ensures !more && LoggedBelow(s0.owner, logged0, ip.inum, 0) && part > 0 && off + tot < ip.size ==> saved == 0
    {
      hide Counted, CountedTo, LoggedBelow, StopsAt, DataSlot, Piece, Store.Framed, Mapped, Accurate, Dense, Synced, Wrote, Exhausted, BlocksTouched, At, Layout.HasMap, LogsFor, Booked;
      NextPiece(ip, s0, logged0, src, off, tot0, touched0, maps0);
      ghost var within := off + tot0 < ip.size && LoggedBelow(s0.owner, logged0, ip.inum, 0);
      tot, touched, maps, part, saved, end := tot0, touched0, maps0, 0, 0, off + tot0;
      var pos := off + tot;
      var m := Piece(|src| - tot, pos);
      var got := if m <= given - tot then m else given - tot;
      ghost var logged, ind, isNew := store.logged, ip.addrs[NDIRECT], tot > 0 || off % BSIZE == 0;
      var addr;
      addr, saved := WritePiece(ip, off, pos, src[..tot], src[tot..tot + m], got, s0.img, s0.table);
      BookedMore(layout, logged0, logged, ind, touched, maps, store.logged, ip.addrs[NDIRECT], addr, isNew);
      if addr == 0 {
        assert touched + [] == touched;
        TwinWhenClean(ip);
        more, saved := false, 0;
        return;
      }
      Joined(src, tot, m, got);
      Joined(src, tot, m, saved);
      TurnCounts(|src|, off, tot, |touched|, |maps|);
      maps := if isNew then maps + [layout.MapBlock(addr)] else maps;
      touched, end := touched + [addr], off + tot + m;
      more := got == m;
      if more {
        NextBlock(pos, m);
        if within { LoggedFewer(owner, logged + {addr}, store.logged, ip.inum, DataSlot(pos / BSIZE + 1)); }
        tot, saved := tot + m, 0;
      } else {
        part := got;
      }
    }

    // writei's loop.
    method WriteLoop(ip: InodeRef, src: seq<byte>, off: nat, given: nat)
      returns (tot: nat, ghost part: nat, ghost saved: nat, ghost end: nat, ghost touched: seq<nat>, ghost maps: seq<nat>)
      requires Open(ip) && off <= ip.size && off + |src| <= MAXFILE * BSIZE && store.stray == {}
      modifies store`image, store`kept, store`logged, store`stray, ip.addrs, `table, `owner
      ensures Open(ip) && Twin(ip.inum) && ip.size == old(ip.size) && Stopped(|src|, given, tot, part, saved)
      ensures GoodTable(layout, old(table)) && saved <= part
      ensures Finished(ip, old(Here()), old(store.logged), src, off, tot, part, saved, end, touched, maps)
      ensures tot < |src| ==> Exhausted(layout, store.image) || tot + part == given
      ensures StopsAt(ip.size, |src|, off, given, tot, part)
      ensures LoggedBelow(old(owner), old(store.logged), ip.inum, 0) && part > 0 && off + tot < ip.size ==> saved == 0
    {
      hide Store.Framed, Mapped, Accurate, Dense, Synced, Exhausted, Progress, Finished, LoggedBelow, StopsAt, Counted, CountedTo, At, DataSlot, Piece;
      ghost var s0, logged0 := Here(), store.logged;
      ProgressStarts(ip, src, off);
      tot, touched, maps := 0, [], [];
      part, saved, end := 0, 0, off;
      while tot < |src|
        invariant Open(ip) && tot <= |src| && tot <= given && ip.size == old(ip.size) && store.stray == {} && GoodTable(layout, s0.table)
        invariant part == saved == 0 && Progress(ip, s0, logged0, src, off, tot, touched, maps)
      {
        NextPiece(ip, s0, logged0, src, off, tot, touched, maps);
        ghost var k, n := |touched|, |maps|;
        var more;
        more, tot, part, saved, end, touched, maps := LoopTurn(ip, src, off, given, tot, s0, logged0, touched, maps);
        if !more {
          StopsHere(ip.size, |src|, off, given, tot, part, k, n);
          return;
        }
        part, saved := 0, 0;
      }
      StopsNever(ip.size, |src|, off, given);
      ProgressEnds(ip, s0, logged0, src, off, tot, touched, maps);
      end := off + tot;
    }

    // The end of writei: the new size, and iupdate. d is cached and dk kept.
    method FinishWrite(ip: InodeRef, off: nat, tot: nat, ghost d: seq<byte>, ghost dk: seq<byte>, ghost img0: Image, ghost t0: seq<Inode>)
      requires Open(ip) && Twin(ip.inum) && GoodTable(layout, t0) && tot <= |d| && tot <= |dk|
      requires Wrote(layout, img0, t0, store.image, table, ip.inum, off, d) && Wrote(layout, img0, t0, store.kept, table, ip.inum, off, dk)
      modifies store`image, store`kept, store`logged, ip, `table
      ensures Open(ip) && Saved() && Twin(-1)
      ensures off <= |Content(img0, t0[ip.inum])|
      ensures var f := Content(img0, t0[ip.inum]);
              && Content(store.image, table[ip.inum]) == Splice(f, off, d[..Visible(|f|, off, |d|, tot)])
              && Content(store.kept, table[ip.inum]) == Splice(f, off, dk[..Visible(|f|, off, |dk|, tot)])
      ensures OthersSame(layout, img0, t0, store.image, table, ip.inum) && OthersSame(layout, img0, t0, store.kept, table, ip.inum)
      ensures old(Exhausted(layout, store.image)) ==> Exhausted(layout, store.image)
      ensures store.logged == old(store.logged) + {layout.InodeBlock(ip.inum)}
    {
      hide Changes, Mapped, Accurate, Dense, Synced, Content, Splice, DenseTo, OthersSame, Exhausted, Visible, Updated;
      ghost var img1, kept1, t1, i := store.image, store.kept, table, ip.inum;
      WroteAll(layout, img0, t0, img1, t1, owner, i, off, d, tot);
      WroteAll(layout, img0, t0, kept1, t1, owner, i, off, dk, tot);
      if off + tot > ip.size {
        ip.size := off + tot;
      }
      table := table[i := table[i].(size := Reach(t0[i].size, off + tot))];
      ResizeIsSynced(layout, img1, t1, table, i);
      ResizeIsSynced(layout, kept1, t1, table, i);
      Iupdate(ip);
      OthersStill(layout, img0, t0, img1, store.image, table, i);
      OthersStill(layout, img0, t0, kept1, store.kept, table, i);
    }

    // The same for what has been written of src.
    method EndWrite(ip: InodeRef, off: nat, tot: nat, ghost src: seq<byte>, ghost part: nat, ghost saved: nat, ghost img0: Image, ghost t0: seq<Inode>)
      requires Open(ip) && Twin(ip.inum) && GoodTable(layout, t0) && tot + part <= |src| && tot + saved <= |src|
      requires Wrote(layout, img0, t0, store.image, table, ip.inum, off, src[..tot + part])
      requires Wrote(layout, img0, t0, store.kept, table, ip.inum, off, src[..tot + saved])
      modifies store`image, store`kept, store`logged, ip, `table
      ensures Open(ip) && Saved() && Twin(-1)
      ensures var f := Content(img0, t0[ip.inum]);
              && off <= |f|
              && Content(store.image, table[ip.inum]) == Splice(f, off, src[..Visible(|f|, off, tot + part, tot)])
              && Content(store.kept, table[ip.inum]) == Splice(f, off, src[..Visible(|f|, off, tot + saved, tot)])
      ensures OthersSame(layout, img0, t0, store.image, table, ip.inum) && OthersSame(layout, img0, t0, store.kept, table, ip.inum)
      ensures old(Exhausted(layout, store.image)) ==> Exhausted(layout, store.image)
      ensures store.logged == old(store.logged) + {layout.InodeBlock(ip.inum)}
    {
      hide Store.Framed, Mapped, Accurate, Dense, Synced, Content, Splice, Wrote, DenseTo, OthersSame, Exhausted, Visible, Twin;
      FinishWrite(ip, off, tot, src[..tot + part], src[..tot + saved], img0, t0);
      ghost var f := Content(img0, t0[ip.inum]);
      PrefixOfPrefix(src, tot + part, Visible(|f|, off, tot + part, tot));
      PrefixOfPrefix(src, tot + saved, Visible(|f|, off, tot + saved, tot));
    }

    // writei, once the range is known to be good.
    method WriteIn(ip: InodeRef, src: seq<byte>, off: nat, given: nat) returns (r: nat, ghost part: nat, ghost saved: nat)
      requires Open(ip) && off <= ip.size && off + |src| <= MAXFILE * BSIZE && store.stray == {}
      modifies store`image, store`kept, store`logged, store`stray, ip, ip.addrs, `table, `owner
      ensures Open(ip) && r <= |src| && Saved() && Twin(-1) && Stopped(|src|, given, r, part, saved)
      ensures var f := Content(old(store.image), old(table)[ip.inum]);
              && off <= |f|
              && Content(store.image, table[ip.inum]) == Splice(f, off, src[..Visible(|f|, off, r + part, r)])
              && Content(store.kept, table[ip.inum]) == Splice(f, off, src[..Visible(|f|, off, r + saved, r)])
      ensures OthersSame(layout, old(store.image), old(table), store.image, table, ip.inum)
      ensures OthersSame(layout, old(store.image), old(table), store.kept, table, ip.inum)
      ensures r < |src| ==> Exhausted(layout, store.image) || r + part == given
      ensures StopsAt(old(ip.size), |src|, off, given, r, part)
      ensures LoggedBelow(old(owner), old(store.logged), ip.inum, 0) && part > 0 && off + r < old(ip.size) ==> saved == 0
      ensures |store.logged - old(store.logged)| <= TouchLimit(off, |src|) + NewBlocks(off, TouchLimit(off, |src|)) + 3
      ensures layout.size <= BPB ==> |store.logged - old(store.logged)| <= TouchLimit(off, |src|) + 3
    {
      hide Booked, CountedTo, Store.Framed, LoggedBelow, StopsAt, Mapped, Accurate, Dense, Synced, Content, Exhausted, Splice, Wrote, DenseTo, OthersSame, TouchLimit, NewBlocks, Visible, Owned, Recorded, Taken;
      ghost var img0, t0, i, logged0 := store.image, table, ip.inum, store.logged;
      ghost var end, touched, maps;
      r, part, saved, end, touched, maps := WriteLoop(ip, src, off, given);
      ghost var logged := store.logged;
      EndWrite(ip, off, r, src, part, saved, img0, t0);
      AddressInData(layout, store.image, table, owner, i, NDIRECT);
      WriteWithin(layout, logged0, logged, ip.addrs[NDIRECT], layout.InodeBlock(i), touched, maps, off, end, |src|);
    }

    // writei. given is how many bytes of src can be copied before the copy fails. -1: the
    // request is malformed or past the largest file. What is cached of the failed block can
    // be read, although it is kept only if the block was logged anyway.
    method Writei(ip: InodeRef, src: seq<byte>, off: nat, given: nat) returns (r: int, ghost part: nat, ghost saved: nat)
      requires Open(ip) && off < WORD && |src| < WORD && store.stray == {}
      modifies store`image, store`kept, store`logged, store`stray, ip, ip.addrs, `table, `owner
      ensures Open(ip) && -1 <= r <= |src|
      ensures r == -1 <==> off > old(ip.size) || off + |src| > MAXFILE * BSIZE
      ensures r == -1 ==> Unwritten(old(store.image), old(store.logged)) && table == old(table) && store.stray == {} && store.kept == old(store.kept)
      ensures r >= 0 ==> Saved() && Twin(-1) && Stopped(|src|, given, r, part, saved)
      ensures r >= 0 ==> var f := Content(old(store.image), old(table)[ip.inum]);
              && off <= |f|
              && Content(store.image, table[ip.inum]) == Splice(f, off, src[..Visible(|f|, off, r + part, r)])
              && Content(store.kept, table[ip.inum]) == Splice(f, off, src[..Visible(|f|, off, r + saved, r)])
      ensures r >= 0 ==> OthersSame(layout, old(store.image), old(table), store.image, table, ip.inum)
      ensures r >= 0 ==> OthersSame(layout, old(store.image), old(table), store.kept, table, ip.inum)
      ensures 0 <= r < |src| ==> Exhausted(layout, store.image) || r + part == given
      ensures r >= 0 ==> StopsAt(old(ip.size), |src|, off, given, r, part)
      ensures r >= 0 && LoggedBelow(old(owner), old(store.logged), ip.inum, 0) && part > 0 && off + r < old(ip.size) ==> saved == 0
      ensures |store.logged - old(store.logged)| <= TouchLimit(off, |src|) + NewBlocks(off, TouchLimit(off, |src|)) + 3
      ensures layout.size <= BPB ==> |store.logged - old(store.logged)| <= TouchLimit(off, |src|) + 3
    {
      hide Store.Framed, LoggedBelow, StopsAt, Mapped, Accurate, Dense, Synced, Content, Exhausted, Splice, OthersSame, TouchLimit, Wraps, Visible, Stopped, Twin;
      WrapsWhenLarge(off, |src|);
      part, saved := 0, 0;
      SizeOk(layout, store.image, table, owner, ip.inum);
      if off > ip.size || Wraps(off, |src|) {
        assert store.logged - old(store.logged) == {};
        return -1, 0, 0;
      }
      if off + |src| > MAXFILE * BSIZE {
        assert store.logged - old(store.logged) == {};
        return -1, 0, 0;
      }
      r, part, saved := WriteIn(ip, src, off, given);
    }

    // bfree. false is the "freeing free block" panic.
    method Bfree(b: nat) returns (ok: bool)
      requires layout.Good() && GoodImage(layout, store.image) && b < layout.size && Guarded()
      modifies store`image, store`kept, store`logged
      ensures ok <==> Taken(layout, old(store.image), b)
      ensures ok ==> Freed(layout, old(store.image), store.image, b)
      ensures !ok ==> store.image == old(store.image)
      ensures Guarded() && store.logged == if ok then old(store.logged) + {layout.MapBlock(b)} else old(store.logged)
    {
      hide Store.Framed, BlockBit, ClearBit, Freed;
      MapBlockInBitmap(layout, b);
      ClearFrees(layout, store.image, b);
      var bp := store.Read(layout.MapBlock(b));
      var bi := b % BPB;
      if !BlockBit(bp, bi) {
        return false;
      }
      store.Write(layout.MapBlock(b), ClearBit(bp, bi));
      return true;
    }

    // "if(a) bfree(a)", for the slot of inode i whose turn it is. bfree cannot panic.
    method DropSlot(a: nat, ghost img0: Image, ghost i: nat, ghost n: nat, ghost logged0: set<nat>)
      requires Inv(layout, img0, table, owner) && i < layout.ninodes && n < SLOTS
      requires FreedTo(layout, img0, owner, store.image, i, n) && a == At(img0, table[i], SlotOfRank(n)) && Guarded()
      requires store.logged == logged0 + MapsOf(layout, owner, i, n)
      modifies store`image, store`kept, store`logged
      ensures FreedTo(layout, img0, owner, store.image, i, n + 1) && Guarded()
      ensures store.logged == logged0 + MapsOf(layout, owner, i, n + 1)
    {
      hide MapsOf, Store.Framed, Mapped, Accurate, Dense, Taken, Freed, At;
      ghost var img := store.image;
      MapsMore(layout, img0, table, owner, i, n);
      if a != 0 {
        FreedReady(layout, img0, table, owner, img, i, n);
        var ok := Bfree(a);
        assert ok;
        FreedStep(layout, img0, table, owner, img, store.image, i, n);
      } else {
        FreedSkip(layout, img0, table, owner, img, i, n);
      }
    }

    // The loop over the words of the indirect block.
    method DropIndirect(bp: Block, ghost img0: Image, ghost i: nat, ghost logged0: set<nat>)
      requires Inv(layout, img0, table, owner) && i < layout.ninodes && Whole(bp)
      requires var ind := table[i].addrs[NDIRECT]; 0 < ind < |img0| && bp == img0[ind]
      requires FreedTo(layout, img0, owner, store.image, i, NDIRECT) && Guarded()
      requires store.logged == logged0 + MapsOf(layout, owner, i, NDIRECT)
      modifies store`image, store`kept, store`logged
      ensures FreedTo(layout, img0, owner, store.image, i, SLOTS - 1) && Guarded()
      ensures store.logged == logged0 + MapsOf(layout, owner, i, SLOTS - 1)
    {
      hide MapsOf, Store.Framed, Mapped, Accurate, Dense, FreedTo, At, Word;
      for j := 0 to NINDIRECT
        invariant FreedTo(layout, img0, owner, store.image, i, NDIRECT + j) && Guarded()
        invariant store.logged == logged0 + MapsOf(layout, owner, i, NDIRECT + j)
      {
        IndirectRank(layout, img0, table, owner, store.image, i, NDIRECT + j, j);
        DropSlot(Word(bp, j), img0, i, NDIRECT + j, logged0);
      }
    }

    // The loop over the direct addresses.
    method DropDirect(ip: InodeRef)
      requires Open(ip)
      modifies store`image, store`kept, store`logged, ip.addrs
      ensures FreedTo(layout, old(store.image), owner, store.image, ip.inum, NDIRECT) && Guarded()
      ensures forall m | 0 <= m <= NDIRECT :: ip.addrs[m] == if m < NDIRECT then 0 else old(ip.addrs[m])
      ensures store.logged == old(store.logged) + MapsOf(layout, owner, ip.inum, NDIRECT)
    {
      hide MapsOf, Store.Framed, Mapped, Accurate, Dense, Synced, FreedTo;
      ghost var img0, i, logged0 := store.image, ip.inum, store.logged;
      FreedNone(layout, img0, owner, i);
      MapsNone(layout, owner, i);
      for k := 0 to NDIRECT
        invariant FreedTo(layout, img0, owner, store.image, i, k) && Guarded()
        invariant forall m | 0 <= m <= NDIRECT :: ip.addrs[m] == if m < k then 0 else table[i].addrs[m]
        invariant store.logged == logged0 + MapsOf(layout, owner, i, k)
      {
        DropSlot(ip.addrs[k], img0, i, k, logged0);
        if ip.addrs[k] != 0 {
          ip.addrs[k] := 0;
        }
      }
    }

    // itrunc
    method Itrunc(ip: InodeRef)
      requires Open(ip) && store.stray == {}
      modifies store`image, store`kept, store`logged, ip, ip.addrs, `table, `owner
      ensures Open(ip) && Saved() && table[ip.inum] == EmptyInode()
      ensures OthersSame(layout, old(store.image), old(table), store.image, table, ip.inum)
      ensures owner == Disown(old(owner), ip.inum)
      ensures store.logged == old(store.logged) + FileMaps(layout, old(owner), ip.inum) + {layout.InodeBlock(ip.inum)}
    {
      hide Store.Framed, Mapped, Accurate, Dense, Synced, FreedTo, At, OthersSame, Word, MapsOf, FileMaps, Updated, Owned, Recorded, Taken, Layout.MapBlock;
      ghost var img0, t0, i, logged0 := store.image, table, ip.inum, store.logged;
      DropDirect(ip);
      if ip.addrs[NDIRECT] != 0 {
        IndirectRank(layout, img0, table, owner, store.image, i, NDIRECT, 0);
        var bp := store.Read(ip.addrs[NDIRECT]);
        DropIndirect(bp, img0, i, logged0);
        IndirectSlotIsLast(img0, table[i]);
        DropSlot(ip.addrs[NDIRECT], img0, i, SLOTS - 1, logged0);
        ip.addrs[NDIRECT] := 0;
      } else {
        FreedRest(layout, img0, table, owner, store.image, i, NDIRECT);
        MapsRest(layout, img0, table, owner, i, NDIRECT);
      }
      MapsAll(layout, img0, table, owner, i);
      ip.size := 0;
      TruncateKeepsInv(layout, img0, table, owner, store.image, i);
      assert ip.addrs[..] == EmptyInode().addrs;
      table := table[i := EmptyInode()];
      owner := Disown(owner, i);
      SyncedSame(layout, img0, t0, store.image, table, i);
      TwinWhenClean(ip);
      ghost var img1 := store.image;
      Iupdate(ip);
      OthersStill(layout, img0, t0, img1, store.image, table, i);
    }

    ghost function Here(): State
      reads this, store
    {
      State(store.image, table, owner)
    }

    // The state that a crash would leave, once the running operation is committed.
    ghost function Kept(): State
      reads this, store
    {
      State(store.kept, table, owner)
    }

    // One transaction of filewrite: it logs no more than the blocks reserved for it, and
    // at most seven when the free map is one block. seen bytes can be read from the file
    // afterwards; those that are counted are kept. There are more of the former exactly if
    // the write tears a block of the file.
    method WriteChunk(ip: InodeRef, src: seq<byte>, off: nat, given: nat) returns (r: int, ghost seen: nat)
      requires Open(ip) && Saved() && off < WORD && 0 < |src| <= MAXCHUNK && store.stray == {}
      modifies store, ip, ip.addrs, `table, `owner
      ensures Open(ip) && Saved() && -1 <= r <= |src|
      ensures r == -1 <==> off > old(ip.size) || off + |src| > MAXFILE * BSIZE
      ensures r == -1 ==> store.image == old(store.image) && table == old(table)
      ensures r >= 0 ==> r <= seen <= |src| && r <= given && (r < seen <==> Tears(old(ip.size), |src|, off, given))
      ensures r >= 0 ==> off <= old(ip.size) && seen == Seen(old(ip.size), |src|, off, given, r)
      ensures r >= 0 && Tears(old(ip.size), |src|, off, given) ==> off + r == PieceStart(off, given)
      ensures r == -1 || r == |src| ==> store.stray == {}
      ensures r >= 0 ==> Content(store.image, table[ip.inum]) == Splice(Content(old(store.image), old(table)[ip.inum]), off, src[..seen])
      ensures OthersSame(layout, old(store.image), old(table), store.image, table, ip.inum)
      ensures Transaction(layout, old(Here()), Kept(), store.logged)
      ensures r >= 0 ==> Content(store.kept, table[ip.inum]) == Splice(Content(old(store.image), old(table)[ip.inum]), off, src[..r])
      ensures OthersSame(layout, old(store.image), old(table), store.kept, table, ip.inum)
      ensures 0 <= r < |src| ==> (Exhausted(layout, store.image) && off + r >= old(ip.size)) || given < |src|
      ensures |store.logged| <= MAXOPBLOCKS && (layout.size <= BPB ==> |store.logged| <= 7)
    {
      hide Store.Framed, Changes, Mapped, Accurate, Dense, Synced, Content, Exhausted, Splice, TouchLimit, OthersSame, Visible, Tears, Seen, PieceStart, StopsAt;
      ChunkTouches(off, |src|);
      SizeOk(layout, store.image, table, owner, ip.inum);
      TwinWhenClean(ip);
      store.BeginOp();
      ghost var part, kept, size := 0, 0, ip.size;
      r, part, kept := Writei(ip, src, off, given);
      seen := 0;
      if r >= 0 {
        SeenIs(size, |src|, off, given, r, part, kept);
        StopMeans(size, |src|, off, given, r, part);
        seen := Seen(size, |src|, off, given, r);
      } else {
        OthersNone(layout, store.image, table, ip.inum);
      }
      OnlyLogged();
      if r < 0 { TwinWhenClean(ip); }
      assert store.logged - {} == store.logged;
    }

    // One turn of filewrite's loop, after i bytes.
    method WriteTurn(ip: InodeRef, src: seq<byte>, off: nat, i: nat, given: nat, ghost s0: State, ghost states0: seq<State>, ghost logs0: seq<set<nat>>)
      returns (r: int, ghost seen: nat, ghost states: seq<State>, ghost logs: seq<set<nat>>)
      requires Open(ip) && Saved() && off + i < WORD && i < |src| && i <= given && store.stray == {} && Settled(layout, s0)
      requires WriteDone(layout, s0.img, s0.table, store.image, table, ip.inum, off, src[..i]) && (i > 0 ==> off <= s0.table[ip.inum].size)
      requires Trail(layout, states0, logs0, ip.inum, off, src) && Ends(states0, logs0, s0)
      modifies store, ip, ip.addrs, `table, `owner
      ensures Open(ip) && Saved() && -1 <= r <= ChunkOf(|src| - i) && i + (if r < 0 then 0 else r) <= seen <= |src|
      ensures WriteDone(layout, s0.img, s0.table, store.image, table, ip.inum, off, src[..seen])
      ensures WriteDone(layout, s0.img, s0.table, store.kept, table, ip.inum, off, src[..if r < 0 then i else i + r])
      ensures r == -1 <==> off + i > old(ip.size) || off + i + ChunkOf(|src| - i) > MAXFILE * BSIZE
      ensures r == -1 ==> seen == i
      ensures r >= 0 ==> off + i <= old(ip.size) && i + r <= given && seen == i + Seen(old(ip.size), ChunkOf(|src| - i), off + i, given - i, r)
      ensures r >= 0 && Tears(old(ip.size), ChunkOf(|src| - i), off + i, given - i) ==> off + i + r == PieceStart(off + i, given - i)
      ensures r == ChunkOf(|src| - i) ==> store.stray == {} && seen == i + r
      ensures 0 <= r < ChunkOf(|src| - i) ==> (Exhausted(layout, store.image) && off + i + r >= old(ip.size)) || given - i < ChunkOf(|src| - i)
      ensures Trail(layout, states, logs, ip.inum, off, src) && Ends(states, logs, s0)
    {
      hide Store.Framed, Mapped, Accurate, Dense, Synced, Content, Exhausted, Splice, OthersSame, WriteDone, Trail, Changes, Tears, Seen, PieceStart, Owned, Recorded, Taken;
      ghost var img1, t1, k := store.image, table, ip.inum;
      TwinWhenClean(ip);
      WriteDoneMeans(layout, s0.img, s0.table, img1, t1, k, off, src[..i]);
      var n1 := ChunkOf(|src| - i);
      ghost var shown;
      r, shown := WriteChunk(ip, src[i..i + n1], off + i, given - i);
      seen := i;
      ghost var n := i;
      if r >= 0 {
        WriteDoneStep(layout, s0.img, s0.table, img1, t1, store.image, table, k, off, src, i, n1, shown);
        WriteDoneStep(layout, s0.img, s0.table, img1, t1, store.kept, table, k, off, src, i, n1, r);
        seen, n := i + shown, i + r;
      } else {
        TwinWhenClean(ip);
      }
      TrailGrows(layout, states0, logs0, k, off, src, Kept(), store.logged, n);
      states, logs := states0 + [Kept()], logs0 + [store.logged];
    }

    // filewrite's loop: where it ends, how much can be read, and the transactions it makes.
    method WriteChunks(ip: InodeRef, src: seq<byte>, off: nat, given: nat)
      returns (end: nat, ghost seen: nat, ghost states: seq<State>, ghost logs: seq<set<nat>>)
      requires Open(ip) && Saved() && off < WORD && |src| < WORD / 2 && store.stray == {}
      modifies store, ip, ip.addrs, `table, `owner
      ensures Open(ip) && Saved() && off <= end <= off + |src| && end - off <= seen <= |src|
      ensures WriteDone(layout, old(store.image), old(table), store.image, table, ip.inum, off, src[..seen])
      ensures WriteDone(layout, old(store.image), old(table), store.kept, table, ip.inum, off, src[..end - off])
      ensures EndsAt(old(ip.size), |src|, off, given, end - off, seen)
      ensures end < off + |src| ==> off > old(ip.size) || off + |src| > MAXFILE * BSIZE || Exhausted(layout, store.image) || given < |src|
      ensures Trail(layout, states, logs, ip.inum, off, src) && states[0] == old(Here()) && states[|logs|] == Kept()
    {
      hide Store.Framed, Mapped, Accurate, Dense, Synced, Content, Exhausted, Splice, OthersSame, WriteDone, Trail, Changes, Tears, Seen, PieceStart, ChunkOf, EndsAt;
      ghost var k := ip.inum;
      TwinWhenClean(ip);
      ghost var s0, size := Here(), ip.size;
      WriteDoneStarts(layout, s0.img, s0.table, k, off, src);
      states, logs := [s0], [];
      TrailStarts(layout, s0, k, off, src);
      end := off;
      seen := 0;
      var i := 0;
      while i < |src|
        invariant Open(ip) && Saved() && i <= |src| && i <= given && end == off + i && seen == i && store.stray == {}
        invariant (i > 0 ==> off <= size && end <= MAXFILE * BSIZE) && (i == |src| || i % MAXCHUNK == 0)
        invariant WriteDone(layout, s0.img, s0.table, store.image, table, k, off, src[..i])
        invariant WriteDone(layout, s0.img, s0.table, store.kept, table, k, off, src[..i])
        invariant Trail(layout, states, logs, k, off, src) && Ends(states, logs, s0)
      {
        ghost var cur := ip.size;
        var r;
        WriteDoneMeans(layout, s0.img, s0.table, store.image, table, k, off, src[..i]);
        WriteDoneSize(layout, s0.img, s0.table, store.image, table, k, off, src[..i]);
        ChunkIs(|src|, i);
        r, seen, states, logs := WriteTurn(ip, src, off, i, given, s0, states, logs);
        if r > 0 {
          end := end + r;
        }
        if r != ChunkOf(|src| - i) {
          ChunkEnds(size, |src|, off, given, i, cur, r, seen);
          return;
        }
        i := i + r;
      }
      AllWritten(size, |src|, off, given);
    }

    ghost predicate Ends(states: seq<State>, logs: seq<set<nat>>, s0: State)
      reads this, store
    {
      |states| == |logs| + 1 && states[0] == s0 && states[|logs|] == Kept()
    }

    // The loop of filewrite, from offset off of the file; returns its result and the new
    // offset. given is how many bytes of the source can be copied. The bytes up to the new
    // offset are kept; more can be read exactly if the write tears a block of the file.
    method FileWrite(ip: InodeRef, src: seq<byte>, off: nat, given: nat)
      returns (ret: int, end: nat, ghost seen: nat, ghost states: seq<State>, ghost logs: seq<set<nat>>)
      requires Open(ip) && Saved() && off < WORD && |src| < WORD / 2 && store.stray == {}
      modifies store, ip, ip.addrs, `table, `owner
      ensures Open(ip) && Saved() && off <= end <= off + |src| && end - off <= seen <= |src|
      ensures ret == if end == off + |src| then |src| else -1
      ensures ret == -1 ==> off > old(ip.size) || off + |src| > MAXFILE * BSIZE || Exhausted(layout, store.image) || given < |src|
      ensures end - off < seen <==> TearsFile(old(ip.size), |src|, off, given)
      ensures off <= old(ip.size) ==> seen == SeenInFile(old(ip.size), |src|, off, given, end - off)
      ensures if off > old(ip.size) then end == off && store.image == store.kept == old(store.image) && table == old(table)
              else Content(store.image, table[ip.inum]) == Splice(Content(old(store.image), old(table)[ip.inum]), off, src[..seen])
                   && Content(store.kept, table[ip.inum]) == Splice(Content(old(store.image), old(table)[ip.inum]), off, src[..end - off])
      ensures OthersSame(layout, old(store.image), old(table), store.image, table, ip.inum)
      ensures OthersSame(layout, old(store.image), old(table), store.kept, table, ip.inum)
      ensures Trail(layout, states, logs, ip.inum, off, src) && states[0] == old(Here()) && states[|logs|] == Kept()
    {
      hide Store.Framed, Changes, Mapped, Accurate, Dense, Synced, Content, Exhausted, Splice, OthersSame, WriteDone, Trail, TearsFile, PieceStart, ChunkStart, SeenInFile;
      ghost var img0, t0, size := store.image, table, ip.size;
      end, seen, states, logs := WriteChunks(ip, src, off, given);
      WriteDoneMeans(layout, img0, t0, store.image, table, ip.inum, off, src[..seen]);
      WriteDoneMeans(layout, img0, t0, store.kept, table, ip.inum, off, src[..end - off]);
      TearsFileIs(size, |src|, off, given, end - off, seen);
      ret := if end == off + |src| then |src| else -1;
    }

    // A transaction that empties the file, as open with O_TRUNC does.
    method Truncate(ip: InodeRef)
      requires Open(ip) && Saved() && store.stray == {}
      modifies store, ip, ip.addrs, `table, `owner
      ensures Open(ip) && Saved() && table[ip.inum] == EmptyInode()
      ensures OthersSame(layout, old(store.image), old(table), store.image, table, ip.inum)
      ensures Transaction(layout, old(Here()), Here(), store.logged)
      ensures store.logged == FileMaps(layout, old(owner), ip.inum) + {layout.InodeBlock(ip.inum)}
      ensures layout.size <= BPB ==> |store.logged| <= 2
    {
      hide Changes, Mapped, Accurate, Dense, Synced, OthersSame;
      store.BeginOp();
      MapsAll(layout, store.image, table, owner, ip.inum);
      MapsFew(layout, store.image, table, owner, ip.inum, SLOTS);
      Itrunc(ip);
      if layout.size <= BPB { SubsetSize(store.logged, {layout.bmapStart, layout.InodeBlock(ip.inum)}); }
    }

    // What writei stored, readi finds.
    method WriteThenRead(ip: InodeRef, src: seq<byte>, off: nat) returns (r: int, dst: seq<byte>)
      requires Open(ip) && off < WORD && |src| < WORD && store.stray == {}
      modifies store`image, store`kept, store`logged, store`stray, ip, ip.addrs, `table, `owner
      ensures -1 <= r <= |src| && (r >= 0 ==> dst == src[..r])
    {
      hide Store.Framed, Mapped, Accurate, Dense, Synced, Content, Exhausted, Splice, OthersSame, TouchLimit;
      SizeOk(layout, store.image, table, owner, ip.inum);
      ghost var f := Content(store.image, table[ip.inum]);
      ghost var part, saved;
      r, part, saved := Writei(ip, src, off, |src|);
      dst := [];
      if r >= 0 {
        ReadsBack(f, off, src[..r]);
        var _, bytes := Readi(ip, off, r, r);
        dst := bytes;
      }
    }
  }
}
