// The buffer cache of kernel/bio.c: thirty struct buf on a circular doubly
// linked list through a sentinel head, most recently used first.

module BufferCache {
  import opened BufferCacheModel

  datatype Write = Write(blockno: nat, data: Block)

  // The disk and, as a ghost, every block write it has done, in order.
  // A block write is atomic.
  class Disk {
    var image: Image
    ghost var trace: seq<Write>

    constructor (image: Image)
      ensures this.image == image && trace == []
    {
      this.image := image;
      trace := [];
    }

    method ReadBlock(bn: nat) returns (data: Block)
      requires bn < |image|
      ensures data == image[bn]
    {
      data := image[bn];
    }

    method WriteBlock(bn: nat, data: Block)
      requires bn < |image|
      modifies this
      ensures image == old(image)[bn := data]
      ensures trace == old(trace) + [Write(bn, data)]
    {
      image := image[bn := data];
      trace := trace + [Write(bn, data)];
    }
  }

  class Buf {
    var valid: bool
    var dev: nat
    var blockno: nat
    var refcnt: nat
    var prev: Buf?
    var next: Buf?
    var data: Block

    constructor ()
      ensures !valid && dev == 0 && blockno == 0 && refcnt == 0
    {
      valid, dev, blockno, refcnt, prev, next := false, 0, 0, 0, null, null;
      data := Block(seq(BLOCK_WORDS, _ => 0));
    }

    ghost function Fields(): Entry
      reads `dev, `blockno, `refcnt, `valid, `data
    {
      Entry(dev, blockno, refcnt, valid, data)
    }
  }

  class Cache {
    const head: Buf
    const disk: Disk
    ghost const bufs: set<Buf>  // bcache.buf[]
    ghost var order: seq<Buf>   // from head.next to head.prev
    ghost var model: seq<Entry>

    // The buffer at list position i; one step beyond either end is head.
    ghost function At(i: int): Buf
      reads `order
    {
      if 0 <= i < |order| then order[i] else head
    }

    // The links go round order, forwards and backwards, through head.
    ghost predicate Linked()
      reads `order, head`next, head`prev, bufs`next, bufs`prev
    {
      && head !in bufs
      && (forall i | 0 <= i < |order| :: order[i] in bufs)
      && (forall i, j | 0 <= i < j < |order| :: order[i] != order[j])
      && head.next == At(0)
      && head.prev == At(|order| - 1)
      && (forall i {:trigger order[i].next} | 0 <= i < |order| :: order[i].next == At(i + 1))
      && (forall i {:trigger order[i].prev} | 0 <= i < |order| :: order[i].prev == At(i - 1))
    }

    // Every buffer is on the list.
    ghost predicate Complete()
      reads `order
    {
      forall b {:trigger b in order} | b in bufs :: b in order
    }

    ghost predicate Valid()
      reads this, head, bufs
    {
      && Linked()
      && Complete()
      && |model| == |order|
      && (forall i {:trigger order[i]} | 0 <= i < |order| :: model[i] == order[i].Fields())
      && WellFormed(model)
    }

    // b is the buffer for block bn.
    ghost predicate Owns(b: Buf, bn: nat)
      reads b`dev, b`blockno
    {
      b in bufs && b.dev == ROOTDEV && b.blockno == bn
    }

    lemma OwnerFields(b: Buf)
      requires Valid() && b in bufs && b.dev == ROOTDEV
      ensures IndexOf(model, b.blockno) >= 0 && model[IndexOf(model, b.blockno)] == b.Fields()
      ensures order[IndexOf(model, b.blockno)] == b
    {
      assert b in order;
      var k :| 0 <= k < |order| && order[k] == b;
      IndexUnique(model, b.blockno, k);
    }

    // The static array: thirty buffers, none of them ever used.
    static method NewBufs() returns (bs: seq<Buf>)
      ensures |bs| == NBUF && forall i, j | 0 <= i < j < NBUF :: bs[i] != bs[j]
      ensures forall i | 0 <= i < NBUF :: fresh(bs[i]) && bs[i].Fields().Unused()
    {
      bs := [];
      for n := 0 to NBUF
        invariant |bs| == n && forall i, j | 0 <= i < j < n :: bs[i] != bs[j]
        invariant forall i | 0 <= i < n :: fresh(bs[i]) && bs[i].Fields().Unused()
      {
        var b := new Buf();
        bs := bs + [b];
      }
    }

    // binit
    constructor (disk: Disk)
      ensures Valid() && this.disk == disk
      ensures fresh(head) && fresh(bufs)
      ensures forall i | 0 <= i < NBUF :: model[i].Unused()
    {
      var h := new Buf();
      var bs := NewBufs();
      this.head := h;
      this.disk := disk;
      this.bufs := set b | b in bs;
      order, model := [], [];
      new;
      LinkAll(bs);
      model := seq(NBUF, i requires 0 <= i < NBUF && |order| == NBUF reads this, order => order[i].Fields());
    }

    // The loop of binit.
    method LinkAll(bs: seq<Buf>)
      requires |bs| == NBUF && bufs == set b | b in bs
      requires head !in bufs && forall i, j | 0 <= i < j < NBUF :: bs[i] != bs[j]
      requires forall i | 0 <= i < NBUF :: bs[i].Fields().Unused()
      modifies `order, head`next, head`prev, bufs`next, bufs`prev
      ensures Linked() && Complete() && |order| == NBUF
      ensures forall i | 0 <= i < NBUF :: order[i].Fields().Unused()
    {
      head.prev, head.next, order := head, head, [];
      for n := 0 to NBUF
        invariant Linked() && |order| == n
        invariant forall i {:trigger order[i]} | 0 <= i < n :: order[i] == bs[n - 1 - i]
      {
        PushFront(bs[n]);
      }
      assert forall i | 0 <= i < NBUF :: bs[i] == order[NBUF - 1 - i];
    }

    method PushFront(b: Buf)
      requires Linked() && b in bufs && b !in order
      modifies `order, head`next, head`prev, bufs`next, bufs`prev
      ensures order == [b] + old(order)
      ensures Linked()
    {
      b.next := head.next;
      b.prev := head;
      head.next.prev := b;
      head.next := b;
      order := [b] + order;
    }

    method Unlink(b: Buf, ghost k: nat)
      requires Linked() && k < |order| && order[k] == b
      modifies `order, head`next, head`prev, bufs`next, bufs`prev
      ensures order == old(order)[..k] + old(order)[k + 1..]
      ensures Linked()
    {
      b.next.prev := b.prev;
      b.prev.next := b.next;
      order := order[..k] + order[k + 1..];
    }

    // The forward scan of bget.
    method Find(bn: nat) returns (c: Buf, ghost i: int)
      requires Valid()
      ensures i == IndexOf(model, bn)
      ensures c == if i < 0 then head else At(i)
    {
      c := head.next;
      i := 0;
      while c != head
        invariant 0 <= i <= |order| && c == At(i)
        invariant forall j | 0 <= j < i :: !model[j].Caches(bn)
        decreases |order| - i
      {
        if c.dev == ROOTDEV && c.blockno == bn {
          IndexUnique(model, bn, i);
          return;
        }
        c := c.next;
        i := i + 1;
      }
      i := -1;
    }

    // The backward scan of bget.
    method FindFree() returns (c: Buf, ghost i: int)
      requires Valid()
      ensures i == Lru(model)
      ensures c == At(i)
    {
      c := head.prev;
      i := |order| - 1;
      while c != head
        invariant -1 <= i < |order| && c == At(i)
        invariant forall j | i < j < |order| :: model[j].refcnt > 0
        decreases i
      {
        if c.refcnt == 0 {
          assert model[i].refcnt == 0;
          return;
        }
        c := c.prev;
        i := i - 1;
      }
    }

    // b->refcnt += d
    method AddRefs(b: Buf, d: int, ghost k: nat)
      requires Valid() && k < |order| && order[k] == b && b.dev == ROOTDEV && b.refcnt + d >= 0
      modifies `model, b`refcnt
      ensures Valid() && model == old(model)[k := old(model)[k].(refcnt := old(model)[k].refcnt + d)]
      ensures b.refcnt == old(b.refcnt) + d
    {
      b.refcnt := b.refcnt + d;
      SetModel(b, k);
    }

    // Give a free buffer to block bn.
    method Recycle(b: Buf, bn: nat, ghost k: nat)
      requires Valid() && k < |order| && order[k] == b && IndexOf(model, bn) < 0
      modifies `model, b`dev, b`blockno, b`valid, b`refcnt
      ensures Valid() && model == old(model)[k := Entry(ROOTDEV, bn, 1, false, old(model)[k].data)]
      ensures b.Fields() == model[k]
    {
      b.dev := ROOTDEV;
      b.blockno := bn;
      b.valid := false;
      b.refcnt := 1;
      SetModel(b, k);
    }

    // bget. null is the "no buffers" panic.
    method Get(bn: nat) returns (b: Buf?)
      requires Valid()
      modifies `model, bufs`dev, bufs`blockno, bufs`valid, bufs`refcnt
      ensures Valid()
      ensures b == null <==> BufferCacheModel.Get(old(model), bn).None?
      ensures b == null ==> model == old(model)
      ensures b != null ==> BufferCacheModel.Get(old(model), bn) == Some(model)
      ensures b != null ==> Owns(b, bn) && At(IndexOf(model, bn)) == b
      ensures forall o | o in bufs && old(o.refcnt) > 0 :: o.dev == old(o.dev) && o.blockno == old(o.blockno)
    {
      GetWellFormed(model, bn);
      var c, i := Find(bn);
      if c != head {
        AddRefs(c, 1, i);
      } else {
        c, i := FindFree();
        if c == head {
          return null;
        }
        Recycle(c, bn, i);
      }
      return c;
    }

    // The disk read in bread.
    method Fill(b: Buf, ghost k: nat)
      requires Valid() && k < |order| && order[k] == b && b.dev == ROOTDEV && b.blockno < |disk.image|
      modifies `model, b`valid, b`data
      ensures Valid() && model == old(model)[k := old(model)[k].(valid := true, data := disk.image[old(b.blockno)])]
    {
      b.data := disk.ReadBlock(b.blockno);
      b.valid := true;
      SetModel(b, k);
    }

    // bread
    method Read(bn: nat) returns (b: Buf?)
      requires Valid() && bn < |disk.image|
      modifies `model, bufs`dev, bufs`blockno, bufs`valid, bufs`refcnt, bufs`data
      ensures Valid()
      ensures b == null <==> BufferCacheModel.Read(old(model), disk.image, bn).None?
      ensures b == null ==> model == old(model)
      ensures b != null ==> BufferCacheModel.Read(old(model), disk.image, bn) == Some(model)
      ensures b != null ==> Owns(b, bn) && b.refcnt > 0
      ensures b != null ==> IndexOf(model, bn) >= 0 && b.data == model[IndexOf(model, bn)].data
      ensures forall o | o in bufs && old(o.refcnt) > 0 :: o.dev == old(o.dev) && o.blockno == old(o.blockno)
    {
      b := Get(bn);
      if b != null && !b.valid {
        ghost var k := IndexOf(model, bn);
        Fill(b, k);
        IndexUnique(model, bn, k);
      }
    }

    // Bring the model up to date with the buffer at position k.
    ghost method SetModel(b: Buf, k: nat)
      requires Linked() && Complete() && |model| == |order| && k < |order|
      requires forall i | 0 <= i < |order| && i != k :: model[i] == order[i].Fields()
      requires order[k] == b && WellFormed(model[k := b.Fields()])
      modifies `model
      ensures model == old(model)[k := b.Fields()] && Valid()
    {
      model := model[k := b.Fields()];
    }

    // bwrite: the disk gets the buffer's data.
    method WriteBack(b: Buf)
      requires Valid() && b in bufs && b.dev == ROOTDEV && b.blockno < |disk.image|
      modifies disk
      ensures disk.image == old(disk.image)[b.blockno := b.data]
      ensures disk.trace == old(disk.trace) + [Write(b.blockno, b.data)]
    {
      disk.WriteBlock(b.blockno, b.data);
    }

    // The holder's memmove into b->data.
    method SetData(b: Buf, data: Block)
      requires Valid() && b in bufs && b.dev == ROOTDEV
      modifies `model, b`data
      ensures Valid() && model == Store(old(model), b.blockno, data) && b.data == data
    {
      OwnerFields(b);
      ghost var k := IndexOf(model, b.blockno);
      b.data := data;
      SetModel(b, k);
    }

    // The relinking at the end of brelse.
    method ToFront(b: Buf, ghost k: nat)
      requires Valid() && k < |order| && order[k] == b
      modifies `model, `order, head`next, head`prev, bufs`next, bufs`prev
      ensures Valid() && model == MoveToFront(old(model), k)
      ensures order == MoveToFront(old(order), k)
    {
      MoveToFrontWellFormed(model, k);
      ghost var was := order;
      Unlink(b, k);
      PushFront(b);
      assert order == MoveToFront(was, k);
      assert Complete() by {
        assert forall o | o in was :: o in order;
      }
      model := MoveToFront(model, k);
      forall i | 0 <= i < |order|
        ensures model[i] == order[i].Fields()
      {
        MoveToFrontAt(was, k, i);
        MoveToFrontAt(old(model), k, i);
      }
    }

    // brelse
    method Release(b: Buf)
      requires Valid() && b in bufs && b.dev == ROOTDEV && Refs(model, b.blockno) > 0
      modifies `model, `order, head`next, head`prev, bufs`next, bufs`prev, b`refcnt
      ensures Valid()
      ensures model == BufferCacheModel.Release(old(model), b.blockno)
    {
      OwnerFields(b);
      ghost var k := IndexOf(model, b.blockno);
      AddRefs(b, -1, k);
      if b.refcnt == 0 {
        ToFront(b, k);
      }
    }

    // bpin
    method Pin(b: Buf)
      requires Valid() && b in bufs && b.dev == ROOTDEV
      modifies `model, b`refcnt
      ensures Valid() && model == Adjust(old(model), b.blockno, 1)
    {
      OwnerFields(b);
      AddRefs(b, 1, IndexOf(model, b.blockno));
    }

    // bunpin
    method Unpin(b: Buf)
      requires Valid() && b in bufs && b.dev == ROOTDEV && Refs(model, b.blockno) > 0
      modifies `model, b`refcnt
      ensures Valid()
      ensures model == Adjust(old(model), b.blockno, -1)
    {
      OwnerFields(b);
      AddRefs(b, -1, IndexOf(model, b.blockno));
    }

    // memmove into the buffer, then bwrite.
    method StoreAndWrite(b: Buf, data: Block)
      requires Valid() && Owns(b, b.blockno) && b.blockno < |disk.image|
      modifies `model, b`data, disk
      ensures Valid() && model == Store(old(model), b.blockno, data)
      ensures disk.image == old(disk.image)[b.blockno := data]
      ensures disk.trace == old(disk.trace) + [Write(b.blockno, data)]
    {
      SetData(b, data);
      WriteBack(b);
    }

    // bread two different blocks, taking the cache from c0 to c1.
    method ReadTwo(first: nat, second: nat, ghost c0: seq<Entry>, ghost c1: seq<Entry>)
      returns (b1: Buf, b2: Buf, data1: Block, data2: Block)
      requires Valid() && first < |disk.image| && second < |disk.image| && first != second
      requires BufferCacheModel.Read(model, disk.image, first) == Some(c0)
      requires BufferCacheModel.Read(c0, disk.image, second) == Some(c1)
      modifies `model, bufs`dev, bufs`blockno, bufs`valid, bufs`refcnt, bufs`data
      ensures Valid() && model == c1 && Owns(b1, first) && Owns(b2, second)
      ensures IndexOf(c0, first) >= 0 && data1 == c0[IndexOf(c0, first)].data
      ensures IndexOf(c1, second) >= 0 && data2 == c1[IndexOf(c1, second)].data
    {
      b1 := Read(first);
      data1 := b1.data;
      b2 := Read(second);
      data2 := b2.data;
    }

    // Give back two buffers, taking the cache through c.
    method ReleaseBoth(first: Buf, second: Buf, ghost c: seq<Entry>)
      requires Valid() && Owns(first, first.blockno) && Owns(second, second.blockno)
      requires Refs(model, first.blockno) > 0 && c == BufferCacheModel.Release(model, first.blockno)
      requires Refs(c, second.blockno) > 0
      modifies `model, `order, head`next, head`prev, bufs`next, bufs`prev, bufs`refcnt
      ensures Valid() && model == BufferCacheModel.Release(c, second.blockno)
    {
      Release(first);
      Release(second);
    }

    // Copy block src to block dst through the cache, once dst is held, following the given
    // cache states: the rest of the loop body of write_log.
    method CopyAlong(to: Buf, dst: nat, src: nat, ghost data: Block, ghost c: Pass)
      requires Valid() && Owns(to, dst) && to.refcnt > 0 && dst < |disk.image| && src < |disk.image| && dst != src
      requires model == c.s0 && CopyRest(disk.image, dst, src, data, c)
      modifies `model, `order, head`next, head`prev, bufs, disk
      ensures Valid() && model == c.s4
      ensures disk.image == old(disk.image)[dst := data]
      ensures disk.trace == old(disk.trace) + [Write(dst, data)]
    {
      var from := Read(src);
      StoreAndWrite(to, from.data);
      ReleaseBoth(from, to, c.s3);
    }

    // The last three calls of install_trans's loop body.
    method Finish(lbuf: Buf, dbuf: Buf, unpin: bool, ghost slot: nat, ghost home: nat, ghost c: Pass)
      requires Valid() && Owns(lbuf, slot) && Owns(dbuf, home) && model == c.s2 && FinishStates(slot, home, unpin, c)
      modifies `model, `order, head`next, head`prev, bufs`next, bufs`prev, bufs`refcnt
      ensures Valid() && model == c.s5
    {
      if unpin {
        Unpin(dbuf);
      }
      ReleaseBoth(lbuf, dbuf, c.s4);
    }

    // Copy a log slot to its home block, following the given cache states: the loop
    // body of install_trans.
    method InstallAlong(slot: nat, home: nat, ghost data: Block, unpin: bool, ghost c: Pass)
      requires Valid() && slot < |disk.image| && home < |disk.image| && slot != home
      requires InstallStates(model, disk.image, slot, home, data, unpin, c)
      modifies `model, `order, head`next, head`prev, bufs, disk
      ensures Valid() && model == c.s5
      ensures disk.image == old(disk.image)[home := data]
      ensures disk.trace == old(disk.trace) + [Write(home, data)]
    {
      hide WellFormed, Views;
      var lbuf, dbuf, copy, _ := ReadTwo(slot, home, c.s0, c.s1);
      StoreAndWrite(dbuf, copy);
      Finish(lbuf, dbuf, unpin, slot, home, c);
    }

    // Copy block src to block dst and give everything back: write_log's loop body. false is
    // the "no buffers" panic of the first bread.
    method CopyBlock(dst: nat, src: nat) returns (ok: bool)
      requires Valid() && Sound(model, disk.image)
      requires dst < |disk.image| && src < |disk.image| && dst != src
      requires RefMap(model)[src] > 0 && RefMap(model)[dst] == 0
      modifies `model, `order, head`next, head`prev, bufs, disk
      ensures Valid() && Sound(model, disk.image) && RefMap(model) == old(RefMap(model))
      ensures ok <==> !old(Full(model))
      ensures ok <==> !Full(model)
      ensures !ok ==> model == old(model) && disk.image == old(disk.image) && disk.trace == old(disk.trace)
      ensures ok ==>
                var data := old(Views(model, disk.image))[src];
                && disk.image == old(disk.image)[dst := data]
                && disk.trace == old(disk.trace) + [Write(dst, data)]
                && Views(model, disk.image) == old(Views(model, disk.image))[dst := data]
    {
      ghost var data := Views(model, disk.image)[src];
      ghost var c := CopyPassIfFree(model, disk.image, dst, src);
      hide WellFormed, Views, Sound, Full, RefMap, CopyRest;
      var to := Read(dst);
      if to == null {
        return false;
      }
      CopyAlong(to, dst, src, data, c);
      return true;
    }

    // Copy a log slot to its home block, drop the pin on it, if there is one, and give
    // everything back: install_trans's loop body.
    method InstallBlock(slot: nat, home: nat, unpin: bool)
      requires Valid() && Sound(model, disk.image) && slot < |disk.image| && home < |disk.image| && slot != home
      requires RefMap(model)[slot] == 0 && Views(model, disk.image)[slot] == disk.image[slot]
      requires if unpin then !Full(model) && RefMap(model)[home] > 0 else forall b: nat :: RefMap(model)[b] == 0
      modifies `model, `order, head`next, head`prev, bufs, disk
      ensures Valid() && Sound(model, disk.image) && !Full(model)
      ensures RefMap(model) == old(RefMap(model))[home := old(RefMap(model))[home] + (if unpin then -1 else 0)]
      ensures var data := old(disk.image)[slot];
              && disk.image == old(disk.image)[home := data]
              && disk.trace == old(disk.trace) + [Write(home, data)]
              && Views(model, disk.image) == old(Views(model, disk.image))[home := data]
    {
      ghost var c := InstallPass(model, disk.image, slot, home, unpin);
      InstallAlong(slot, home, disk.image[slot], unpin, c);
    }
  }
}
