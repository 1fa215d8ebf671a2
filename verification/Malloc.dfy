// user/umalloc.c: malloc, free and morecore.

module Malloc {
  import opened HeapModel

  const MINIMUM := 4096        // units per call of sbrk, at least

  // What sbrk answers: an error, or where the new memory starts.
  datatype Sbrk = Refused | Granted(start: nat)

  function Units(nbytes: nat): nat { (nbytes + HEADER - 1) / HEADER + 1 }

  function Request(n: nat): nat { if n < MINIMUM then MINIMUM else n }

  // What malloc can do without claiming memory it did not get.
  ghost predicate Safe(blocks: map<nat, Block>, n: nat, env: Sbrk) {
    Fits(blocks, n) || env.Refused? || Request(n) * HEADER < INT_LIMIT
  }

  // Besides the header's unit, as many as hold nbytes, and no more.
  lemma UnitsHold(nbytes: nat)
    ensures 16 * (Units(nbytes) - 1) >= nbytes && (nbytes > 0 ==> 16 * (Units(nbytes) - 2) < nbytes)
  {
  }

  // sbrk is asked for no less than 4096 units, 64 KB.
  lemma AsksForMuch(n: nat)
    ensures Request(n) >= 4096 && Request(n) >= n && (Request(n) == 4096 || Request(n) == n)
  {
  }

  // q is the first node after from that has n units, prev the one before it, and r what is left
  // of it when the first units stay free.
  ghost predicate NextFit(nodes: set<nat>, size: map<nat, nat>, ptr: map<nat, nat>, from: nat, n: nat, prev: nat, q: nat, r: nat) {
    && q in nodes && q in size && size[q] >= n && prev in ptr && ptr[prev] == q
    && AllSmall(nodes, size, from, q, n) && r == q + size[q] - n
  }

  // malloc(0xFFFFFFFF) asks sbrk for 16 bytes and hands out 268435457 units.
  lemma HugeRequestIsShort(heap: seq<Chunk>, start: nat)
    ensures Units(0xFFFF_FFFF) == Request(Units(0xFFFF_FFFF)) == 268435457
    ensures Argument(268435457) == 16 && Sbrked(heap, start, 16) == heap + [Chunk(start, 1)]
  {
  }

  // The least size that goes wrong, when nothing fits.
  lemma SafeSizes(nbytes: nat)
    requires nbytes < UINT_LIMIT
    ensures Request(Units(nbytes)) * HEADER < INT_LIMIT <==> nbytes <= INT_LIMIT - 2 * HEADER
  {
  }

  class Heap {
    var ptr: map<nat, nat>           // s.ptr of the header at each address, in units
    var size: map<nat, nat>          // s.size
    var freep: nat
    var started: bool                // freep != 0
    ghost var blocks: map<nat, Block>
    ghost var chunks: seq<Chunk>     // what morecore believes it got
    ghost var heap: seq<Chunk>       // what sbrk has granted

    constructor ()
      ensures Sound() && !started && blocks == map[] && heap == []
    {
      ptr, size, freep, started := map[], map[], BASE, false;
      blocks, chunks, heap := map[], [], [];
    }

    ghost predicate Ok()
      reads this
    {
      if started then Valid(blocks, chunks, size, ptr) && freep in Listed(blocks)
      else blocks == map[] && chunks == []
    }

    // The blocks are a partition of the heap that the process has.
    ghost predicate Sound()
      reads this
    {
      Ok() && heap == chunks
    }

    // free, of the block whose header is at bp.
    method Free(bp: nat)
      requires Ok() && started && bp in blocks && !blocks[bp].free
      modifies `ptr, `size, `freep, `blocks
      ensures Ok() && Used(blocks) == Used(old(blocks)) - {bp}
      ensures Fits(blocks, old(blocks)[bp].size) && Spot(Listed(old(blocks)), old(ptr), freep, bp)
    {
      hide Disjoint, Partition, Joined, Linked, Listed, GiveBack, GiveBackSize, GiveBackPtr, Used, Spot, Fits, Headers;
      var p := FindSpot(bp);
      GiveBackKeepsValid(blocks, chunks, size, ptr, p, bp);
      GiveBackHolds(blocks, p, bp);
      JoinHeaders(p, bp);
      freep := p;
      blocks := GiveBack(blocks, p, bp);
    }

    // The two joins of free.
    method JoinHeaders(p: nat, bp: nat)
      requires p in size && bp in size && p in ptr && p != bp && (ptr[p] != BASE ==> ptr[p] in size && ptr[p] in ptr)
      requires BASE in size && size[BASE] == 0 && bp > BASE
      modifies `ptr, `size
      ensures size == GiveBackSize(old(size), old(ptr)[p], p, bp)
      ensures ptr == GiveBackPtr(old(size), old(ptr), p, bp)
    {
      var q := ptr[p];
      if bp + size[bp] == q {
        size := size[bp := size[bp] + size[q]];
        ptr := ptr[bp := ptr[q]];
      } else {
        ptr := ptr[bp := q];
      }
      if p + size[p] == bp {
        size := size[p := size[p] + size[bp]];
        ptr := ptr[p := ptr[bp]];
      } else {
        ptr := ptr[p := bp];
      }
    }

    // The search loop of free.
    method FindSpot(bp: nat) returns (p: nat)
      requires Ok() && started && bp in blocks && !blocks[bp].free
      ensures Spot(Listed(blocks), ptr, p, bp)
    {
      hide Partition, Joined, Headers, Listed, Linked, Disjoint, Spot, Remaining;
      ghost var nodes := Listed(blocks);
      p := freep;
      NotListed(blocks, bp);
      while !(bp > p && bp < ptr[p])
        invariant p in nodes && p in ptr && ptr[p] in nodes
        decreases if p > bp then 1 else 0, Remaining(nodes, p, bp)
      {
        if p >= ptr[p] && (bp > p || bp < ptr[p]) {
          break;
        }
        SearchOn(nodes, ptr, p, bp);
        p := ptr[p];
      }
      SearchEnds(nodes, ptr, p, bp);
    }

    // morecore
    method MoreCore(n: nat, env: Sbrk) returns (ok: bool)
      requires Sound() && started && (env.Granted? ==> env.start > BASE && Above(heap, env.start))
      modifies `ptr, `size, `freep, `blocks, `chunks, `heap
      ensures Ok() && (ok <==> env.Granted?) && Used(blocks) == Used(old(blocks))
      ensures !ok ==> blocks == old(blocks) && chunks == old(chunks) && freep == old(freep) && size == old(size) && ptr == old(ptr)
      ensures ok ==> chunks == old(chunks) + [Chunk(env.start, Request(n))] && Fits(blocks, n)
      ensures heap == if ok then Sbrked(old(heap), env.start, Argument(Request(n))) else old(heap)
    {
      hide Disjoint, Partition, Joined, Linked, Listed, Headers, Used, Fits, Above, Sbrked, Argument;
      var nu := Request(n);
      if env.Refused? {
        return false;
      }
      GrowKeepsValid(blocks, chunks, size, ptr, env.start, nu);
      size := size[env.start := nu];
      blocks := blocks[env.start := Block(nu, false)];
      chunks := chunks + [Chunk(env.start, nu)];
      heap := Sbrked(heap, env.start, Argument(nu));
      Free(env.start);
      FitsLess(blocks, nu, n);
      return true;
    }

    // malloc takes n units of the free block at p, the successor of prev; r is their header.
    method Take(prev: nat, p: nat, n: nat) returns (r: nat)
      requires Ok() && started && prev in Listed(blocks) && p in Listed(blocks) && prev in ptr && ptr[prev] == p
      requires p in size && size[p] >= n > 0
      modifies `ptr, `size, `freep, `blocks
      ensures Ok() && r !in Used(old(blocks)) && r > BASE && Used(blocks) == Used(old(blocks))[r := n]
      ensures freep == prev && r == p + old(size)[p] - n
    {
      hide Disjoint, Partition, Joined, Used, Follows, Hand, Split;
      ListedBlock(blocks, size, ptr, p, prev);
      if size[p] == n {
        TakeWhole(blocks, chunks, size, ptr, prev, p);
        ptr := ptr[prev := ptr[p]];
        blocks := Hand(blocks, p, false);
        r := p;
      } else {
        TakeTail(blocks, chunks, size, ptr, p, n);
        ghost var bs := Split(blocks, p, n, false);
        size := size[p := size[p] - n];
        r := p + size[p];
        size := size[r := n];
        blocks := bs;
      }
      freep := prev;
    }

    // malloc. 0 is the null pointer; otherwise the header is at r, and the caller's memory
    // starts one unit above.
    method Alloc(nbytes: nat, env: Sbrk) returns (r: nat, ghost p: nat)
      requires nbytes < UINT_LIMIT
      requires Sound() && (env.Granted? ==> env.start > BASE && Above(heap, env.start))
      modifies this
      ensures Ok() && started
      ensures r == BASE <==> !Fits(old(blocks), Units(nbytes)) && env.Refused?
      ensures r == BASE ==> blocks == old(blocks)
      ensures r != BASE ==> r !in Used(old(blocks)) && Used(blocks) == Used(old(blocks))[r := Units(nbytes)]
      ensures heap == if Fits(old(blocks), Units(nbytes)) || env.Refused? then old(heap) else Sbrked(old(heap), env.start, Argument(Request(Units(nbytes))))
      ensures Sound() <==> Safe(old(blocks), Units(nbytes), env)
      ensures Partition(blocks, heap) <==> Safe(old(blocks), Units(nbytes), env)
      ensures Fits(old(blocks), Units(nbytes)) ==>
                old(started) && NextFit(Listed(old(blocks)), old(size), old(ptr), old(freep), Units(nbytes), freep, p, r)
    {
      hide Disjoint, Partition, Joined, Linked, Listed, Headers, Used, Fits, Above, AllSmall, Sbrked, Argument;
      var n := Units(nbytes);
      if !started {
        EmptyHeap();
        ptr, size, freep, started := map[BASE := BASE], map[BASE := 0], BASE, true;
      }
      r, p := Search(n, env);
    }

    // malloc's loop. One call of morecore is always enough. p: the free block that is used, the
    // first large enough that comes after freep on the list, which is where the next call begins.
    method Search(n: nat, env: Sbrk) returns (r: nat, ghost p: nat)
      requires Sound() && started && n > 0 && (env.Granted? ==> env.start > BASE && Above(heap, env.start))
      modifies `ptr, `size, `freep, `blocks, `chunks, `heap
      ensures Ok()
      ensures r == BASE <==> !Fits(old(blocks), n) && env.Refused?
      ensures r == BASE ==> blocks == old(blocks)
      ensures r != BASE ==> r !in Used(old(blocks)) && Used(blocks) == Used(old(blocks))[r := n]
      ensures heap == if Fits(old(blocks), n) || env.Refused? then old(heap) else Sbrked(old(heap), env.start, Argument(Request(n)))
      ensures Sound() <==> Safe(old(blocks), n, env)
      ensures Partition(blocks, heap) <==> Safe(old(blocks), n, env)
      ensures Fits(old(blocks), n) ==> NextFit(Listed(old(blocks)), old(size), old(ptr), old(freep), n, freep, p, r)
    {
      hide Disjoint, Partition, Joined, Listed, Headers, Used, Fits, Above, AllSmall, Follows, Linked, Sbrked, Argument;
      var prev := freep;
      PassStart(Listed(blocks), size, ptr, freep, n);
      LinkedNext(blocks, chunks, size, ptr, prev);
      var q := ptr[prev];
      ghost var grown := false;
      while true
        invariant Ok() && started && prev in Listed(blocks) && q in Listed(blocks) && prev in ptr && ptr[prev] == q && q in size
        invariant AllSmall(Listed(blocks), size, freep, q, n)
        invariant Used(blocks) == Used(old(blocks))
        invariant !grown ==> blocks == old(blocks) && chunks == old(chunks) && heap == old(heap)
        invariant !grown ==> size == old(size) && ptr == old(ptr) && freep == old(freep)
        invariant grown ==> env.Granted? && heap == Sbrked(old(heap), env.start, Argument(Request(n)))
        invariant grown ==> env.Granted? && Fits(blocks, n) && !Fits(old(blocks), n) && chunks == old(chunks) + [Chunk(env.start, Request(n))]
        decreases if grown then 0 else 1, if q > freep then 1 else 0, Ahead(Listed(blocks), freep, q)
      {
        if size[q] >= n {
          LinkedNext(blocks, chunks, size, ptr, prev);
          FoundFits(blocks, chunks, size, ptr, q, n);
          r := Take(prev, q, n);
          p := q;
          if grown { PartitionIff(blocks, old(chunks), env.start, Request(n)); }
          return;
        }
        if q == freep {
          PassedAll(blocks, size, freep, n);
          assert !grown;
          var ok := MoreCore(n, env);
          if !ok {
            return BASE, BASE;
          }
          grown := true;
          q := freep;
          PassStart(Listed(blocks), size, ptr, freep, n);
        } else {
          PassOne(Listed(blocks), size, ptr, freep, q, n);
          AheadShrinks(blocks, chunks, size, ptr, freep, q);
        }
        LinkedNext(blocks, chunks, size, ptr, q);
        prev := q;
        q := ptr[q];
      }
    }
  }
}
