// The heap of user/umalloc.c: blocks cut from the memory that sbrk returned, and the
// circular list through those that are free.

module HeapModel {
  // A run of header-sized units: what sbrk returned.
  datatype Chunk = Chunk(start: nat, units: nat)

  // A block with its header, at some address.
  datatype Block = Block(size: nat, free: bool)

  const BASE: nat := 0   // the address of the static header base; every heap address is higher

  // Is unit u in the run of this size at a?
  predicate Inside(a: nat, size: nat, u: nat) { a <= u < a + size }

  ghost predicate InHeap(chunks: seq<Chunk>, u: nat) {
    exists i :: 0 <= i < |chunks| && Inside(chunks[i].start, chunks[i].units, u)
  }

  ghost predicate Covered(blocks: map<nat, Block>, u: nat) {
    exists a :: a in blocks && Inside(a, blocks[a].size, u)
  }

  // Blocks do not overlap, and together they are the heap.
  ghost predicate Disjoint(blocks: map<nat, Block>) {
    && (forall a | a in blocks :: a > BASE && blocks[a].size >= 1)
    && (forall a, b | a in blocks && b in blocks && a < b :: a + blocks[a].size <= b)
  }

  ghost predicate Partition(blocks: map<nat, Block>, chunks: seq<Chunk>) {
    forall u: nat :: InHeap(chunks, u) <==> Covered(blocks, u)
  }

  // Free blocks that touch have been joined.
  ghost predicate Joined(blocks: map<nat, Block>) {
    forall a, b | a in blocks && b in blocks && blocks[a].free && blocks[b].free :: a + blocks[a].size != b
  }

  // The headers in memory say so.
  ghost predicate Headers(blocks: map<nat, Block>, size: map<nat, nat>) {
    && BASE in size && size[BASE] == 0
    && forall a | a in blocks :: a in size && size[a] == blocks[a].size
  }

  // What is on the list: base and the free blocks.
  ghost function Listed(blocks: map<nat, Block>): set<nat> {
    {BASE} + set a | a in blocks && blocks[a].free
  }

  // b follows a on the list: the next address up, or base after the last.
  ghost predicate Follows(nodes: set<nat>, a: nat, b: nat) {
    if b == BASE then forall c | c in nodes :: c <= a
    else b in nodes && a < b && forall c | c in nodes :: c <= a || b <= c
  }

  ghost predicate Linked(nodes: set<nat>, ptr: map<nat, nat>) {
    BASE in nodes && forall a | a in nodes :: a in ptr && Follows(nodes, a, ptr[a])
  }

  ghost predicate Valid(blocks: map<nat, Block>, chunks: seq<Chunk>, size: map<nat, nat>, ptr: map<nat, nat>) {
    && Disjoint(blocks) && Partition(blocks, chunks) && Joined(blocks)
    && Headers(blocks, size) && Linked(Listed(blocks), ptr)
  }

  // The blocks handed out.
  ghost function Used(blocks: map<nat, Block>): map<nat, nat> {
    map a | a in blocks && !blocks[a].free :: blocks[a].size
  }

  // Putting x on the list after p.
  lemma LinkIn(nodes: set<nat>, ptr: map<nat, nat>, p: nat, x: nat)
    requires Linked(nodes, ptr) && p in nodes && x !in nodes && p < x && (ptr[p] == BASE || x < ptr[p])
    ensures Linked(nodes + {x}, ptr[x := ptr[p]][p := x])
  {
  }

  // Taking the successor of p off the list.
  lemma LinkOut(nodes: set<nat>, ptr: map<nat, nat>, p: nat)
    requires Linked(nodes, ptr) && p in nodes && ptr[p] != BASE && ptr[p] != p
    ensures Linked(nodes - {ptr[p]}, ptr[p := ptr[ptr[p]]])
  {
  }

  // Two touching blocks as one.
  ghost function Merge(blocks: map<nat, Block>, a: nat, b: nat): map<nat, Block>
    requires a in blocks && b in blocks
  {
    (blocks - {b})[a := Block(blocks[a].size + blocks[b].size, blocks[a].free)]
  }

  lemma MergeDisjoint(blocks: map<nat, Block>, a: nat, b: nat)
    requires Disjoint(blocks) && a in blocks && b in blocks && a + blocks[a].size == b
    ensures Disjoint(Merge(blocks, a, b))
  {
  }

  lemma MergeCovers(blocks: map<nat, Block>, a: nat, b: nat, u: nat)
    requires a in blocks && b in blocks && a != b && a + blocks[a].size == b
    ensures Covered(blocks, u) <==> Covered(Merge(blocks, a, b), u)
  {
    var r := Merge(blocks, a, b);
    if Covered(blocks, u) {
      var c :| c in blocks && Inside(c, blocks[c].size, u);
      assert Inside(if c == b then a else c, r[if c == b then a else c].size, u);
    }
    if Covered(r, u) {
      var c :| c in r && Inside(c, r[c].size, u);
      assert c != a ==> Inside(c, blocks[c].size, u);
      assert c == a ==> Inside(a, blocks[a].size, u) || Inside(b, blocks[b].size, u);
    }
  }

  lemma MergeKeepsLayout(blocks: map<nat, Block>, chunks: seq<Chunk>, a: nat, b: nat)
    requires Disjoint(blocks) && Partition(blocks, chunks)
    requires a in blocks && b in blocks && a + blocks[a].size == b
    ensures Disjoint(Merge(blocks, a, b)) && Partition(Merge(blocks, a, b), chunks)
  {
    hide Disjoint, Covered, InHeap, Merge;
    MergeDisjoint(blocks, a, b);
    BlockNotEmpty(blocks, a);
    forall u: nat
      ensures Covered(blocks, u) <==> Covered(Merge(blocks, a, b), u)
    {
      MergeCovers(blocks, a, b, u);
    }
  }

  lemma BlockNotEmpty(blocks: map<nat, Block>, a: nat)
    requires Disjoint(blocks) && a in blocks
    ensures blocks[a].size >= 1
  {
  }

  // A block as two: the upper m units become a block of their own.
  ghost function Split(blocks: map<nat, Block>, a: nat, m: nat, free: bool): map<nat, Block>
    requires a in blocks && m <= blocks[a].size
  {
    blocks[a := Block(blocks[a].size - m, blocks[a].free)][a + (blocks[a].size - m) := Block(m, free)]
  }

  lemma SplitDisjoint(blocks: map<nat, Block>, a: nat, m: nat, free: bool)
    requires Disjoint(blocks) && a in blocks && 0 < m < blocks[a].size
    ensures a + (blocks[a].size - m) !in blocks
    ensures Disjoint(Split(blocks, a, m, free))
  {
  }

  lemma SplitCovers(blocks: map<nat, Block>, a: nat, m: nat, free: bool, u: nat)
    requires a in blocks && 0 < m < blocks[a].size && a + (blocks[a].size - m) !in blocks
    ensures Covered(blocks, u) <==> Covered(Split(blocks, a, m, free), u)
  {
    var r, b := Split(blocks, a, m, free), a + (blocks[a].size - m);
    if Covered(blocks, u) {
      var c :| c in blocks && Inside(c, blocks[c].size, u);
      assert c != a ==> Inside(c, r[c].size, u);
      assert c == a ==> Inside(a, r[a].size, u) || Inside(b, r[b].size, u);
    }
    if Covered(r, u) {
      var c :| c in r && Inside(c, r[c].size, u);
      assert Inside(if c == b then a else c, blocks[if c == b then a else c].size, u);
    }
  }

  lemma SplitKeepsLayout(blocks: map<nat, Block>, chunks: seq<Chunk>, a: nat, m: nat, free: bool)
    requires Disjoint(blocks) && Partition(blocks, chunks) && a in blocks && 0 < m < blocks[a].size
    ensures a + (blocks[a].size - m) !in blocks
    ensures Disjoint(Split(blocks, a, m, free)) && Partition(Split(blocks, a, m, free), chunks)
  {
    hide Disjoint, Covered, InHeap, Split;
    SplitDisjoint(blocks, a, m, free);
    forall u: nat
      ensures Covered(blocks, u) <==> Covered(Split(blocks, a, m, free), u)
    {
      SplitCovers(blocks, a, m, free, u);
    }
  }

  // A block changes hands.
  ghost function Hand(blocks: map<nat, Block>, a: nat, free: bool): map<nat, Block>
    requires a in blocks
  {
    blocks[a := Block(blocks[a].size, free)]
  }

  lemma HandKeepsLayout(blocks: map<nat, Block>, chunks: seq<Chunk>, a: nat, free: bool)
    requires Disjoint(blocks) && Partition(blocks, chunks) && a in blocks
    ensures Disjoint(Hand(blocks, a, free)) && Partition(Hand(blocks, a, free), chunks)
  {
    var r := Hand(blocks, a, free);
    forall u: nat
      ensures Covered(blocks, u) <==> Covered(r, u)
    {
      if Covered(blocks, u) {
        var c :| c in blocks && Inside(c, blocks[c].size, u);
        assert Inside(c, r[c].size, u);
      }
      if Covered(r, u) {
        var c :| c in r && Inside(c, r[c].size, u);
        assert Inside(c, blocks[c].size, u);
      }
    }
  }

  // sbrk returned units above everything so far.
  lemma GrowKeepsLayout(blocks: map<nat, Block>, chunks: seq<Chunk>, at: nat, n: nat)
    requires Disjoint(blocks) && Partition(blocks, chunks) && n >= 1 && at > BASE && Above(chunks, at)
    ensures at !in blocks
    ensures Disjoint(blocks[at := Block(n, false)]) && Partition(blocks[at := Block(n, false)], chunks + [Chunk(at, n)])
  {
    var r, cs := blocks[at := Block(n, false)], chunks + [Chunk(at, n)];
    forall a | a in blocks
      ensures a + blocks[a].size <= at
    {
      var u := a + blocks[a].size - 1;
      assert Inside(a, blocks[a].size, u);
      assert Covered(blocks, u) && InHeap(chunks, u);
    }
    forall u: nat
      ensures InHeap(cs, u) <==> Covered(r, u)
    {
      if InHeap(cs, u) {
        var i :| 0 <= i < |cs| && Inside(cs[i].start, cs[i].units, u);
        if i < |chunks| {
          assert Inside(chunks[i].start, chunks[i].units, u) && InHeap(chunks, u);
          var c :| c in blocks && Inside(c, blocks[c].size, u);
          assert Inside(c, r[c].size, u);
        } else {
          assert Inside(at, r[at].size, u);
        }
      }
      if Covered(r, u) {
        var c :| c in r && Inside(c, r[c].size, u);
        if c == at {
          assert cs[|chunks|] == Chunk(at, n);
        } else {
          assert Inside(c, blocks[c].size, u) && Covered(blocks, u);
          var i :| 0 <= i < |chunks| && Inside(chunks[i].start, chunks[i].units, u);
          assert cs[i] == chunks[i];
        }
      }
    }
  }

  ghost predicate Above(chunks: seq<Chunk>, at: nat) {
    forall i | 0 <= i < |chunks| :: chunks[i].start + chunks[i].units <= at
  }

  // p is where bp belongs on the list.
  ghost predicate Spot(nodes: set<nat>, ptr: map<nat, nat>, p: nat, bp: nat) {
    p in nodes && p in ptr && p < bp && (ptr[p] == BASE || bp < ptr[p])
  }

  // The nodes free's search still has ahead of it at p: those above p, and only those below
  // bp once p is below bp.
  ghost function Remaining(nodes: set<nat>, p: nat, bp: nat): set<nat> {
    set c | c in nodes && c > p && (p < bp ==> c < bp)
  }

  lemma NotListed(blocks: map<nat, Block>, bp: nat)
    requires Disjoint(blocks) && bp in blocks && !blocks[bp].free
    ensures bp !in Listed(blocks) && bp > BASE
    ensures forall ptr: map<nat, nat>, p | p in Listed(blocks) && Linked(Listed(blocks), ptr) :: p in ptr && ptr[p] in Listed(blocks)
  {
    hide Disjoint;
    BaseIsNoBlock(blocks);
    forall ptr: map<nat, nat>, p | p in Listed(blocks) && Linked(Listed(blocks), ptr)
      ensures p in ptr && ptr[p] in Listed(blocks)
    {
      assert Follows(Listed(blocks), p, ptr[p]);
    }
  }

  lemma RemainingShrinks(nodes: set<nat>, p: nat, q: nat, bp: nat)
    requires q in nodes && p < q && q != bp && (p < bp <==> q < bp)
    ensures Remaining(nodes, q, bp) < Remaining(nodes, p, bp)
  {
    assert q in Remaining(nodes, p, bp) && q !in Remaining(nodes, q, bp);
  }

  lemma SearchOn(nodes: set<nat>, ptr: map<nat, nat>, p: nat, bp: nat)
    requires Linked(nodes, ptr) && p in nodes && bp !in nodes && bp > BASE
    requires !(bp > p && bp < ptr[p]) && !(p >= ptr[p] && (bp > p || bp < ptr[p]))
    ensures ptr[p] in nodes && ptr[p] in ptr && ptr[ptr[p]] in nodes
    ensures (p > bp && ptr[p] <= bp) || ((p > bp <==> ptr[p] > bp) && Remaining(nodes, ptr[p], bp) < Remaining(nodes, p, bp))
  {
    hide Remaining;
    var q: nat := ptr[p];
    assert Follows(nodes, p, q);
    assert Follows(nodes, q, ptr[q]);
    if !(p > bp && q <= bp) {
      RemainingShrinks(nodes, p, q, bp);
    }
  }

  lemma SearchEnds(nodes: set<nat>, ptr: map<nat, nat>, p: nat, bp: nat)
    requires Linked(nodes, ptr) && p in nodes && bp !in nodes && bp > BASE
    requires (bp > p && bp < ptr[p]) || (p >= ptr[p] && (bp > p || bp < ptr[p]))
    ensures Spot(nodes, ptr, p, bp)
  {
    assert Follows(nodes, p, ptr[p]);
  }

  // bp is free and joined with the block above it, if that is free and touches it.
  ghost function JoinUp(blocks: map<nat, Block>, bp: nat): map<nat, Block>
    requires bp in blocks
  {
    var b, q := Hand(blocks, bp, true), bp + blocks[bp].size;
    if q in b && b[q].free then Merge(b, bp, q) else b
  }

  // Then the block p below it is joined with it, if they touch.
  ghost function JoinDown(blocks: map<nat, Block>, p: nat, bp: nat): map<nat, Block>
    requires bp in blocks
  {
    if p in blocks && blocks[p].free && p + blocks[p].size == bp then Merge(blocks, p, bp) else blocks
  }

  ghost function GiveBack(blocks: map<nat, Block>, p: nat, bp: nat): map<nat, Block>
    requires bp in blocks
  {
    JoinDown(JoinUp(blocks, bp), p, bp)
  }

  lemma JoinUpKeepsLayout(blocks: map<nat, Block>, chunks: seq<Chunk>, bp: nat)
    requires Disjoint(blocks) && Partition(blocks, chunks) && bp in blocks && !blocks[bp].free
    ensures Disjoint(JoinUp(blocks, bp)) && Partition(JoinUp(blocks, bp), chunks) && bp in JoinUp(blocks, bp) && JoinUp(blocks, bp)[bp].free
    ensures Used(JoinUp(blocks, bp)) == Used(blocks) - {bp}
  {
    hide Disjoint, Partition;
    HandKeepsLayout(blocks, chunks, bp, true);
    var b, q := Hand(blocks, bp, true), bp + blocks[bp].size;
    if q in b && b[q].free { MergeKeepsLayout(b, chunks, bp, q); }
  }

  lemma JoinDownKeepsLayout(blocks: map<nat, Block>, chunks: seq<Chunk>, p: nat, bp: nat)
    requires Disjoint(blocks) && Partition(blocks, chunks) && bp in blocks && blocks[bp].free
    ensures Disjoint(JoinDown(blocks, p, bp)) && Partition(JoinDown(blocks, p, bp), chunks)
    ensures Used(JoinDown(blocks, p, bp)) == Used(blocks)
  {
    hide Disjoint, Partition;
    if p in blocks && blocks[p].free && p + blocks[p].size == bp { MergeKeepsLayout(blocks, chunks, p, bp); }
  }

  // The free neighbours of bp are p and the block after p on the list.
  lemma SpotNeighbours(blocks: map<nat, Block>, ptr: map<nat, nat>, p: nat, bp: nat)
    requires Disjoint(blocks) && Linked(Listed(blocks), ptr) && bp in blocks && !blocks[bp].free && Spot(Listed(blocks), ptr, p, bp)
    ensures forall a | a in blocks && blocks[a].free && a + blocks[a].size == bp :: a == p
    ensures forall b | b in blocks && blocks[b].free && bp + blocks[bp].size == b :: b == ptr[p]
    ensures ptr[p] != BASE ==> ptr[p] in blocks && blocks[ptr[p]].free
    ensures p != BASE ==> p in blocks && blocks[p].free
  {
    var nodes := Listed(blocks);
    assert Follows(nodes, p, ptr[p]);
    forall a | a in blocks && blocks[a].free && a + blocks[a].size == bp
      ensures a == p
    {
      assert a in nodes;
    }
    forall b | b in blocks && blocks[b].free && bp + blocks[bp].size == b
      ensures b == ptr[p]
    {
      assert b in nodes;
    }
  }

  // Free blocks touch only where the one below is p and the one above is bp.
  ghost predicate JoinedBut(blocks: map<nat, Block>, p: nat, bp: nat) {
    forall a, b | a in blocks && b in blocks && blocks[a].free && blocks[b].free && a + blocks[a].size == b :: a == p && b == bp
  }

  lemma JoinUpJoined(blocks: map<nat, Block>, ptr: map<nat, nat>, p: nat, bp: nat)
    requires Disjoint(blocks) && Joined(blocks) && Linked(Listed(blocks), ptr) && bp in blocks && !blocks[bp].free
    requires Spot(Listed(blocks), ptr, p, bp)
    ensures JoinedBut(JoinUp(blocks, bp), p, bp)
  {
    hide Linked, Spot, Listed;
    SpotNeighbours(blocks, ptr, p, bp);
  }

  lemma JoinDownJoined(blocks: map<nat, Block>, p: nat, bp: nat)
    requires Disjoint(blocks) && JoinedBut(blocks, p, bp) && bp in blocks && blocks[bp].free
    ensures Joined(JoinDown(blocks, p, bp))
  {
  }

  lemma GiveBackJoined(blocks: map<nat, Block>, chunks: seq<Chunk>, ptr: map<nat, nat>, p: nat, bp: nat)
    requires Disjoint(blocks) && Partition(blocks, chunks) && Joined(blocks) && Linked(Listed(blocks), ptr) && bp in blocks && !blocks[bp].free
    requires Spot(Listed(blocks), ptr, p, bp)
    ensures Joined(GiveBack(blocks, p, bp))
  {
    hide Disjoint, Partition, Joined, JoinedBut, Linked, Listed;
    JoinUpJoined(blocks, ptr, p, bp);
    JoinUpKeepsLayout(blocks, chunks, bp);
    JoinDownJoined(JoinUp(blocks, bp), p, bp);
  }

  // The stores of free() into the ptr fields.
  ghost function GiveBackPtr(size: map<nat, nat>, ptr: map<nat, nat>, p: nat, bp: nat): map<nat, nat>
    requires p in ptr && (ptr[p] != BASE ==> ptr[p] in ptr) && bp in size && p in size
  {
    var q := ptr[p];
    var up := if q != BASE && bp + size[bp] == q then ptr[q] else q;
    ptr[bp := up][p := if p + size[p] == bp then up else bp]
  }

  lemma Relink(nodes: set<nat>, ptr: map<nat, nat>, p: nat, bp: nat, up: bool, down: bool)
    requires Linked(nodes, ptr) && Spot(nodes, ptr, p, bp) && bp !in nodes && (up ==> ptr[p] != BASE)
    ensures ptr[p] in ptr
    ensures var next := if up then ptr[ptr[p]] else ptr[p];
            Linked(nodes - (if up then {ptr[p]} else {}) + (if down then {} else {bp}), ptr[bp := next][p := if down then next else bp])
  {
    hide Follows;
    NextIsListed(nodes, ptr, p);
    if up { LinkOut(nodes, ptr, p); }
    var n1, p1 := if up then nodes - {ptr[p]} else nodes, if up then ptr[p := ptr[ptr[p]]] else ptr;
    if down {
      assert Linked(n1, p1[bp := p1[p]]);
      assert n1 + {} == n1;
    } else {
      if up { NextAbove(nodes, ptr, p, bp); }
      LinkIn(n1, p1, p, bp);
    }
    assert nodes - {} == nodes;
    assert p1[bp := p1[p]][p := if down then p1[p] else bp] == ptr[bp := p1[p]][p := if down then p1[p] else bp];
  }

  lemma NextIsListed(nodes: set<nat>, ptr: map<nat, nat>, p: nat)
    requires Linked(nodes, ptr) && p in nodes
    ensures ptr[p] in nodes && ptr[p] in ptr && (ptr[p] != BASE ==> ptr[p] > p)
  {
  }

  lemma NextAbove(nodes: set<nat>, ptr: map<nat, nat>, p: nat, bp: nat)
    requires Linked(nodes, ptr) && Spot(nodes, ptr, p, bp) && ptr[p] != BASE
    ensures ptr[p] in ptr && (ptr[ptr[p]] == BASE || bp < ptr[ptr[p]])
  {
  }

  lemma GiveBackLinked(blocks: map<nat, Block>, size: map<nat, nat>, ptr: map<nat, nat>, p: nat, bp: nat)
    requires Disjoint(blocks) && Headers(blocks, size) && Linked(Listed(blocks), ptr)
    requires bp in blocks && !blocks[bp].free && Spot(Listed(blocks), ptr, p, bp)
    ensures p in size && (ptr[p] != BASE ==> ptr[p] in ptr)
    ensures Linked(Listed(GiveBack(blocks, p, bp)), GiveBackPtr(size, ptr, p, bp))
  {
    hide Linked, GiveBack;
    SpotNeighbours(blocks, ptr, p, bp);
    GiveBackListed(blocks, ptr, p, bp);
    UsedIsNotListed(blocks, bp);
    Relink(Listed(blocks), ptr, p, bp, ptr[p] != BASE && bp + blocks[bp].size == ptr[p], p in blocks && p + blocks[p].size == bp);
  }

  lemma UsedIsNotListed(blocks: map<nat, Block>, bp: nat)
    requires Disjoint(blocks) && bp in blocks && !blocks[bp].free
    ensures bp !in Listed(blocks)
  {
  }

  lemma JoinUpListed(blocks: map<nat, Block>, q: nat, bp: nat)
    requires bp in blocks && bp > BASE && !blocks[bp].free && (q != BASE ==> q in blocks && blocks[q].free)
    requires forall b | b in blocks && blocks[b].free && bp + blocks[bp].size == b :: b == q
    ensures var up := q != BASE && bp + blocks[bp].size == q;
            Listed(JoinUp(blocks, bp)) == Listed(blocks) - (if up then {q} else {}) + {bp}
    ensures q != bp && bp in JoinUp(blocks, bp) && JoinUp(blocks, bp)[bp].free
    ensures forall a | a in blocks && a != bp && a != q :: a in JoinUp(blocks, bp) && JoinUp(blocks, bp)[a] == blocks[a]
  {
  }

  lemma JoinDownListed(blocks: map<nat, Block>, p: nat, bp: nat)
    requires bp in blocks && blocks[bp].free && (p != BASE ==> p in blocks && blocks[p].free) && p != bp && BASE !in blocks
    ensures var down := p in blocks && p + blocks[p].size == bp;
            Listed(JoinDown(blocks, p, bp)) == Listed(blocks) - (if down then {bp} else {})
  {
  }

  lemma GiveBackListed(blocks: map<nat, Block>, ptr: map<nat, nat>, p: nat, bp: nat)
    requires Disjoint(blocks) && Linked(Listed(blocks), ptr) && bp in blocks && !blocks[bp].free && Spot(Listed(blocks), ptr, p, bp)
    ensures var up, down := ptr[p] != BASE && bp + blocks[bp].size == ptr[p], p in blocks && p + blocks[p].size == bp;
            Listed(GiveBack(blocks, p, bp)) == Listed(blocks) - (if up then {ptr[p]} else {}) + (if down then {} else {bp})
  {
    hide Disjoint, Linked, Listed, JoinUp, JoinDown;
    SpotNeighbours(blocks, ptr, p, bp);
    BaseIsNoBlock(blocks);
    UsedIsNotListed(blocks, bp);
    var q, m := ptr[p], JoinUp(blocks, bp);
    JoinUpListed(blocks, q, bp);
    UpKeepsBase(blocks, bp);
    JoinDownListed(m, p, bp);
  }

  lemma UpKeepsBase(blocks: map<nat, Block>, bp: nat)
    requires BASE !in blocks && bp in blocks
    ensures BASE !in JoinUp(blocks, bp)
  {
  }

  ghost function GiveBackSize(size: map<nat, nat>, q: nat, p: nat, bp: nat): map<nat, nat>
    requires bp in size && (q != BASE ==> q in size) && p in size
  {
    var s1 := if q != BASE && bp + size[bp] == q then size[bp := size[bp] + size[q]] else size;
    if p + size[p] == bp then s1[p := s1[p] + s1[bp]] else s1
  }

  lemma JoinUpHeaders(blocks: map<nat, Block>, size: map<nat, nat>, q: nat, bp: nat)
    requires Disjoint(blocks) && Headers(blocks, size) && bp in blocks && (q != BASE ==> q in blocks && blocks[q].free)
    requires forall b | b in blocks && blocks[b].free && bp + blocks[bp].size == b :: b == q
    ensures Headers(JoinUp(blocks, bp), if q != BASE && bp + size[bp] == q then size[bp := size[bp] + size[q]] else size)
  {
    hide Disjoint;
    BaseIsNoBlock(blocks);
  }

  lemma JoinDownHeaders(blocks: map<nat, Block>, size: map<nat, nat>, p: nat, bp: nat)
    requires Headers(blocks, size) && BASE !in blocks && bp in blocks && bp > BASE && (p != BASE ==> p in blocks && blocks[p].free)
    requires p in size
    ensures Headers(JoinDown(blocks, p, bp), if p + size[p] == bp then size[p := size[p] + size[bp]] else size)
  {
  }

  lemma GiveBackHeaders(blocks: map<nat, Block>, size: map<nat, nat>, ptr: map<nat, nat>, p: nat, bp: nat)
    requires Disjoint(blocks) && Headers(blocks, size) && Linked(Listed(blocks), ptr) && bp in blocks && !blocks[bp].free && Spot(Listed(blocks), ptr, p, bp)
    ensures p in size && (ptr[p] != BASE ==> ptr[p] in size)
    ensures Headers(GiveBack(blocks, p, bp), GiveBackSize(size, ptr[p], p, bp))
  {
    hide Disjoint, Linked, Listed;
    SpotNeighbours(blocks, ptr, p, bp);
    JoinUpHeaders(blocks, size, ptr[p], bp);
    BaseIsNoBlock(blocks);
    var s1 := if ptr[p] != BASE && bp + size[bp] == ptr[p] then size[bp := size[bp] + size[ptr[p]]] else size;
    JoinDownHeaders(JoinUp(blocks, bp), s1, p, bp);
  }

  lemma GiveBackKeepsValid(blocks: map<nat, Block>, chunks: seq<Chunk>, size: map<nat, nat>, ptr: map<nat, nat>, p: nat, bp: nat)
    requires Valid(blocks, chunks, size, ptr) && bp in blocks && !blocks[bp].free && Spot(Listed(blocks), ptr, p, bp)
    ensures p in size && bp in size && (ptr[p] != BASE ==> ptr[p] in size && ptr[p] in ptr)
    ensures Valid(GiveBack(blocks, p, bp), chunks, GiveBackSize(size, ptr[p], p, bp), GiveBackPtr(size, ptr, p, bp))
    ensures Used(GiveBack(blocks, p, bp)) == Used(blocks) - {bp}
    ensures p in Listed(GiveBack(blocks, p, bp))
    ensures p in ptr && p < bp && BASE in size && size[BASE] == 0
  {
    hide Disjoint, Partition, Joined, Linked, Listed, GiveBackPtr, GiveBackSize, Used;
    JoinUpKeepsLayout(blocks, chunks, bp);
    JoinDownKeepsLayout(JoinUp(blocks, bp), chunks, p, bp);
    GiveBackJoined(blocks, chunks, ptr, p, bp);
    GiveBackHeaders(blocks, size, ptr, p, bp);
    GiveBackLinked(blocks, size, ptr, p, bp);
    GiveBackListed(blocks, ptr, p, bp);
    SpotNeighbours(blocks, ptr, p, bp);
    BaseIsNoBlock(blocks);
    NextIsListed(Listed(blocks), ptr, p);
  }

  lemma BaseIsNoBlock(blocks: map<nat, Block>)
    requires Disjoint(blocks)
    ensures BASE !in blocks
  {
  }

  // What was given back is inside one free block.
  lemma GiveBackHolds(blocks: map<nat, Block>, p: nat, bp: nat)
    requires Disjoint(blocks) && bp in blocks && !blocks[bp].free
    ensures Fits(GiveBack(blocks, p, bp), blocks[bp].size)
  {
    var r := GiveBack(blocks, p, bp);
    var a := if bp in r then bp else p;
    assert HoldsFree(r, a, blocks[bp].size);
  }

  // Block a is free and has room for n units.
  ghost predicate HoldsFree(blocks: map<nat, Block>, a: nat, n: nat)
    requires a in blocks
  {
    blocks[a].free && blocks[a].size >= n
  }

  ghost predicate Fits(blocks: map<nat, Block>, n: nat) {
    exists a :: a in blocks && HoldsFree(blocks, a, n)
  }

  lemma IsListed(blocks: map<nat, Block>, a: nat)
    requires Disjoint(blocks) && a in blocks && blocks[a].free
    ensures a in Listed(blocks) && a != BASE
  {
  }

  // malloc takes all of free block a, the successor of prev on the list.
  lemma TakeWhole(blocks: map<nat, Block>, chunks: seq<Chunk>, size: map<nat, nat>, ptr: map<nat, nat>, prev: nat, a: nat)
    requires Valid(blocks, chunks, size, ptr) && prev in Listed(blocks) && a in blocks && blocks[a].free && ptr[prev] == a && prev != a
    ensures a in ptr && Valid(Hand(blocks, a, false), chunks, size, ptr[prev := ptr[a]])
    ensures Used(Hand(blocks, a, false)) == Used(blocks)[a := blocks[a].size]
    ensures prev in Listed(Hand(blocks, a, false))
  {
    hide Disjoint, Partition, Follows;
    HandKeepsLayout(blocks, chunks, a, false);
    IsListed(blocks, a);
    LinkOut(Listed(blocks), ptr, prev);
    assert Listed(Hand(blocks, a, false)) == Listed(blocks) - {a};
  }

  // malloc takes the upper n units of free block a.
  lemma TakeTail(blocks: map<nat, Block>, chunks: seq<Chunk>, size: map<nat, nat>, ptr: map<nat, nat>, a: nat, n: nat)
    requires Valid(blocks, chunks, size, ptr) && a in blocks && blocks[a].free && 0 < n < blocks[a].size
    ensures var b := a + (blocks[a].size - n);
            && Valid(Split(blocks, a, n, false), chunks, size[a := size[a] - n][b := n], ptr)
            && Used(Split(blocks, a, n, false)) == Used(blocks)[b := n]
            && b !in blocks && b !in Used(blocks) && b > a
    ensures Listed(Split(blocks, a, n, false)) == Listed(blocks)
  {
    hide Disjoint, Partition, Linked, Joined;
    SplitKeepsLayout(blocks, chunks, a, n, false);
    assert Listed(Split(blocks, a, n, false)) == Listed(blocks);
    SplitJoined(blocks, a, n);
    PastStart(blocks, a, n);
  }

  lemma PastStart(blocks: map<nat, Block>, a: nat, n: nat)
    requires Disjoint(blocks) && a in blocks
    ensures a > BASE
  {
  }

  lemma SplitJoined(blocks: map<nat, Block>, a: nat, n: nat)
    requires Disjoint(blocks) && Joined(blocks) && a in blocks && blocks[a].free && 0 < n < blocks[a].size
    ensures Joined(Split(blocks, a, n, false))
  {
  }

  // What malloc has looked at since it left f, when it is at p.
  ghost predicate Passed(f: nat, p: nat, c: nat) {
    if p > f then f < c < p else c > f || c < p
  }

  ghost predicate AllSmall(nodes: set<nat>, size: map<nat, nat>, f: nat, p: nat, n: nat) {
    forall c | c in nodes && Passed(f, p, c) :: c in size && size[c] < n
  }

  lemma PassStart(nodes: set<nat>, size: map<nat, nat>, ptr: map<nat, nat>, f: nat, n: nat)
    requires Linked(nodes, ptr) && f in nodes
    ensures ptr[f] in nodes && AllSmall(nodes, size, f, ptr[f], n)
  {
  }

  lemma PassOne(nodes: set<nat>, size: map<nat, nat>, ptr: map<nat, nat>, f: nat, p: nat, n: nat)
    requires Linked(nodes, ptr) && f in nodes && p in nodes && p != f && AllSmall(nodes, size, f, p, n) && p in size && size[p] < n
    ensures ptr[p] in nodes && AllSmall(nodes, size, f, ptr[p], n)
  {
  }

  lemma PassedAll(blocks: map<nat, Block>, size: map<nat, nat>, f: nat, n: nat)
    requires Headers(blocks, size) && AllSmall(Listed(blocks), size, f, f, n) && f in size && size[f] < n
    ensures !Fits(blocks, n)
  {
    forall a | a in blocks && blocks[a].free
      ensures blocks[a].size < n
    {
      assert a in Listed(blocks);
    }
  }

  // A new block at the top of the heap, before morecore frees it.
  lemma GrowKeepsValid(blocks: map<nat, Block>, chunks: seq<Chunk>, size: map<nat, nat>, ptr: map<nat, nat>, at: nat, n: nat)
    requires Valid(blocks, chunks, size, ptr) && n >= 1 && at > BASE && Above(chunks, at)
    ensures at !in blocks && Valid(blocks[at := Block(n, false)], chunks + [Chunk(at, n)], size[at := n], ptr)
    ensures Listed(blocks[at := Block(n, false)]) == Listed(blocks)
    ensures Used(blocks[at := Block(n, false)]) == Used(blocks)[at := n] && Used(blocks) == Used(blocks)[at := n] - {at}
  {
    hide Disjoint, Partition, Linked;
    GrowKeepsLayout(blocks, chunks, at, n);
    assert Listed(blocks[at := Block(n, false)]) == Listed(blocks);
  }

  lemma EmptyHeap()
    ensures Valid(map[], [], map[BASE := 0], map[BASE := BASE]) && BASE in Listed(map[])
  {
  }

  lemma FitsLess(blocks: map<nat, Block>, m: nat, n: nat)
    requires Fits(blocks, m) && n <= m
    ensures Fits(blocks, n)
  {
    var a :| a in blocks && HoldsFree(blocks, a, m);
    assert HoldsFree(blocks, a, n);
  }

  lemma LinkedNext(blocks: map<nat, Block>, chunks: seq<Chunk>, size: map<nat, nat>, ptr: map<nat, nat>, p: nat)
    requires Valid(blocks, chunks, size, ptr) && p in Listed(blocks)
    ensures p in ptr && ptr[p] in Listed(blocks) && ptr[p] in size && p in size
  {
    hide Disjoint, Partition, Joined;
    assert Follows(Listed(blocks), p, ptr[p]);
  }

  // A listed header with room is a free block, not base.
  lemma ListedBlock(blocks: map<nat, Block>, size: map<nat, nat>, ptr: map<nat, nat>, p: nat, prev: nat)
    requires Headers(blocks, size) && Disjoint(blocks) && Linked(Listed(blocks), ptr) && p in Listed(blocks) && size[p] > 0
    requires prev in Listed(blocks) && ptr[prev] == p
    ensures p in blocks && blocks[p].free && blocks[p].size == size[p] && p != BASE && prev != p && p !in Used(blocks)
  {
    assert Follows(Listed(blocks), prev, p);
  }

  lemma FoundFits(blocks: map<nat, Block>, chunks: seq<Chunk>, size: map<nat, nat>, ptr: map<nat, nat>, p: nat, n: nat)
    requires Valid(blocks, chunks, size, ptr) && p in Listed(blocks) && p in size && size[p] >= n > 0
    ensures Fits(blocks, n)
  {
    hide Disjoint, Partition, Joined, Linked;
    assert HoldsFree(blocks, p, n);
  }

  // What malloc has still to look at before it is back at f.
  ghost function Ahead(nodes: set<nat>, f: nat, p: nat): set<nat> {
    set c | c in nodes && c > p && (p <= f ==> c <= f)
  }

  lemma AheadShrinks(blocks: map<nat, Block>, chunks: seq<Chunk>, size: map<nat, nat>, ptr: map<nat, nat>, f: nat, p: nat)
    requires Valid(blocks, chunks, size, ptr) && f in Listed(blocks) && p in Listed(blocks) && p != f
    ensures p in ptr
    ensures p > f && ptr[p] > f ==> Ahead(Listed(blocks), f, ptr[p]) < Ahead(Listed(blocks), f, p)
    ensures p <= f ==> ptr[p] <= f && Ahead(Listed(blocks), f, ptr[p]) < Ahead(Listed(blocks), f, p)
  {
    hide Disjoint, Partition, Joined, Headers;
    var nodes := Listed(blocks);
    assert Follows(nodes, p, ptr[p]);
    NextIsListed(nodes, ptr, p);
    if p > f && ptr[p] > f {
      assert ptr[p] in Ahead(nodes, f, p) && ptr[p] !in Ahead(nodes, f, ptr[p]);
    }
    if p <= f {
      assert ptr[p] in Ahead(nodes, f, p) && ptr[p] !in Ahead(nodes, f, ptr[p]);
    }
  }

  const HEADER: nat := 16               // sizeof(Header)
  const INT_LIMIT: nat := 0x8000_0000
  const UINT_LIMIT: nat := 0x1_0000_0000

  // A number of bytes as the int that sbrk takes.
  function ToInt(x: nat): int {
    var y := x % UINT_LIMIT;
    if y < INT_LIMIT then y else y - UINT_LIMIT
  }

  // The argument of sbrk in morecore.
  function Argument(nu: nat): int { ToInt(nu * HEADER) }

  // The part of the heap below this unit.
  ghost function Cut(chunks: seq<Chunk>, limit: nat): (r: seq<Chunk>)
    ensures |r| == |chunks|
  {
    seq(|chunks|, i requires 0 <= i < |chunks| =>
      var c := chunks[i];
      Chunk(c.start, if c.start >= limit then 0 else if c.start + c.units > limit then limit - c.start else c.units))
  }

  // What the process has after sbrk(arg) succeeded with the break at start: it grows, or for
  // a negative argument shrinks. Below 0 the sum wraps round, and nothing happens.
  ghost function Sbrked(heap: seq<Chunk>, start: nat, arg: int): seq<Chunk> {
    if arg > 0 then heap + [Chunk(start, arg / HEADER)]
    else if arg == 0 || -arg > start * HEADER then heap
    else Cut(heap, start - (-arg) / HEADER)
  }

  // morecore gets what it asked for exactly below 2^31 bytes.
  lemma ArgumentIs(nu: nat)
    ensures Argument(nu) == nu * HEADER <==> nu * HEADER < INT_LIMIT
    ensures Argument(nu) < INT_LIMIT
  {
  }

  // Otherwise the last unit of the block it makes is not in the heap.
  lemma ShortOfLast(heap: seq<Chunk>, start: nat, nu: nat)
    requires Above(heap, start) && nu * HEADER >= INT_LIMIT
    ensures !InHeap(Sbrked(heap, start, Argument(nu)), start + nu - 1)
  {
    ArgumentIs(nu);
    var arg, u := Argument(nu), start + nu - 1;
    var r := Sbrked(heap, start, arg);
    assert arg / HEADER < nu;
    forall i | 0 <= i < |r|
      ensures !Inside(r[i].start, r[i].units, u)
    {
      assert i < |heap| ==> r[i].start + r[i].units <= start || r[i].units == 0;
    }
  }

  // After morecore the blocks are a partition of what the process has exactly if the request
  // was below 2^31 bytes.
  lemma PartitionIff(blocks: map<nat, Block>, chunks: seq<Chunk>, start: nat, nu: nat)
    requires Partition(blocks, chunks + [Chunk(start, nu)]) && Above(chunks, start) && nu > 0
    ensures var heap := Sbrked(chunks, start, Argument(nu));
            && (Partition(blocks, heap) <==> nu * HEADER < INT_LIMIT)
            && (heap == chunks + [Chunk(start, nu)] <==> nu * HEADER < INT_LIMIT)
  {
    hide Covered;
    ArgumentIs(nu);
    var claimed := chunks + [Chunk(start, nu)];
    if nu * HEADER >= INT_LIMIT {
      var u := start + nu - 1;
      assert claimed[|chunks|] == Chunk(start, nu) && Inside(start, nu, u);
      assert InHeap(claimed, u);
      ShortOfLast(chunks, start, nu);
    }
  }
}
