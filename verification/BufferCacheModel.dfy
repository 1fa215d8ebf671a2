// The buffer cache as a value: what bget, bread, brelse, bpin and bunpin do to
// the thirty buffers, read off in list order (most recently used first).

module BufferCacheModel {
  const NBUF := 30
  const ROOTDEV: nat := 1
  const BLOCK_WORDS := 256

  // One disk block: BSIZE = 1024 bytes, seen as 256 four-byte words.
  datatype Block = Block(words: seq<nat>)

  type Image = seq<Block>

  // The fields of one struct buf. dev 0 is the reset value of the static
  // array: such a buffer has never been given to anybody.
  datatype Entry = Entry(dev: nat, blockno: nat, refcnt: nat, valid: bool, data: Block)
  {
    predicate Unused() {
      dev == 0 && refcnt == 0 && !valid
    }

    predicate Caches(bn: nat) {
      dev == ROOTDEV && blockno == bn
    }
  }

  datatype Option<+T> = None | Some(value: T)

  ghost predicate WellFormed(cs: seq<Entry>) {
    && |cs| == NBUF
    && (forall i | 0 <= i < |cs| :: cs[i].dev == ROOTDEV || cs[i].Unused())
    && (forall i, j | 0 <= i < j < |cs| :: cs[i].dev == ROOTDEV && cs[j].dev == ROOTDEV ==> cs[i].blockno != cs[j].blockno)
  }

  // Where the forward scan of bget stops: index of the buffer that caches bn, or -1.
  ghost function IndexOf(cs: seq<Entry>, bn: nat): (r: int)
    ensures -1 <= r < |cs|
    ensures if r >= 0 then cs[r].Caches(bn) else forall i | 0 <= i < |cs| :: !cs[i].Caches(bn)
  {
    if i :| 0 <= i < |cs| && cs[i].Caches(bn) then i else -1
  }

  ghost predicate LastFree(cs: seq<Entry>, k: nat) {
    k < |cs| && cs[k].refcnt == 0 && forall i | k < i < |cs| :: cs[i].refcnt > 0
  }

  // Where the backward scan of bget stops: the least recently used buffer nobody
  // holds, or -1.
  ghost function Lru(cs: seq<Entry>): (r: int)
    ensures -1 <= r < |cs|
    ensures if r >= 0 then LastFree(cs, r) else Full(cs)
  {
    if !Full(cs) then
      LastFreeExists(cs);
      var k: nat :| LastFree(cs, k);
      k
    else -1
  }

  lemma {:induction false} LastFreeExists(cs: seq<Entry>)
    requires !Full(cs)
    ensures exists k: nat :: LastFree(cs, k)
  {
    var n := |cs| - 1;
    if cs[n].refcnt == 0 {
      assert LastFree(cs, n);
    } else {
      LastFreeExists(cs[..n]);
      var k: nat :| LastFree(cs[..n], k);
      assert LastFree(cs, k);
    }
  }

  // Every buffer is in use: the state in which a miss panics.
  ghost predicate Full(cs: seq<Entry>) {
    forall i | 0 <= i < |cs| :: cs[i].refcnt > 0
  }

  ghost function Refs(cs: seq<Entry>, bn: nat): nat {
    var i := IndexOf(cs, bn);
    if i < 0 then 0 else cs[i].refcnt
  }

  // What a reader of block bn sees: the cached copy if it is valid, the disk otherwise.
  ghost function View(cs: seq<Entry>, img: Image, bn: nat): Block
    requires bn < |img|
  {
    var i := IndexOf(cs, bn);
    if i >= 0 && cs[i].valid then cs[i].data else img[bn]
  }

  // bget: hit, recycle the LRU free buffer, or panic (None).
  ghost function Get(cs: seq<Entry>, bn: nat): Option<seq<Entry>> {
    var i := IndexOf(cs, bn);
    if i >= 0 then Some(cs[i := cs[i].(refcnt := cs[i].refcnt + 1)])
    else
      var v := Lru(cs);
      if v >= 0 then Some(cs[v := Entry(ROOTDEV, bn, 1, false, cs[v].data)])
      else None
  }

  // bread: bget, then a disk read if the buffer is not valid.
  ghost function Read(cs: seq<Entry>, img: Image, bn: nat): Option<seq<Entry>>
    requires bn < |img|
  {
    match Get(cs, bn)
    case None => None
    case Some(c) =>
      var i := IndexOf(c, bn);
      if i >= 0 && !c[i].valid then Some(c[i := c[i].(valid := true, data := img[bn])]) else Some(c)
  }

  // Where MoveToFront(s, i) takes its element j from, and where it puts element j.
  function MovedFrom(i: nat, j: nat): nat { if j == 0 then i else if j <= i then j - 1 else j }

  function MovedTo(i: nat, j: nat): nat { if j == i then 0 else if j < i then j + 1 else j }

  ghost function MoveToFront<T>(s: seq<T>, i: nat): (r: seq<T>)
    requires i < |s|
    ensures |r| == |s|
  {
    seq(|s|, j requires 0 <= j < |s| => s[MovedFrom(i, j)])
  }

  // Add d to the reference count of the buffer for bn.
  ghost function Adjust(cs: seq<Entry>, bn: nat, d: int): seq<Entry>
    requires Refs(cs, bn) + d >= 0
  {
    var i := IndexOf(cs, bn);
    if i < 0 then cs else cs[i := cs[i].(refcnt := cs[i].refcnt + d)]
  }

  // brelse: drop one reference; the last one out makes it most recently used.
  ghost function Release(cs: seq<Entry>, bn: nat): seq<Entry>
    requires Refs(cs, bn) > 0
  {
    var c := Adjust(cs, bn, -1);
    var i := IndexOf(cs, bn);
    if c[i].refcnt == 0 then MoveToFront(c, i) else c
  }

  // The holder of the buffer for bn stores data into it.
  ghost function Store(cs: seq<Entry>, bn: nat, data: Block): seq<Entry> {
    var i := IndexOf(cs, bn);
    if i < 0 then cs else cs[i := cs[i].(data := data)]
  }

  lemma IndexUnique(cs: seq<Entry>, bn: nat, i: nat)
    requires WellFormed(cs) && i < |cs| && cs[i].Caches(bn)
    ensures IndexOf(cs, bn) == i
  {
  }

  lemma GetWellFormed(cs: seq<Entry>, bn: nat)
    requires WellFormed(cs)
    ensures Get(cs, bn).None? <==> IndexOf(cs, bn) < 0 && Lru(cs) < 0
    ensures Get(cs, bn).Some? ==> WellFormed(Get(cs, bn).value)
    ensures Get(cs, bn).Some? ==> IndexOf(Get(cs, bn).value, bn) == if IndexOf(cs, bn) >= 0 then IndexOf(cs, bn) else Lru(cs)
  {
    if Get(cs, bn).Some? {
      IndexUnique(Get(cs, bn).value, bn, if IndexOf(cs, bn) >= 0 then IndexOf(cs, bn) else Lru(cs));
    }
  }

  // bget hands out one more reference to the block asked for and disturbs no
  // reference to any other block: a buffer somebody holds or has pinned is never
  // recycled. It fails exactly when the block is in no buffer and none is free.
  lemma GetKeepsReferences(cs: seq<Entry>, bn: nat)
    requires WellFormed(cs)
    ensures Get(cs, bn).None? <==> Full(cs) && IndexOf(cs, bn) < 0
    ensures var g := Get(cs, bn);
            g.Some? ==>
              && WellFormed(g.value)
              && IndexOf(g.value, bn) >= 0
              && (forall b: nat :: Refs(g.value, b) == Refs(cs, b) + (if b == bn then 1 else 0))
  {
    var g := Get(cs, bn);
    if g.Some? {
      var c := g.value;
      var k := if IndexOf(cs, bn) >= 0 then IndexOf(cs, bn) else Lru(cs);
      assert c[k].Caches(bn);
      forall b: nat
        ensures Refs(c, b) == Refs(cs, b) + (if b == bn then 1 else 0)
      {
        SameElsewhere(cs, c, k, b);
      }
    }
  }

  // Two caches that differ only at k agree on every block k does not cache in either.
  lemma SameElsewhere(cs: seq<Entry>, c: seq<Entry>, k: nat, b: nat)
    requires WellFormed(cs) && WellFormed(c) && k < NBUF
    requires forall i | 0 <= i < NBUF && i != k :: c[i] == cs[i]
    ensures c[k].Caches(b) ==> IndexOf(c, b) == k
    ensures cs[k].Caches(b) ==> IndexOf(cs, b) == k
    ensures !c[k].Caches(b) && !cs[k].Caches(b) ==> IndexOf(c, b) == IndexOf(cs, b)
    ensures !c[k].Caches(b) && cs[k].Caches(b) ==> IndexOf(c, b) == -1
    ensures c[k].Caches(b) && !cs[k].Caches(b) ==> IndexOf(cs, b) == -1
  {
    var i, j := IndexOf(cs, b), IndexOf(c, b);
    if i >= 0 && i != k { assert c[i].Caches(b); IndexUnique(c, b, i); }
    if j >= 0 && j != k { assert cs[j].Caches(b); IndexUnique(cs, b, j); }
    if c[k].Caches(b) { IndexUnique(c, b, k); }
    if cs[k].Caches(b) { IndexUnique(cs, b, k); }
  }

  // Buffers in use are valid; valid buffers nobody holds agree with the disk.
  ghost predicate Clean(cs: seq<Entry>, img: Image) {
    && (forall i | 0 <= i < |cs| && cs[i].valid && cs[i].refcnt == 0 ::
          cs[i].blockno < |img| && cs[i].data == img[cs[i].blockno])
    && (forall i | 0 <= i < |cs| && cs[i].refcnt > 0 :: cs[i].valid)
  }

  // A bread changes nothing a reader can see, and what it returns is what readers see.
  lemma ReadKeepsViews(cs: seq<Entry>, img: Image, bn: nat)
    requires WellFormed(cs) && Clean(cs, img) && bn < |img|
    ensures Read(cs, img, bn).None? <==> Full(cs) && IndexOf(cs, bn) < 0
    ensures var g := Read(cs, img, bn);
            g.Some? ==>
              && WellFormed(g.value) && Clean(g.value, img)
              && IndexOf(g.value, bn) >= 0
              && g.value[IndexOf(g.value, bn)].valid
              && g.value[IndexOf(g.value, bn)].data == View(cs, img, bn)
              && (forall b: nat :: Refs(g.value, b) == Refs(cs, b) + (if b == bn then 1 else 0))
              && (forall b: nat | b < |img| :: View(g.value, img, b) == View(cs, img, b))
  {
    GetKeepsReferences(cs, bn);
    var g := Read(cs, img, bn);
    if g.Some? {
      var c, d := Get(cs, bn).value, g.value;
      var k := if IndexOf(cs, bn) >= 0 then IndexOf(cs, bn) else Lru(cs);
      assert c[k].Caches(bn);
      IndexUnique(c, bn, k);
      IndexUnique(d, bn, k);
      forall b: nat
        ensures Refs(d, b) == Refs(cs, b) + (if b == bn then 1 else 0)
        ensures b < |img| ==> View(d, img, b) == View(cs, img, b)
      {
        SameElsewhere(cs, d, k, b);
      }
    }
  }

  lemma MoveToFrontAt<T>(cs: seq<T>, i: nat, j: nat)
    requires i < |cs| && j < |cs|
    ensures MovedFrom(i, j) < |cs| && MovedTo(i, j) < |cs| && |MoveToFront(cs, i)| == |cs|
    ensures MoveToFront(cs, i)[j] == cs[MovedFrom(i, j)]
    ensures MoveToFront(cs, i)[MovedTo(i, j)] == cs[j]
  {
  }

  lemma MoveToFrontWellFormed(cs: seq<Entry>, i: nat)
    requires WellFormed(cs) && i < |cs|
    ensures WellFormed(MoveToFront(cs, i))
  {
    var m := MoveToFront(cs, i);
    forall j | 0 <= j < |m|
      ensures m[j] == cs[MovedFrom(i, j)]
    {
      MoveToFrontAt(cs, i, j);
    }
  }

  lemma MoveToFrontIndex(cs: seq<Entry>, i: nat, b: nat)
    requires WellFormed(cs) && i < |cs|
    ensures IndexOf(cs, b) < 0 <==> IndexOf(MoveToFront(cs, i), b) < 0
    ensures IndexOf(cs, b) >= 0 ==> MoveToFront(cs, i)[IndexOf(MoveToFront(cs, i), b)] == cs[IndexOf(cs, b)]
  {
    MoveToFrontWellFormed(cs, i);
    var m := MoveToFront(cs, i);
    var j, k := IndexOf(m, b), IndexOf(cs, b);
    if j >= 0 { MoveToFrontAt(cs, i, j); }
    if k >= 0 {
      MoveToFrontAt(cs, i, k);
      IndexUnique(m, b, MovedTo(i, k));
    }
  }

  // Moving a buffer to the front changes nothing a client sees.
  lemma MoveKeepsViews(c: seq<Entry>, img: Image, k: nat)
    requires WellFormed(c) && Clean(c, img) && k < |c|
    ensures var m := MoveToFront(c, k);
            && WellFormed(m) && Clean(m, img) && m[0] == c[k]
            && (forall b: nat :: IndexOf(m, b) >= 0 <==> IndexOf(c, b) >= 0)
            && (forall b: nat :: Refs(m, b) == Refs(c, b))
            && (forall b: nat | b < |img| :: View(m, img, b) == View(c, img, b))
  {
    hide WellFormed, MoveToFront, IndexOf, MovedFrom, MovedTo;
    var m := MoveToFront(c, k);
    MoveToFrontWellFormed(c, k);
    MoveToFrontAt(c, k, 0);
    forall b: nat
      ensures IndexOf(m, b) >= 0 <==> IndexOf(c, b) >= 0
      ensures Refs(m, b) == Refs(c, b)
      ensures b < |img| ==> View(m, img, b) == View(c, img, b)
    {
      MoveToFrontIndex(c, k, b);
    }
    forall i | 0 <= i < |m|
      ensures MovedFrom(k, i) < |c| && m[i] == c[MovedFrom(k, i)]
    {
      MoveToFrontAt(c, k, i);
    }
    assert MovedFrom(k, 0) == k by { FrontIsFrom(k); }
  }

  lemma FrontIsFrom(k: nat)
    ensures MovedFrom(k, 0) == k
  {
  }

  // brelse gives back exactly one reference and leaves every view alone, provided
  // that a buffer given back for the last time agrees with the disk.
  lemma ReleaseKeepsViews(cs: seq<Entry>, img: Image, bn: nat)
    requires WellFormed(cs) && Clean(cs, img) && Refs(cs, bn) > 0
    requires Refs(cs, bn) == 1 ==> bn < |img| && View(cs, img, bn) == img[bn]
    ensures var c := Release(cs, bn);
            && WellFormed(c) && Clean(c, img)
            && (Refs(cs, bn) == 1 ==> !Full(c))
            && (forall b: nat :: IndexOf(c, b) >= 0 <==> IndexOf(cs, b) >= 0)
            && (forall b: nat :: Refs(c, b) == Refs(cs, b) - (if b == bn then 1 else 0))
            && (forall b: nat | b < |img| :: View(c, img, b) == View(cs, img, b))
  {
    hide WellFormed, Clean, View, MoveToFront;
    var c := Adjust(cs, bn, -1);
    var k := IndexOf(cs, bn);
    AdjustKeepsViews(cs, img, bn, -1);
    forall b: nat
      ensures IndexOf(c, b) >= 0 <==> IndexOf(cs, b) >= 0
    {
      SameElsewhere(cs, c, k, b);
    }
    SameElsewhere(cs, c, k, bn);
    MoveKeepsViews(c, img, k);
  }

  // bpin and bunpin: only the one count moves.
  lemma AdjustKeepsViews(cs: seq<Entry>, img: Image, bn: nat, d: int)
    requires WellFormed(cs) && Clean(cs, img) && Refs(cs, bn) > 0 && Refs(cs, bn) + d >= 0
    requires Refs(cs, bn) + d == 0 ==> bn < |img| && View(cs, img, bn) == img[bn]
    ensures var c := Adjust(cs, bn, d);
            && WellFormed(c) && Clean(c, img)
            && (forall b: nat :: Refs(c, b) == Refs(cs, b) + (if b == bn then d else 0))
            && (forall b: nat | b < |img| :: View(c, img, b) == View(cs, img, b))
  {
    var c := Adjust(cs, bn, d);
    var k := IndexOf(cs, bn);
    forall b: nat
      ensures Refs(c, b) == Refs(cs, b) + (if b == bn then d else 0)
      ensures b < |img| ==> View(c, img, b) == View(cs, img, b)
    {
      SameElsewhere(cs, c, k, b);
    }
  }

  // Storing into a buffer one holds changes the view of that block only.
  lemma StoreChangesOneView(cs: seq<Entry>, img: Image, bn: nat, data: Block)
    requires WellFormed(cs) && Clean(cs, img) && Refs(cs, bn) > 0
    ensures var c := Store(cs, bn, data);
            && WellFormed(c) && Clean(c, img)
            && (forall b: nat :: Refs(c, b) == Refs(cs, b))
            && (forall b: nat | b < |img| :: View(c, img, b) == if b == bn then data else View(cs, img, b))
  {
    var c := Store(cs, bn, data);
    var k := IndexOf(cs, bn);
    forall b: nat
      ensures Refs(c, b) == Refs(cs, b)
      ensures b < |img| ==> View(c, img, b) == if b == bn then data else View(cs, img, b)
    {
      SameElsewhere(cs, c, k, b);
    }
  }

  // Writing a held block to the disk changes no other view and dirties no free buffer.
  lemma WriteKeepsClean(cs: seq<Entry>, img: Image, bn: nat, data: Block)
    requires WellFormed(cs) && Clean(cs, img) && Refs(cs, bn) > 0 && bn < |img|
    ensures Clean(cs, img[bn := data])
    ensures forall b: nat | b < |img| && b != bn :: View(cs, img[bn := data], b) == View(cs, img, b)
  {
    forall i | 0 <= i < |cs| && cs[i].valid && cs[i].refcnt == 0
      ensures cs[i].blockno != bn
    {
    }
  }

  // The cache states a pass of one of the log's loops goes through.
  datatype Pass = Pass(s0: seq<Entry>, s1: seq<Entry>, s2: seq<Entry>, s3: seq<Entry>, s4: seq<Entry>, s5: seq<Entry>)

  // The cache states of one pass of write_log's loop: read dst, read src, store
  // src's data in dst's buffer, give back src, give back dst.
  ghost predicate CopyStates(cs: seq<Entry>, img: Image, dst: nat, src: nat, data: Block, c: Pass)
    requires dst < |img| && src < |img|
  {
    Read(cs, img, dst) == Some(c.s0) && CopyRest(img, dst, src, data, c)
  }

  // After the first bread.
  ghost predicate CopyRest(img: Image, dst: nat, src: nat, data: Block, c: Pass)
    requires src < |img|
  {
    && Read(c.s0, img, src) == Some(c.s1)
    && IndexOf(c.s1, src) >= 0 && c.s1[IndexOf(c.s1, src)].data == data
    && c.s2 == Store(c.s1, dst, data)
    && Refs(c.s2, src) > 0 && c.s3 == Release(c.s2, src)
    && Refs(c.s3, dst) > 0 && c.s4 == Release(c.s3, dst)
  }

  // Such a pass is possible whenever src is pinned and some buffer is free.
  lemma CopySteps(cs: seq<Entry>, img: Image, dst: nat, src: nat) returns (c: Pass)
    requires WellFormed(cs) && Clean(cs, img) && dst < |img| && src < |img| && dst != src
    requires Refs(cs, src) > 0 && !Full(cs)
    requires Refs(cs, dst) == 0
    ensures CopyStates(cs, img, dst, src, View(cs, img, src), c)
  {
    var data := View(cs, img, src);
    var c1, c2 := TwoReads(cs, img, dst, src);
    StoreChangesOneView(c2, img, dst, data);
    var c3 := Store(c2, dst, data);
    WriteKeepsClean(c3, img, dst, data);
    var c4, c5 := TwoReleases(c3, img[dst := data], src, dst);
    c := Pass(c1, c2, c3, c4, c5, c5);
  }

  // It changes the disk and what readers see of dst only, and gives back every reference.
  lemma CopyResult(cs: seq<Entry>, img: Image, dst: nat, src: nat, c: Pass)
    requires WellFormed(cs) && Clean(cs, img) && dst < |img| && src < |img| && dst != src
    requires Refs(cs, src) > 0 && !Full(cs)
    requires Refs(cs, dst) == 0
    requires CopyStates(cs, img, dst, src, View(cs, img, src), c)
    ensures var img' := img[dst := View(cs, img, src)];
            && WellFormed(c.s4) && Clean(c.s4, img') && !Full(c.s4)
            && (forall b: nat :: Refs(c.s4, b) == Refs(cs, b))
            && (forall b: nat | b < |img| :: View(c.s4, img', b) == if b == dst then View(cs, img, src) else View(cs, img, b))
  {
    var data := View(cs, img, src);
    var c1, c2 := TwoReads(cs, img, dst, src);
    StoreChangesOneView(c2, img, dst, data);
    WriteKeepsClean(c.s2, img, dst, data);
    var c4, c5 := TwoReleases(c.s2, img[dst := data], src, dst);
  }

  // Two breads of different blocks: both end up held, valid and as readers see them.
  lemma TwoReads(cs: seq<Entry>, img: Image, first: nat, second: nat) returns (c1: seq<Entry>, c2: seq<Entry>)
    requires WellFormed(cs) && Clean(cs, img) && first < |img| && second < |img| && first != second
    requires !Full(cs)
    requires Refs(cs, second) > 0 || forall b: nat :: Refs(cs, b) == 0
    ensures Read(cs, img, first) == Some(c1) && Read(c1, img, second) == Some(c2)
    ensures IndexOf(c1, first) >= 0 && c1[IndexOf(c1, first)].data == View(cs, img, first)
    ensures IndexOf(c2, second) >= 0 && c2[IndexOf(c2, second)].data == View(cs, img, second)
    ensures c2[IndexOf(c2, second)].valid && IndexOf(c2, first) >= 0 && c2[IndexOf(c2, first)].valid
    ensures WellFormed(c2) && Clean(c2, img)
    ensures forall b: nat :: Refs(c2, b) == Refs(cs, b) + (if b == first || b == second then 1 else 0)
    ensures forall b: nat | b < |img| :: View(c2, img, b) == View(cs, img, b)
  {
    ReadKeepsViews(cs, img, first);
    c1 := Read(cs, img, first).value;
    if Refs(cs, second) == 0 { AtMostOneHeld(c1, first); }
    ReadKeepsViews(c1, img, second);
    c2 := Read(c1, img, second).value;
    ReadIsValid(c1, img, second, first);
  }

  // Two brelses of different blocks that agree with the disk.
  lemma TwoReleases(cs: seq<Entry>, img: Image, first: nat, second: nat) returns (c1: seq<Entry>, c2: seq<Entry>)
    requires WellFormed(cs) && Clean(cs, img) && first < |img| && second < |img| && first != second
    requires Refs(cs, first) > 0 && Refs(cs, second) > 0
    requires Refs(cs, first) == 1 ==> View(cs, img, first) == img[first]
    requires Refs(cs, second) == 1 ==> View(cs, img, second) == img[second]
    ensures c1 == Release(cs, first) && Refs(c1, second) > 0 && c2 == Release(c1, second)
    ensures WellFormed(c2) && Clean(c2, img)
    ensures Refs(cs, first) == 1 || Refs(cs, second) == 1 ==> !Full(c2)
    ensures forall b: nat :: Refs(c2, b) == Refs(cs, b) - (if b == first || b == second then 1 else 0)
    ensures forall b: nat | b < |img| :: View(c2, img, b) == View(cs, img, b)
  {
    ReleaseKeepsViews(cs, img, first);
    c1 := Release(cs, first);
    ReleaseKeepsViews(c1, img, second);
    c2 := Release(c1, second);
    if Refs(c2, first) == 0 { assert c2[IndexOf(c2, first)].refcnt == 0; }
  }

  // A buffer that is valid and held stays so through a bread of any block.
  lemma ReadIsValid(cs: seq<Entry>, img: Image, bn: nat, b: nat)
    requires WellFormed(cs) && bn < |img| && Read(cs, img, bn).Some?
    requires Refs(cs, b) > 0 && cs[IndexOf(cs, b)].valid
    ensures var c := Read(cs, img, bn).value;
            IndexOf(c, b) >= 0 && c[IndexOf(c, b)].valid && c[IndexOf(c, b)].data == cs[IndexOf(cs, b)].data
  {
    GetWellFormed(cs, bn);
    var c := Get(cs, bn).value;
    var d := Read(cs, img, bn).value;
    var k := IndexOf(c, bn);
    IndexUnique(d, bn, k);
    IndexUnique(d, b, IndexOf(cs, b));
  }

  // The cache states of one pass of install_trans: read the log slot, read the home
  // block, store the slot's data in it, drop the pin if there is one, give back both.
  ghost predicate InstallStates(cs: seq<Entry>, img: Image, slot: nat, home: nat, data: Block, unpin: bool, c: Pass)
    requires slot < |img| && home < |img|
  {
    && Read(cs, img, slot) == Some(c.s0)
    && IndexOf(c.s0, slot) >= 0 && c.s0[IndexOf(c.s0, slot)].data == data
    && Read(c.s0, img, home) == Some(c.s1)
    && c.s2 == Store(c.s1, home, data)
    && FinishStates(slot, home, unpin, c)
  }

  ghost predicate FinishStates(slot: nat, home: nat, unpin: bool, c: Pass) {
    && Refs(c.s2, home) > 0 && c.s3 == (if unpin then Adjust(c.s2, home, -1) else c.s2)
    && Refs(c.s3, slot) > 0 && c.s4 == Release(c.s3, slot)
    && Refs(c.s4, home) > 0 && c.s5 == Release(c.s4, home)
  }

  // It is possible when home is pinned and some buffer is free, or when, at boot,
  // every buffer is free.
  lemma InstallSteps(cs: seq<Entry>, img: Image, slot: nat, home: nat, unpin: bool) returns (c: Pass)
    requires WellFormed(cs) && Clean(cs, img) && slot < |img| && home < |img| && slot != home
    requires Refs(cs, slot) == 0 && View(cs, img, slot) == img[slot]
    requires if unpin then !Full(cs) && Refs(cs, home) > 0 else forall b: nat :: Refs(cs, b) == 0
    ensures InstallStates(cs, img, slot, home, img[slot], unpin, c)
  {
    var data := img[slot];
    if !unpin { AtMostOneHeld(cs, slot); }
    var c1, c2 := TwoReads(cs, img, slot, home);
    StoreChangesOneView(c2, img, home, data);
    var c3 := Store(c2, home, data);
    WriteKeepsClean(c3, img, home, data);
    var img' := img[home := data];
    var c4 := if unpin then Adjust(c3, home, -1) else c3;
    if unpin { AdjustKeepsViews(c3, img', home, -1); }
    var c5, c6 := TwoReleases(c4, img', slot, home);
    c := Pass(c1, c2, c3, c4, c5, c6);
  }

  lemma InstallResult(cs: seq<Entry>, img: Image, slot: nat, home: nat, unpin: bool, c: Pass)
    requires WellFormed(cs) && Clean(cs, img) && slot < |img| && home < |img| && slot != home
    requires Refs(cs, slot) == 0 && View(cs, img, slot) == img[slot]
    requires if unpin then !Full(cs) && Refs(cs, home) > 0 else forall b: nat :: Refs(cs, b) == 0
    requires InstallStates(cs, img, slot, home, img[slot], unpin, c)
    ensures var img' := img[home := img[slot]];
            && WellFormed(c.s5) && Clean(c.s5, img') && !Full(c.s5)
            && (forall b: nat :: Refs(c.s5, b) == Refs(cs, b) + (if b == home then if unpin then -1 else 0 else 0))
            && (forall b: nat | b < |img| :: View(c.s5, img', b) == if b == home then img[slot] else View(cs, img, b))
  {
    var data := img[slot];
    if !unpin { AtMostOneHeld(cs, slot); }
    var c1, c2 := TwoReads(cs, img, slot, home);
    StoreChangesOneView(c2, img, home, data);
    WriteKeepsClean(c.s2, img, home, data);
    var img' := img[home := data];
    if unpin { AdjustKeepsViews(c.s2, img', home, -1); }
    var c5, c6 := TwoReleases(c.s3, img', slot, home);
  }

  // While only one block is held there is a free buffer.
  lemma AtMostOneHeld(cs: seq<Entry>, bn: nat)
    requires WellFormed(cs) && forall b: nat | b != bn :: Refs(cs, b) == 0
    ensures !Full(cs)
  {
    forall i | 0 <= i < |cs| && cs[i].refcnt > 0
      ensures cs[i].dev == ROOTDEV && cs[i].blockno == bn
    {
      IndexUnique(cs, cs[i].blockno, i);
      assert Refs(cs, cs[i].blockno) > 0;
    }
    assert cs[0].refcnt == 0 || cs[1].refcnt == 0;
  }

  // The cache states of write_head: read the header block, store, give it back.
  ghost predicate RewriteStates(cs: seq<Entry>, img: Image, bn: nat, data: Block, c: Pass)
    requires bn < |img|
  {
    && Read(cs, img, bn) == Some(c.s0)
    && IndexOf(c.s0, bn) >= 0 && c.s0[IndexOf(c.s0, bn)].data == View(cs, img, bn)
    && c.s1 == Store(c.s0, bn, data)
    && Refs(c.s1, bn) > 0 && c.s2 == Release(c.s1, bn)
  }

  lemma RewriteSteps(cs: seq<Entry>, img: Image, bn: nat, data: Block) returns (c: Pass)
    requires WellFormed(cs) && Clean(cs, img) && bn < |img| && !Full(cs) && Refs(cs, bn) == 0
    ensures RewriteStates(cs, img, bn, data, c)
    ensures var img' := img[bn := data];
            && WellFormed(c.s2) && Clean(c.s2, img') && !Full(c.s2)
            && (forall b: nat :: Refs(c.s2, b) == Refs(cs, b))
            && (forall b: nat | b < |img| :: View(c.s2, img', b) == if b == bn then data else View(cs, img, b))
  {
    ReadKeepsViews(cs, img, bn);
    var c1 := Read(cs, img, bn).value;
    StoreChangesOneView(c1, img, bn, data);
    var c2 := Store(c1, bn, data);
    WriteKeepsClean(c2, img, bn, data);
    ReleaseKeepsViews(c2, img[bn := data], bn);
    c := Pass(c1, c2, Release(c2, bn), c2, c2, c2);
  }

  // All reference counts, and all that readers see, as one value each.
  ghost function RefMap(cs: seq<Entry>): imap<nat, nat> {
    imap b: nat :: Refs(cs, b)
  }

  ghost function Views(cs: seq<Entry>, img: Image): (v: Image)
    ensures |v| == |img|
    ensures forall b: nat | b < |img| :: v[b] == View(cs, img, b)
  {
    ViewsExists(cs, img);
    var v: Image :| |v| == |img| && forall b: nat | b < |img| :: v[b] == View(cs, img, b);
    v
  }

  lemma ViewsExists(cs: seq<Entry>, img: Image)
    ensures exists v: Image :: |v| == |img| && forall b: nat | b < |img| :: v[b] == View(cs, img, b)
  {
    var v := seq(|img|, b requires 0 <= b < |img| => View(cs, img, b));
    assert |v| == |img|;
  }

  ghost predicate Sound(cs: seq<Entry>, img: Image) {
    WellFormed(cs) && Clean(cs, img)
  }

  // A pass of write_log in one line each for disk, readers and references.
  lemma CopyPass(cs: seq<Entry>, img: Image, dst: nat, src: nat) returns (c: Pass)
    requires Sound(cs, img) && !Full(cs) && dst < |img| && src < |img| && dst != src
    requires RefMap(cs)[src] > 0 && RefMap(cs)[dst] == 0
    ensures var data := Views(cs, img)[src];
            && CopyStates(cs, img, dst, src, data, c)
            && Sound(c.s4, img[dst := data]) && !Full(c.s4)
            && Views(c.s4, img[dst := data]) == Views(cs, img)[dst := data]
            && RefMap(c.s4) == RefMap(cs)
  {
    c := CopySteps(cs, img, dst, src);
    CopyResult(cs, img, dst, src, c);
    ViewsUpdate(cs, img, c.s4, img[dst := View(cs, img, src)], dst, View(cs, img, src));
  }

  // With every buffer in use the pass stops at the first bread, for nobody holds dst.
  lemma CopyPassIfFree(cs: seq<Entry>, img: Image, dst: nat, src: nat) returns (c: Pass)
    requires Sound(cs, img) && dst < |img| && src < |img| && dst != src
    requires RefMap(cs)[src] > 0 && RefMap(cs)[dst] == 0
    ensures Full(cs) <==> Read(cs, img, dst).None?
    ensures !Full(cs) ==>
              var data := Views(cs, img)[src];
              && CopyStates(cs, img, dst, src, data, c)
              && Sound(c.s4, img[dst := data]) && !Full(c.s4)
              && Views(c.s4, img[dst := data]) == Views(cs, img)[dst := data]
              && RefMap(c.s4) == RefMap(cs)
  {
    ReadKeepsViews(cs, img, dst);
    if Full(cs) {
      c := Pass(cs, cs, cs, cs, cs, cs);
      assert Refs(cs, dst) == RefMap(cs)[dst];
      assert IndexOf(cs, dst) < 0;
    } else {
      c := CopyPass(cs, img, dst, src);
    }
  }

  lemma InstallPass(cs: seq<Entry>, img: Image, slot: nat, home: nat, unpin: bool) returns (c: Pass)
    requires Sound(cs, img) && slot < |img| && home < |img| && slot != home
    requires RefMap(cs)[slot] == 0 && Views(cs, img)[slot] == img[slot]
    requires if unpin then !Full(cs) && RefMap(cs)[home] > 0 else forall b: nat :: RefMap(cs)[b] == 0
    ensures InstallStates(cs, img, slot, home, img[slot], unpin, c)
    ensures Sound(c.s5, img[home := img[slot]]) && !Full(c.s5)
    ensures Views(c.s5, img[home := img[slot]]) == Views(cs, img)[home := img[slot]]
    ensures RefMap(c.s5) == RefMap(cs)[home := RefMap(cs)[home] + (if unpin then -1 else 0)]
  {
    assert !unpin ==> forall b: nat :: Refs(cs, b) == RefMap(cs)[b];
    c := InstallSteps(cs, img, slot, home, unpin);
    InstallResult(cs, img, slot, home, unpin, c);
    RefMapAdjust(cs, c.s5, home, if unpin then -1 else 0);
    ViewsUpdate(cs, img, c.s5, img[home := img[slot]], home, img[slot]);
  }

  lemma ViewsUpdate(cs: seq<Entry>, img: Image, c: seq<Entry>, img': Image, bn: nat, data: Block)
    requires bn < |img| == |img'|
    requires forall b: nat | b < |img| :: View(c, img', b) == if b == bn then data else View(cs, img, b)
    ensures Views(c, img') == Views(cs, img)[bn := data]
  {
  }

  lemma RefMapAdjust(cs: seq<Entry>, c: seq<Entry>, bn: nat, d: int)
    requires Refs(cs, bn) + d >= 0
    requires forall b: nat :: Refs(c, b) == Refs(cs, b) + (if b == bn then d else 0)
    ensures RefMap(c) == RefMap(cs)[bn := RefMap(cs)[bn] + d]
  {
  }

  lemma RewritePass(cs: seq<Entry>, img: Image, bn: nat, data: Block) returns (c: Pass)
    requires Sound(cs, img) && !Full(cs) && bn < |img| && RefMap(cs)[bn] == 0
    ensures RewriteStates(cs, img, bn, data, c)
    ensures Sound(c.s2, img[bn := data]) && !Full(c.s2)
    ensures Views(c.s2, img[bn := data]) == Views(cs, img)[bn := data]
    ensures RefMap(c.s2) == RefMap(cs)
  {
    c := RewriteSteps(cs, img, bn, data);
  }

  // Blocks that somebody references.
  ghost function InUse(cs: seq<Entry>): set<nat> {
    set i | 0 <= i < |cs| && cs[i].dev == ROOTDEV && cs[i].refcnt > 0 :: cs[i].blockno
  }

  lemma InUseLast(cs: seq<Entry>)
    requires cs != []
    requires forall i, j | 0 <= i < j < |cs| :: cs[i].dev == ROOTDEV && cs[j].dev == ROOTDEV ==> cs[i].blockno != cs[j].blockno
    requires forall i | 0 <= i < |cs| && cs[i].dev != ROOTDEV :: cs[i].refcnt == 0
    ensures var e, p := cs[|cs| - 1], cs[..|cs| - 1];
            InUse(cs) == (if e.refcnt > 0 then InUse(p) + {e.blockno} else InUse(p)) && (e.refcnt > 0 ==> e.blockno !in InUse(p))
  {
  }

  lemma {:induction false} InUseSize(cs: seq<Entry>)
    requires forall i, j | 0 <= i < j < |cs| :: cs[i].dev == ROOTDEV && cs[j].dev == ROOTDEV ==> cs[i].blockno != cs[j].blockno
    requires forall i | 0 <= i < |cs| && cs[i].dev != ROOTDEV :: cs[i].refcnt == 0
    ensures |InUse(cs)| <= |cs|
    ensures |InUse(cs)| == |cs| <==> Full(cs)
  {
    if cs != [] {
      var n := |cs| - 1;
      var p := cs[..n];
      InUseSize(p);
      assert Full(cs) <==> Full(p) && cs[n].refcnt > 0;
      InUseLast(cs);
    }
  }

  // The cache is full exactly when thirty different blocks are referenced.
  lemma FullIffThirtyBlocks(cs: seq<Entry>, used: set<nat>)
    requires WellFormed(cs)
    requires forall b: nat :: b in used <==> Refs(cs, b) > 0
    ensures |used| <= NBUF
    ensures Full(cs) <==> |used| == NBUF
  {
    InUseSize(cs);
    forall b: nat
      ensures b in InUse(cs) <==> b in used
    {
      if b in InUse(cs) {
        var i :| 0 <= i < |cs| && cs[i].dev == ROOTDEV && cs[i].refcnt > 0 && cs[i].blockno == b;
        IndexUnique(cs, b, i);
      }
    }
    assert InUse(cs) == used;
  }
}
