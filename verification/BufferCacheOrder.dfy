// Which buffer bget recycles: the one released longest ago, over every history of the cache.

module BufferCacheOrder {
  import opened BufferCacheModel

  // The calls that change who holds which block. install_trans unpins only blocks it has read,
  // so bunpin never takes the last reference.
  datatype Op = Bread(bn: nat) | Brelse(bn: nat) | Bpin(bn: nat) | Bunpin(bn: nat)

  // References to a block, counted from the calls alone.
  function Balance(ops: seq<Op>, bn: nat): int {
    if ops == [] then 0
    else
      var op := ops[|ops| - 1];
      Balance(ops[..|ops| - 1], bn) + (if op.bn != bn then 0 else if op.Bread? || op.Bpin? then 1 else -1)
  }

  // When its last reference was given back to brelse: the number of calls before, or -1.
  function Freed(ops: seq<Op>, bn: nat): (t: int)
    ensures -1 <= t < |ops|
  {
    if ops == [] then -1
    else if ops[|ops| - 1] == Brelse(bn) && Balance(ops, bn) == 0 then |ops| - 1
    else Freed(ops[..|ops| - 1], bn)
  }

  ghost predicate Allowed(cs: seq<Entry>, op: Op) {
    match op
    case Bread(bn) => Get(cs, bn).Some?
    case Brelse(bn) => Refs(cs, bn) > 0
    case Bpin(bn) => Refs(cs, bn) > 0
    case Bunpin(bn) => Refs(cs, bn) > 1
  }

  ghost function Step(cs: seq<Entry>, op: Op): seq<Entry>
    requires Allowed(cs, op)
  {
    match op
    case Bread(bn) => Get(cs, bn).value
    case Brelse(bn) => Release(cs, bn)
    case Bpin(bn) => Adjust(cs, bn, 1)
    case Bunpin(bn) => Adjust(cs, bn, -1)
  }

  ghost predicate Follows(cs: seq<Entry>, op: Op, c: seq<Entry>) { Allowed(cs, op) && c == Step(cs, op) }

  function Last(ops: seq<Op>): Op
    requires ops != []
  {
    ops[|ops| - 1]
  }

  // The history ops of a cache that was cs0 leads to cs.
  ghost predicate History(cs0: seq<Entry>, ops: seq<Op>, cs: seq<Entry>) {
    if ops == [] then cs == cs0
    else exists c :: History(cs0, ops[..|ops| - 1], c) && Follows(c, Last(ops), cs)
  }

  // Of two buffers that nobody holds the one nearer the head was released later; buffers never
  // used come last.
  ghost predicate Before(cs: seq<Entry>, ops: seq<Op>, i: nat, j: nat)
    requires i < |cs| && j < |cs|
  {
    cs[i].refcnt == 0 && cs[j].refcnt == 0 && cs[j].dev == ROOTDEV ==>
      cs[i].dev == ROOTDEV && Freed(ops, cs[i].blockno) > Freed(ops, cs[j].blockno)
  }

  ghost predicate Ordered(cs: seq<Entry>, ops: seq<Op>) {
    && WellFormed(cs)
    && (forall b: nat :: Refs(cs, b) == Balance(ops, b))
    && (forall i, j | 0 <= i < j < |cs| :: Before(cs, ops, i, j))
  }

  lemma FrontOf(ops: seq<Op>, op: Op)
    ensures (ops + [op])[..|ops + [op]| - 1] == ops
    ensures forall b: nat :: Balance(ops + [op], b) == Balance(ops, b) + (if op.bn != b then 0 else if op.Bread? || op.Bpin? then 1 else -1)
    ensures forall b: nat :: Freed(ops + [op], b) == if op == Brelse(b) && Balance(ops + [op], b) == 0 then |ops| else Freed(ops, b)
  {
    assert (ops + [op])[..|ops + [op]| - 1] == ops;
  }

  // A buffer taken, or with one reference more or less but not its last: nothing moves.
  lemma HeldKeepsOrder(cs: seq<Entry>, c: seq<Entry>, ops: seq<Op>, op: Op, k: nat)
    requires Ordered(cs, ops) && WellFormed(c) && k < |cs| == |c| && c[k].refcnt > 0
    requires forall i | 0 <= i < |cs| && i != k :: c[i] == cs[i]
    requires forall b: nat :: Refs(c, b) == Balance(ops + [op], b)
    requires op.Brelse? ==> Balance(ops + [op], op.bn) != 0
    ensures Ordered(c, ops + [op])
  {
    hide WellFormed, Refs, Balance, Freed;
    FrontOf(ops, op);
    forall i, j | 0 <= i < j < |c|
      ensures Before(c, ops + [op], i, j)
    {
      assert Before(cs, ops, i, j);
    }
  }

  lemma AdjustCounts(cs: seq<Entry>, bn: nat, d: int)
    requires WellFormed(cs) && Refs(cs, bn) > 0 && Refs(cs, bn) + d >= 0
    ensures var c, k := Adjust(cs, bn, d), IndexOf(cs, bn);
            && 0 <= k < |cs| == |c| && c[k] == cs[k].(refcnt := cs[k].refcnt + d) && cs[k].Caches(bn) && cs[k].refcnt == Refs(cs, bn)
            && WellFormed(c) && (forall i | 0 <= i < |cs| && i != k :: c[i] == cs[i])
            && (forall b: nat :: Refs(c, b) == Refs(cs, b) + if b == bn then d else 0)
  {
    var c, k := Adjust(cs, bn, d), IndexOf(cs, bn);
    forall b: nat
      ensures Refs(c, b) == Refs(cs, b) + if b == bn then d else 0
    {
      SameElsewhere(cs, c, k, b);
    }
  }

  lemma BreadKeepsOrder(cs: seq<Entry>, ops: seq<Op>, bn: nat)
    requires Ordered(cs, ops) && Get(cs, bn).Some?
    ensures Ordered(Get(cs, bn).value, ops + [Bread(bn)])
  {
    hide WellFormed, Balance, Freed, Ordered;
    OrderedIs(cs, ops);
    GetKeepsReferences(cs, bn);
    FrontOf(ops, Bread(bn));
    HeldKeepsOrder(cs, Get(cs, bn).value, ops, Bread(bn), if IndexOf(cs, bn) >= 0 then IndexOf(cs, bn) else Lru(cs));
  }

  lemma OrderedIs(cs: seq<Entry>, ops: seq<Op>)
    requires Ordered(cs, ops)
    ensures WellFormed(cs) && forall b: nat :: Refs(cs, b) == Balance(ops, b)
  {
  }

  lemma ChangeKeepsOrder(cs: seq<Entry>, ops: seq<Op>, op: Op)
    requires Ordered(cs, ops) && !op.Bread? && Allowed(cs, op) && (op.Brelse? ==> Refs(cs, op.bn) > 1)
    ensures Ordered(Step(cs, op), ops + [op])
  {
    hide WellFormed, Balance, Freed, Ordered, MoveToFront, Refs, Adjust;
    OrderedIs(cs, ops);
    FrontOf(ops, op);
    var d := if op.Bpin? then 1 else -1;
    AdjustCounts(cs, op.bn, d);
    HeldKeepsOrder(cs, Adjust(cs, op.bn, d), ops, op, IndexOf(cs, op.bn));
  }

  // The last reference: the buffer goes to the head, as the latest.
  lemma LastKeepsOrder(cs: seq<Entry>, ops: seq<Op>, bn: nat)
    requires Ordered(cs, ops) && Refs(cs, bn) == 1
    ensures Ordered(Release(cs, bn), ops + [Brelse(bn)])
  {
    hide Balance, Freed, MoveToFront, Refs, Adjust, IndexOf, WellFormed, MovedFrom;
    var c, k, all := Adjust(cs, bn, -1), IndexOf(cs, bn), ops + [Brelse(bn)];
    AdjustCounts(cs, bn, -1);
    FrontOf(ops, Brelse(bn));
    MoveToFrontWellFormed(c, k);
    var m := MoveToFront(c, k);
    forall b: nat
      ensures Refs(m, b) == Balance(all, b)
    {
      MoveToFrontIndex(c, k, b);
      RefsOf(m, b);
      RefsOf(c, b);
    }
    forall i, j | 0 <= i < j < |m|
      ensures Before(m, all, i, j)
    {
      MoveToFrontAt(c, k, i);
      MoveToFrontAt(c, k, j);
      MovedInOrder(k, i, j);
      OnlyOneCaches(cs, MovedFrom(k, j), k, bn);
      if i > 0 {
        OnlyOneCaches(cs, MovedFrom(k, i), k, bn);
        assert Before(cs, ops, MovedFrom(k, i), MovedFrom(k, j));
      }
    }
  }

  lemma RefsOf(cs: seq<Entry>, b: nat)
    ensures Refs(cs, b) == if IndexOf(cs, b) < 0 then 0 else cs[IndexOf(cs, b)].refcnt
  {
  }

  lemma MovedInOrder(k: nat, i: nat, j: nat)
    requires i < j
    ensures MovedFrom(k, 0) == k && MovedFrom(k, j) != k && (i > 0 ==> MovedFrom(k, i) != k && MovedFrom(k, i) < MovedFrom(k, j))
  {
  }

  lemma OnlyOneCaches(cs: seq<Entry>, i: nat, k: nat, bn: nat)
    requires WellFormed(cs) && i < |cs| && k < |cs| && i != k && cs[k].Caches(bn)
    ensures cs[i].dev == ROOTDEV ==> cs[i].blockno != bn
  {
  }

  lemma {:induction false} HistoryIsOrdered(cs0: seq<Entry>, ops: seq<Op>, cs: seq<Entry>)
    requires |cs0| == NBUF && (forall i | 0 <= i < NBUF :: cs0[i].Unused()) && History(cs0, ops, cs)
    ensures Ordered(cs, ops)
    decreases |ops|
  {
    hide Allowed, Step, Ordered, Balance, Freed;
    if ops == [] {
      FreshIsOrdered(cs0);
    } else {
      var front, op := ops[..|ops| - 1], ops[|ops| - 1];
      var c :| History(cs0, front, c) && Follows(c, op, cs);
      HistoryIsOrdered(cs0, front, c);
      assert front + [op] == ops;
      StepKeepsOrder(c, front, op);
    }
  }

  lemma FreshIsOrdered(cs: seq<Entry>)
    requires |cs| == NBUF && forall i | 0 <= i < NBUF :: cs[i].Unused()
    ensures Ordered(cs, [])
  {
  }

  lemma StepKeepsOrder(cs: seq<Entry>, ops: seq<Op>, op: Op)
    requires Ordered(cs, ops) && Allowed(cs, op)
    ensures Ordered(Step(cs, op), ops + [op])
  {
    hide Ordered;
    match op
    case Bread(bn) => BreadKeepsOrder(cs, ops, bn);
    case Brelse(bn) => if Refs(cs, bn) == 1 { LastKeepsOrder(cs, ops, bn); } else { ChangeKeepsOrder(cs, ops, op); }
    case _ => ChangeKeepsOrder(cs, ops, op);
  }

  // When a block is read that no buffer holds: among the buffers that nobody refers to, bget
  // recycles one never used if there is one, and otherwise that of the block whose last holder
  // gave it back longest ago.
  lemma RecyclesOldest(cs0: seq<Entry>, ops: seq<Op>, cs: seq<Entry>, bn: nat) returns (v: nat)
    requires |cs0| == NBUF && (forall i | 0 <= i < NBUF :: cs0[i].Unused()) && History(cs0, ops, cs)
    requires (forall i | 0 <= i < |cs| :: !cs[i].Caches(bn)) && Get(cs, bn).Some?
    ensures v < |cs| && cs[v].refcnt == 0 && Get(cs, bn).value == cs[v := Entry(ROOTDEV, bn, 1, false, cs[v].data)]
    ensures forall i | 0 <= i < |cs| && i != v && cs[i].refcnt == 0 ::
              cs[v].dev == ROOTDEV ==> cs[i].dev == ROOTDEV && Freed(ops, cs[v].blockno) < Freed(ops, cs[i].blockno)
  {
    HistoryIsOrdered(cs0, ops, cs);
    v := Lru(cs);
    forall i | 0 <= i < |cs| && i != v && cs[i].refcnt == 0
      ensures cs[v].dev == ROOTDEV ==> cs[i].dev == ROOTDEV && Freed(ops, cs[v].blockno) < Freed(ops, cs[i].blockno)
    {
      assert i < v;
      assert Before(cs, ops, i, v);
    }
  }
}
