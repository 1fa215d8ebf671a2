// What the operations of the file system do to the disk, as transactions for the log.

module FileTransactions {
  import opened Bytes
  import opened FileBlocks
  import opened FileModel

  // Only these blocks have changed, and none of them is below low.
  ghost predicate Changes(low: nat, img: Image, img': Image, blocks: set<nat>) {
    && |img'| == |img|
    && (forall c | 0 <= c < |img| && c !in blocks :: img'[c] == img[c])
    && forall c | c in blocks :: low <= c < |img|
  }

  lemma ChangesNone(low: nat, img: Image)
    ensures Changes(low, img, img, {})
  {
  }

  lemma ChangesMore(low: nat, img: Image, img': Image, blocks: set<nat>, c: nat, b: Block)
    requires Changes(low, img, img', blocks) && low <= c < |img|
    ensures Changes(low, img, img'[c := b], blocks + {c})
  {
  }

  // The file system between two operations: the disk, every inode, and who owns each block.
  datatype State = State(img: Image, table: seq<Inode>, owner: map<nat, Slot>)

  ghost predicate Settled(l: Layout, s: State) {
    Inv(l, s.img, s.table, s.owner) && Synced(l, s.img, s.table, -1)
  }

  ghost predicate Transaction(l: Layout, s: State, t: State, blocks: set<nat>) {
    Settled(l, s) && Settled(l, t) && Changes(l.inodeStart, s.img, t.img, blocks)
  }

  // Operations that end in one group commit count as one.
  lemma TransactionsJoin(l: Layout, s: State, t: State, u: State, a: set<nat>, b: set<nat>)
    requires Transaction(l, s, t, a) && Transaction(l, t, u, b)
    ensures Transaction(l, s, u, a + b)
  {
    hide Settled;
  }

  lemma AboveAt(l: Layout, s: State, d: Image, i: nat, k: nat)
    requires Inv(l, s.img, s.table, s.owner) && GoodImage(l, d) && forall c | l.inodeStart <= c < l.size :: d[c] == s.img[c]
    requires i < l.ninodes && k < SLOTS
    ensures At(d, s.table[i], k) == At(s.img, s.table[i], k)
    ensures var a := At(s.img, s.table[i], k); a != 0 ==> l.DataStart() <= a < l.size
  {
    hide Mapped, Accurate, Dense, Word, Whole, At;
    SizeOf(l, s.img, s.table, s.owner);
    AddressInData(l, s.img, s.table, s.owner, i, NDIRECT);
    AddressInData(l, s.img, s.table, s.owner, i, k);
    SameSlot(s.img, d, s.table[i], k);
  }

  lemma SameSlot(img: Image, d: Image, ino: Inode, k: nat)
    requires |ino.addrs| == NDIRECT + 1 && k < SLOTS && |d| == |img|
    requires var a := At(img, ino, NDIRECT); 0 < a < |img| ==> d[a] == img[a]
    ensures At(d, ino, k) == At(img, ino, k)
  {
    hide Word;
  }

  // The blocks below the inodes do not matter.
  lemma AboveMatters(l: Layout, s: State, d: Image)
    requires Settled(l, s) && GoodImage(l, d) && forall c | l.inodeStart <= c < l.size :: d[c] == s.img[c]
    ensures Settled(l, State(d, s.table, s.owner))
    ensures forall i | 0 <= i < l.ninodes :: Content(d, s.table[i]) == Content(s.img, s.table[i])
  {
    hide Accurate, Mapped, Dense, At, Content, Synced, Taken;
    SizeOf(l, s.img, s.table, s.owner);
    forall i, k | 0 <= i < l.ninodes && 0 <= k < SLOTS
      ensures At(d, s.table[i], k) == At(s.img, s.table[i], k)
    {
      AboveAt(l, s, d, i, k);
    }
    SameMaps(l, s.img, d, s.table, s.owner);
    TakenSame(l, s.img, d);
    SameAccuracy(l, s, d);
    SyncedSame(l, s.img, s.table, d, s.table, -1);
    forall i | 0 <= i < l.ninodes
      ensures Content(d, s.table[i]) == Content(s.img, s.table[i])
    {
      AboveContent(l, s, d, i);
    }
  }

  lemma SameAccuracy(l: Layout, s: State, d: Image)
    requires l.Good() && GoodImage(l, s.img) && GoodImage(l, d) && Accurate(l, s.img, s.owner)
    requires forall b: nat | b < l.size :: Taken(l, d, b) <==> Taken(l, s.img, b)
    ensures Accurate(l, d, s.owner)
  {
    hide Taken;
  }

  lemma AboveContent(l: Layout, s: State, d: Image, i: nat)
    requires Inv(l, s.img, s.table, s.owner) && GoodImage(l, d) && forall c | l.inodeStart <= c < l.size :: d[c] == s.img[c]
    requires i < l.ninodes
    ensures Content(d, s.table[i]) == Content(s.img, s.table[i])
  {
    hide Mapped, Accurate, At;
    var ino := s.table[i];
    forall bn: nat | bn < MAXFILE && bn * BSIZE < ino.size
      ensures var a := At(s.img, ino, DataSlot(bn)); At(d, ino, DataSlot(bn)) == a && (a < |s.img| ==> d[a] == s.img[a])
    {
      AboveAt(l, s, d, i, DataSlot(bn));
      assert DenseTo(s.img, ino, ino.size);
    }
    SameBytes(s.img, ino, d, ino, ino.size);
  }

  // File f has the first n bytes of src written at off, if it reaches that far at all; the
  // other files are as they were.
  ghost predicate Written(l: Layout, s: State, t: State, f: nat, off: nat, src: seq<byte>, n: nat)
    requires GoodTable(l, s.table) && GoodTable(l, t.table) && f < l.ninodes && n <= |src|
  {
    && Content(t.img, t.table[f]) == (if off > s.table[f].size then Content(s.img, s.table[f]) else Splice(Content(s.img, s.table[f]), off, src[..n]))
    && OthersSame(l, s.img, s.table, t.img, t.table, f)
  }

  ghost predicate PartWritten(l: Layout, s: State, t: State, f: nat, off: nat, src: seq<byte>)
    requires GoodTable(l, s.table) && GoodTable(l, t.table) && f < l.ninodes
  {
    exists n: nat :: n <= |src| && Written(l, s, t, f, off, src, n)
  }

  // The states filewrite goes through, one transaction after the other, and what each logs.
  ghost predicate Trail(l: Layout, states: seq<State>, logs: seq<set<nat>>, f: nat, off: nat, src: seq<byte>) {
    && |states| == |logs| + 1 && f < l.ninodes && Settled(l, states[0])
    && (forall j | 0 <= j < |states| :: Settled(l, states[j]) && PartWritten(l, states[0], states[j], f, off, src))
    && forall j | 0 <= j < |logs| :: |logs[j]| <= MAXOPBLOCKS && Transaction(l, states[j], states[j + 1], logs[j])
  }

  lemma TrailStarts(l: Layout, s: State, f: nat, off: nat, src: seq<byte>)
    requires Settled(l, s) && f < l.ninodes
    ensures Trail(l, [s], [], f, off, src)
  {
    hide Inv, Splice, Content, Synced;
    DoneIsWritten(l, s, s, f, off, src, 0);
  }

  lemma DoneIsWritten(l: Layout, s: State, t: State, f: nat, off: nat, src: seq<byte>, n: nat)
    requires Settled(l, s) && Settled(l, t) && f < l.ninodes && n <= |src|
    requires (n == 0 && t == s) || WriteDone(l, s.img, s.table, t.img, t.table, f, off, src[..n])
    ensures GoodTable(l, s.table) && GoodTable(l, t.table) && PartWritten(l, s, t, f, off, src)
  {
    hide Splice, Content, Synced, Mapped, Accurate, Dense, Written;
    if n == 0 && t == s { WriteDoneStarts(l, s.img, s.table, f, off, src); }
    WriteDoneMeans(l, s.img, s.table, t.img, t.table, f, off, src[..n]);
    assert Written(l, s, t, f, off, src, n) by { WrittenIs(l, s, t, f, off, src, n); }
  }

  lemma WrittenIs(l: Layout, s: State, t: State, f: nat, off: nat, src: seq<byte>, n: nat)
    requires GoodTable(l, s.table) && GoodTable(l, t.table) && f < l.ninodes && n <= |src|
    requires WriteDone(l, s.img, s.table, t.img, t.table, f, off, src[..n])
    ensures Written(l, s, t, f, off, src, n)
  {
    hide Splice, Content;
  }

  lemma TrailGrows(l: Layout, states: seq<State>, logs: seq<set<nat>>, f: nat, off: nat, src: seq<byte>, t: State, log: set<nat>, n: nat)
    requires Trail(l, states, logs, f, off, src) && Transaction(l, states[|logs|], t, log) && |log| <= MAXOPBLOCKS && n <= |src|
    requires GoodTable(l, states[0].table) && GoodTable(l, t.table) && WriteDone(l, states[0].img, states[0].table, t.img, t.table, f, off, src[..n])
    ensures Trail(l, states + [t], logs + [log], f, off, src)
  {
    hide Settled, PartWritten, Changes, WriteDone;
    DoneIsWritten(l, states[0], t, f, off, src, n);
  }

  // What can be read from the recovered disk is as much as was written.
  lemma StillWritten(l: Layout, s: State, t: State, d: Image, f: nat, off: nat, src: seq<byte>)
    requires GoodTable(l, s.table) && GoodTable(l, t.table) && f < l.ninodes && PartWritten(l, s, t, f, off, src)
    requires forall i | 0 <= i < l.ninodes :: Content(d, t.table[i]) == Content(t.img, t.table[i])
    ensures PartWritten(l, s, State(d, t.table, t.owner), f, off, src)
  {
    hide Splice, Content;
    var n: nat :| n <= |src| && Written(l, s, t, f, off, src, n);
    assert Written(l, s, State(d, t.table, t.owner), f, off, src, n);
  }
}
