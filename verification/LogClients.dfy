// What file system calls may rely on while they use the log: the references they hold,
// what they read, and what is on the disk for good.

module LogClients {
  import opened BufferCacheModel
  import opened BufferCache
  import opened LogModel
  import opened LogStates
  import A = LogAdmission

  // held counts the references handed out by bread and not yet given back. Every other
  // reference is the one pin of a block in the log.
  ghost predicate Accounted(refs: imap<nat, nat>, held: multiset<nat>, lh: seq<nat>) {
    forall b: nat :: b in refs && refs[b] == held[b] + (if b in lh then 1 else 0)
  }

  ghost predicate Consistent(cs: seq<Entry>, img: Image, start: nat, lh: seq<nat>, held: multiset<nat>) {
    Coherent(cs, img, start, lh) && Accounted(RefMap(cs), held, lh)
  }

  // The blocks whose buffers are in use.
  ghost function Used(held: multiset<nat>, lh: seq<nat>): set<nat> {
    (set b | b in held) + Elements(lh)
  }

  ghost function Elements(lh: seq<nat>): set<nat> {
    set b | b in lh
  }

  lemma FullWhenThirtyUsed(cs: seq<Entry>, img: Image, start: nat, lh: seq<nat>, held: multiset<nat>)
    requires Consistent(cs, img, start, lh, held)
    ensures |Used(held, lh)| <= NBUF
    ensures Full(cs) <==> |Used(held, lh)| == NBUF
  {
    forall b: nat
      ensures b in Used(held, lh) <==> Refs(cs, b) > 0
    {
      assert RefMap(cs)[b] == Refs(cs, b);
    }
    FullIffThirtyBlocks(cs, Used(held, lh));
  }

  // If every buffer is in use, a block is cached exactly if it is one of those in use.
  lemma FullCachesUsed(cs: seq<Entry>, bn: nat)
    requires WellFormed(cs) && Full(cs)
    ensures IndexOf(cs, bn) >= 0 <==> Refs(cs, bn) > 0
  {
  }

  ghost predicate Home(start: nat, size: nat, bn: nat) {
    bn < size && !InLog(start, bn)
  }

  lemma ReadPass(cs: seq<Entry>, img: Image, bn: nat)
    requires Sound(cs, img) && bn < |img|
    ensures Read(cs, img, bn).None? <==> Full(cs) && RefMap(cs)[bn] == 0
    ensures var r := Read(cs, img, bn);
            r.Some? ==>
              && Sound(r.value, img)
              && RefMap(r.value) == RefMap(cs)[bn := RefMap(cs)[bn] + 1]
              && Views(r.value, img) == Views(cs, img)
              && IndexOf(r.value, bn) >= 0 && r.value[IndexOf(r.value, bn)].data == Views(cs, img)[bn]
  {
    ReadKeepsViews(cs, img, bn);
    assert RefMap(cs)[bn] == Refs(cs, bn);
    if Full(cs) { FullCachesUsed(cs, bn); }
    if Read(cs, img, bn).Some? {
      assert Views(Read(cs, img, bn).value, img) == Views(cs, img);
    }
  }

  // bread of a home block fails only when thirty other blocks are in use.
  lemma ReadConsistent(cs: seq<Entry>, img: Image, start: nat, lh: seq<nat>, held: multiset<nat>, bn: nat)
    requires Consistent(cs, img, start, lh, held) && Home(start, |img|, bn)
    ensures Read(cs, img, bn).None? <==> |Used(held, lh)| == NBUF && bn !in Used(held, lh)
    ensures var r := Read(cs, img, bn);
            r.Some? ==>
              && Consistent(r.value, img, start, lh, held + multiset{bn})
              && Views(r.value, img) == Views(cs, img)
              && IndexOf(r.value, bn) >= 0 && r.value[IndexOf(r.value, bn)].data == Views(cs, img)[bn]
  {
    hide Sound, Views, Full, RefMap, Read;
    ReadPass(cs, img, bn);
    FullWhenThirtyUsed(cs, img, start, lh, held);
    assert bn in RefMap(cs);
  }

  lemma ReleasePass(cs: seq<Entry>, img: Image, bn: nat)
    requires Sound(cs, img) && RefMap(cs)[bn] > 0
    requires RefMap(cs)[bn] == 1 ==> bn < |img| && Views(cs, img)[bn] == img[bn]
    ensures Refs(cs, bn) > 0 && Sound(Release(cs, bn), img)
    ensures RefMap(Release(cs, bn)) == RefMap(cs)[bn := RefMap(cs)[bn] - 1]
    ensures Views(Release(cs, bn), img) == Views(cs, img)
  {
    assert RefMap(cs)[bn] == Refs(cs, bn);
    ReleaseKeepsViews(cs, img, bn);
    assert Views(Release(cs, bn), img) == Views(cs, img);
  }

  // brelse of a block somebody holds.
  lemma ReleaseConsistent(cs: seq<Entry>, img: Image, start: nat, lh: seq<nat>, held: multiset<nat>, bn: nat)
    requires Consistent(cs, img, start, lh, held) && held[bn] > 0
    ensures Refs(cs, bn) > 0
    ensures Consistent(Release(cs, bn), img, start, lh, held - multiset{bn})
    ensures Views(Release(cs, bn), img) == Views(cs, img)
  {
    hide Sound, Views;
    assert bn in RefMap(cs);
    ReleasePass(cs, img, bn);
  }

  ghost function Logging(lh: seq<nat>, bn: nat): seq<nat> {
    if bn in lh then lh else lh + [bn]
  }

  // The cache after a holder of bn has changed its data and log_write has perhaps pinned it.
  ghost function Modified(cs: seq<Entry>, bn: nat, data: Block, pin: bool): seq<Entry> {
    if pin then Adjust(Store(cs, bn, data), bn, 1) else Store(cs, bn, data)
  }

  lemma ModifyPass(cs: seq<Entry>, img: Image, bn: nat, data: Block, pin: bool)
    requires Sound(cs, img) && RefMap(cs)[bn] > 0 && bn < |img|
    ensures var c := Modified(cs, bn, data, pin);
            && Sound(c, img)
            && RefMap(c) == RefMap(cs)[bn := RefMap(cs)[bn] + (if pin then 1 else 0)]
            && Views(c, img) == Views(cs, img)[bn := data]
  {
    assert RefMap(cs)[bn] == Refs(cs, bn);
    StoreChangesOneView(cs, img, bn, data);
    var s := Store(cs, bn, data);
    ViewsUpdate(cs, img, s, img, bn, data);
    assert Refs(s, bn) == Refs(cs, bn);
    if pin {
      AdjustKeepsViews(s, img, bn, 1);
      ViewsUpdate(cs, img, Adjust(s, bn, 1), img, bn, data);
    }
  }

  // Changing a held block and logging it changes what readers see of it, and nothing else.
  lemma UpdateConsistent(cs: seq<Entry>, img: Image, start: nat, lh: seq<nat>, held: multiset<nat>, bn: nat, data: Block)
    requires Consistent(cs, img, start, lh, held) && held[bn] > 0 && |lh| < LOGBLOCKS
    ensures bn < |img|
    ensures var c := Modified(cs, bn, data, bn !in lh);
            && Consistent(c, img, start, Logging(lh, bn), held)
            && Views(c, img) == Views(cs, img)[bn := data]
  {
    hide Sound, Views, RefMap, Modified;
    ModifyPass(cs, img, bn, data, bn !in lh);
  }

  // The contents a commit will write: what readers see of the blocks in the log.
  ghost function Pick(v: Image, lh: seq<nat>): (r: seq<Block>)
    requires forall i | 0 <= i < |lh| :: lh[i] < |v|
    ensures Picked(r, v, lh)
  {
    seq(|lh|, i requires 0 <= i < |lh| => v[lh[i]])
  }

  lemma ConsistentIsCommittable(cs: seq<Entry>, img: Image, start: nat, lh: seq<nat>, held: multiset<nat>)
    requires Consistent(cs, img, start, lh, held) && Idle(img, start)
    ensures forall i | 0 <= i < |lh| :: lh[i] < |Views(cs, img)|
    ensures Committable(cs, img, start, lh, Pick(Views(cs, img), lh))
    ensures lh != [] ==> GoodGroup(Group(lh, Pick(Views(cs, img), lh)), start, |img|)
  {
  }

  // A commit leaves its clients with exactly the references they held.
  lemma CommitAccounted(refs0: imap<nat, nat>, refs: imap<nat, nat>, held: multiset<nat>, lh: seq<nat>)
    requires Accounted(refs0, held, lh) && Unpinned(refs, refs0, lh, |lh|, true)
    ensures Accounted(refs, held, [])
  {
    assert lh[..|lh|] == lh;
  }

  // The disk's history since it was last recovered: base, then one commit per group,
  // and nothing else; and what that made of the home blocks.
  ghost predicate History(base: Image, start: nat, groups: seq<Group>, img: Image, trace: seq<Write>) {
    && Idle(base, start) && Idle(img, start) && GoodGroups(groups, start, |base|)
    && img == Apply(base, RunWrites(base, start, groups))
    && trace == RunWrites(base, start, groups)
    && HoldsGroups(img, base, start, groups)
  }

  lemma HistoryStarts(img: Image, start: nat, trace: seq<Write>)
    requires Idle(img, start)
    ensures trace[|trace|..] == [] && History(img, start, [], img, [])
  {
  }

  lemma RunStep(img: Image, start: nat, groups: seq<Group>) returns (r: Image)
    requires Idle(img, start) && GoodGroups(groups, start, |img|) && groups != []
    ensures r == Apply(img, GroupWrites(img, start, groups[0]))
    ensures Idle(r, start) && |r| == |img| && GoodGroups(groups[1..], start, |r|)
    ensures RunWrites(img, start, groups) == GroupWrites(img, start, groups[0]) + RunWrites(r, start, groups[1..])
    ensures Apply(img, RunWrites(img, start, groups)) == Apply(r, RunWrites(r, start, groups[1..]))
  {
    CommitCompletes(img, start, groups[0]);
    r := Apply(img, GroupWrites(img, start, groups[0]));
    ApplyConcat(img, GroupWrites(img, start, groups[0]), RunWrites(r, start, groups[1..]));
  }

  lemma {:induction false} RunWritesSnoc(img: Image, start: nat, groups: seq<Group>, g: Group, end: Image)
    requires Idle(img, start) && GoodGroups(groups, start, |img|) && GoodGroup(g, start, |img|) && Idle(end, start)
    requires end == Apply(img, RunWrites(img, start, groups))
    ensures RunWrites(img, start, groups + [g]) == RunWrites(img, start, groups) + GroupWrites(end, start, g)
    decreases |groups|
  {
    hide GroupWrites, GoodGroup, CommitWrites;
    var all := groups + [g];
    if groups == [] {
      assert Apply(img, []) == img;
      var r := RunStep(img, start, all);
      assert all[1..] == [];
    } else {
      assert all[1..] == groups[1..] + [g];
      var r := RunStep(img, start, groups);
      var r' := RunStep(img, start, all);
      hide *;
      RunWritesSnoc(r, start, groups[1..], g, end);
    }
  }

  lemma HoldsLast(base: Image, start: nat, groups: seq<Group>, g: Group, img: Image, r: Image)
    requires GoodGroups(groups, start, |base|) && GoodGroup(g, start, |base|)
    requires HoldsGroups(img, base, start, groups) && Installed(r, img, start, g.blocks, g.contents)
    ensures HoldsGroups(r, base, start, groups + [g])
  {
    assert (groups + [g])[..|groups|] == groups;
    forall bn: nat | bn < |base| && !InLog(start, bn)
      ensures r[bn] == ContentsAfter(base, groups + [g], bn)
    {
      assert img[bn] == ContentsAfter(base, groups, bn);
    }
  }

  lemma HistoryGrows(base: Image, start: nat, groups: seq<Group>, img: Image, trace: seq<Write>, g: Group)
    requires History(base, start, groups, img, trace) && GoodGroup(g, start, |img|)
    ensures var ws := GroupWrites(img, start, g);
            History(base, start, groups + [g], Apply(img, ws), trace + ws)
  {
    var ws := GroupWrites(img, start, g);
    RunWritesSnoc(base, start, groups, g, img);
    ApplyConcat(base, RunWrites(base, start, groups), ws);
    CommitCompletes(img, start, g);
    HoldsLast(base, start, groups, g, img, Apply(img, ws));
  }

  const SUPERBLOCK := 1
  const MAGIC := 0        // word of the superblock
  const LOGSTART := 5
  const FSMAGIC := 0x10203040

  // Nothing is cached yet, or nobody holds anything and the cache tells no lies.
  ghost predicate Booted(cs: seq<Entry>, img: Image) {
    Sound(cs, img) && !Full(cs) && Views(cs, img) == img && forall b: nat :: b in RefMap(cs) && RefMap(cs)[b] == 0
  }

  lemma FreshCacheIsBooted(cs: seq<Entry>, img: Image)
    requires |cs| == NBUF && forall i | 0 <= i < NBUF :: cs[i].Unused()
    ensures Booted(cs, img)
  {
    assert cs[0].Unused();
    forall b: nat
      ensures RefMap(cs)[b] == 0
    {
      assert Refs(cs, b) == 0;
    }
    assert Views(cs, img) == img;
  }

  // bread and brelse of a block nobody else holds: read_head.
  lemma PeekPass(cs: seq<Entry>, img: Image, bn: nat) returns (c: seq<Entry>)
    requires Booted(cs, img) && bn < |img|
    ensures Read(cs, img, bn) == Some(c)
    ensures IndexOf(c, bn) >= 0 && c[IndexOf(c, bn)].data == img[bn]
    ensures Refs(c, bn) > 0 && Booted(Release(c, bn), img)
  {
    assert Refs(cs, bn) == RefMap(cs)[bn];
    ReadKeepsViews(cs, img, bn);
    c := Read(cs, img, bn).value;
    ReleaseKeepsViews(c, img, bn);
    var r := Release(c, bn);
    assert Views(r, img) == img;
    forall b: nat
      ensures RefMap(r)[b] == 0
    {
      assert Refs(c, b) == Refs(cs, b) + (if b == bn then 1 else 0) && Refs(cs, b) == RefMap(cs)[b];
    }
  }

  lemma BootedIsInstallable(cs: seq<Entry>, img: Image, start: nat)
    requires Booted(cs, img) && GoodDisk(img, start)
    ensures var lh := HeaderBlocks(img[start]);
            && Installable(true, img, img, RefMap(cs), LogSlots(img, start, |lh|), start, lh)
            && HeaderReady(img, RefMap(cs), start, lh, img[start])
  {
    var lh := HeaderBlocks(img[start]);
    assert InLog(start, start);
    assert forall b: nat | start < b <= start + |lh| :: InLog(start, b);
  }

  // After recovery: the state the first clients start from.
  lemma RecoveredIsConsistent(img0: Image, refs0: imap<nat, nat>, cs: seq<Entry>, img: Image, start: nat)
    requires GoodDisk(img0, start) && forall b: nat :: b in refs0 && refs0[b] == 0
    requires Progress(img0, img0, RecoveryWrites(img0, start), cs, img, |RecoveryWrites(img0, start)|)
    requires Unpinned(RefMap(cs), refs0, HeaderBlocks(img0[start]), HeaderCount(img0[start]), false)
    ensures img == AfterRecovery(img0, start) && Idle(img, start)
    ensures Consistent(cs, img, start, [], multiset{}) && Views(cs, img) == img
  {
    var ws := RecoveryWrites(img0, start);
    assert ws[..|ws|] == ws;
    RecoveryResult(img0, start);
  }

  lemma TraceTail(boot: seq<Write>, trace: seq<Write>, ws: seq<Write>)
    requires boot <= trace
    ensures boot <= trace + ws && (trace + ws)[|boot|..] == trace[|boot|..] + ws
  {
  }

  // What a commit means to its clients.
  lemma CommitConsistent(cs0: seq<Entry>, img0: Image, cs: seq<Entry>, img: Image, start: nat, lh: seq<nat>, held: multiset<nat>)
    requires Consistent(cs0, img0, start, lh, held) && Coherent(cs, img, start, [])
    requires Unpinned(RefMap(cs), RefMap(cs0), lh, |lh|, true)
    ensures Consistent(cs, img, start, [], held)
    ensures Views(cs, img) == img
  {
    CommitAccounted(RefMap(cs0), RefMap(cs), held, lh);
  }

  lemma HistoryIsIdle(base: Image, start: nat, groups: seq<Group>, img: Image, trace: seq<Write>)
    requires History(base, start, groups, img, trace)
    ensures Idle(img, start)
  {
  }

  lemma EmptyCommit(img: Image, header: Block, start: nat)
    requires IsHeader(header)
    ensures CommitWrites(header, start, [], []) == [] && Apply(img, []) == img
  {
  }

  lemma CommitHistory(base: Image, start: nat, groups: seq<Group>, img: Image, trace: seq<Write>, lh: seq<nat>, contents: seq<Block>)
    requires History(base, start, groups, img, trace) && Idle(img, start) && |lh| == |contents| <= LOGBLOCKS
    requires lh != [] ==> GoodGroup(Group(lh, contents), start, |img|)
    ensures var ws := CommitWrites(img[start], start, lh, contents);
            History(base, start, groups + if lh == [] then [] else [Group(lh, contents)], Apply(img, ws), trace + ws)
  {
    if lh == [] {
      assert groups + [] == groups && Apply(img, []) == img && trace + [] == trace;
    } else {
      HistoryGrows(base, start, groups, img, trace, Group(lh, contents));
    }
  }

  lemma {:induction false} DistinctSize(lh: seq<nat>)
    requires Distinct(lh)
    ensures |Elements(lh)| == |lh|
  {
    if lh == [] {
      assert Elements(lh) == {};
    } else {
      var n := |lh| - 1;
      DistinctSize(lh[..n]);
      assert Elements(lh) == Elements(lh[..n]) + {lh[n]};
    }
  }

  // LOGBLOCKS == NBUF: even when nobody holds a buffer, a commit finds none to copy the
  // log with exactly if the log is full.
  lemma QuietCommit(lh: seq<nat>)
    requires Distinct(lh)
    ensures |Used(multiset{}, lh)| == NBUF <==> |lh| == LOGBLOCKS
  {
    DistinctSize(lh);
    assert Used(multiset{}, lh) == Elements(lh);
  }

  // Operations that keep to their ten blocks get there.
  lemma QuietCommitIsReached() returns (steps: seq<A.Action>, full: A.Admission)
    ensures A.Run(A.Admission([], map[], false), steps, MAXOPBLOCKS)
    ensures A.Outcome(A.Admission([], map[], false), steps, MAXOPBLOCKS) == Some(full)
    ensures full.committing && full.ops == map[] && |Used(multiset{}, full.lh)| == NBUF
  {
    hide Used;
    steps, full := A.FullLogIsCommitted();
    QuietCommit(full.lh);
  }
}
