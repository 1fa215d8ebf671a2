// The redo log of kernel/log.c on the disk: which block writes a commit and a
// recovery perform, in order, and what they mean when they are cut short.

module LogModel {
  import opened BufferCacheModel
  import opened BufferCache

  const MAXOPBLOCKS := 10
  const LOGBLOCKS := 3 * MAXOPBLOCKS

  // Blocks start .. start + LOGBLOCKS are the header and the log's data blocks.
  predicate InLog(start: nat, bn: nat) {
    start <= bn <= start + LOGBLOCKS
  }

  // A block that can be read as a struct logheader.
  predicate IsHeader(h: Block) {
    |h.words| == BLOCK_WORDS && h.words[0] <= LOGBLOCKS
  }

  function HeaderCount(h: Block): nat
    requires IsHeader(h)
  {
    h.words[0]
  }

  // struct logheader: a count, then that many block numbers.
  function HeaderBlocks(h: Block): seq<nat>
    requires IsHeader(h)
  {
    h.words[1..1 + HeaderCount(h)]
  }

  // write_head overwrites the count and the first |blocks| slots of the header block only.
  function SetHeader(h: Block, blocks: seq<nat>): (r: Block)
    requires IsHeader(h) && |blocks| <= LOGBLOCKS
    ensures IsHeader(r) && HeaderCount(r) == |blocks| && HeaderBlocks(r) == blocks
  {
    Block([|blocks|] + blocks + h.words[1 + |blocks|..])
  }

  // Position of the last write to bn in ws, or -1.
  ghost predicate IsLast(ws: seq<Write>, bn: nat, k: nat) {
    k < |ws| && ws[k].blockno == bn && forall i | k < i < |ws| :: ws[i].blockno != bn
  }

  ghost function LastWrite(ws: seq<Write>, bn: nat): (r: int)
    ensures -1 <= r < |ws|
    ensures if r >= 0 then IsLast(ws, bn, r) else forall i | 0 <= i < |ws| :: ws[i].blockno != bn
  {
    if i :| 0 <= i < |ws| && ws[i].blockno == bn then
      LastWriteExists(ws, bn, i);
      var k: nat :| IsLast(ws, bn, k);
      k
    else -1
  }

  lemma {:induction false} LastWriteExists(ws: seq<Write>, bn: nat, i: nat)
    requires i < |ws| && ws[i].blockno == bn
    ensures exists k: nat :: IsLast(ws, bn, k)
    decreases |ws| - i
  {
    if j :| i < j < |ws| && ws[j].blockno == bn {
      LastWriteExists(ws, bn, j);
    } else {
      assert IsLast(ws, bn, i);
    }
  }

  // The disk after these block writes: every block holds what was written to it last.
  ghost function Apply(img: Image, ws: seq<Write>): (r: Image)
    ensures |r| == |img|
    ensures forall bn: nat | bn < |img| :: r[bn] == BlockAfter(img, ws, bn)
  {
    ApplyExists(img, ws);
    var r: Image :| |r| == |img| && forall bn: nat | bn < |img| :: r[bn] == BlockAfter(img, ws, bn);
    r
  }

  ghost function BlockAfter(img: Image, ws: seq<Write>, bn: nat): Block
    requires bn < |img|
  {
    var k := LastWrite(ws, bn);
    if k >= 0 then ws[k].data else img[bn]
  }

  lemma ApplyExists(img: Image, ws: seq<Write>)
    ensures exists r: Image :: |r| == |img| && forall bn: nat | bn < |img| :: r[bn] == BlockAfter(img, ws, bn)
  {
    var r := seq(|img|, bn requires 0 <= bn < |img| => BlockAfter(img, ws, bn));
    assert |r| == |img|;
  }

  lemma ApplyConcat(img: Image, a: seq<Write>, b: seq<Write>)
    ensures Apply(img, a + b) == Apply(Apply(img, a), b)
  {
    forall bn: nat | bn < |img|
      ensures Apply(img, a + b)[bn] == Apply(Apply(img, a), b)[bn]
    {
      var j, k := LastWrite(b, bn), LastWrite(a, bn);
      if j >= 0 {
        assert IsLast(a + b, bn, |a| + j);
      } else if k >= 0 {
        assert IsLast(a + b, bn, k);
      }
    }
  }

  lemma ApplySnoc(img: Image, a: seq<Write>, w: Write)
    requires w.blockno < |img|
    ensures Apply(img, a + [w]) == Apply(img, a)[w.blockno := w.data]
  {
    ApplyConcat(img, a, [w]);
    assert IsLast([w], w.blockno, 0);
  }

  lemma ApplyPrefixStep(img: Image, ws: seq<Write>, t: nat)
    requires t < |ws| && ws[t].blockno < |img|
    ensures Apply(img, ws[..t + 1]) == Apply(img, ws[..t])[ws[t].blockno := ws[t].data]
  {
    assert ws[..t + 1] == ws[..t] + [ws[t]];
    ApplySnoc(img, ws[..t], ws[t]);
  }

  // Doing part of a list of writes and then all of it is the same as doing all of it.
  lemma RedoAbsorbsPrefix(img: Image, ws: seq<Write>, k: nat)
    requires k <= |ws|
    ensures Apply(Apply(img, ws[..k]), ws) == Apply(img, ws)
  {
    var p := Apply(img, ws[..k]);
    forall bn: nat | bn < |img|
      ensures Apply(p, ws)[bn] == Apply(img, ws)[bn]
    {
    }
  }

  // A list of writes: the i-th writes contents[i] to dst[i].
  ghost function WritesTo(dst: seq<nat>, contents: seq<Block>): (ws: seq<Write>)
    requires |dst| == |contents|
    ensures |ws| == |dst|
    ensures forall i | 0 <= i < |ws| :: ws[i] == Write(dst[i], contents[i])
  {
    WritesToExists(dst, contents);
    var ws: seq<Write> :| |ws| == |dst| && forall i | 0 <= i < |ws| :: ws[i] == Write(dst[i], contents[i]);
    ws
  }

  lemma WritesToExists(dst: seq<nat>, contents: seq<Block>)
    requires |dst| == |contents|
    ensures exists ws: seq<Write> :: |ws| == |dst| && forall i | 0 <= i < |ws| :: ws[i] == Write(dst[i], contents[i])
  {
    var ws := seq(|dst|, i requires 0 <= i < |dst| => Write(dst[i], contents[i]));
    assert |ws| == |dst|;
  }

  // The block numbers of the first n log slots.
  function Slots(start: nat, n: nat): (r: seq<nat>)
    ensures |r| == n && forall i | 0 <= i < n :: r[i] == start + i + 1
  {
    if n == 0 then [] else Slots(start, n - 1) + [start + n]
  }

  // write_log: the i-th logged block goes to log slot i.
  ghost function LogWrites(start: nat, contents: seq<Block>): (ws: seq<Write>)
    ensures |ws| == |contents| && forall i | 0 <= i < |ws| :: ws[i] == Write(start + i + 1, contents[i])
  {
    WritesTo(Slots(start, |contents|), contents)
  }

  // install_trans: log slot i goes home to blocks[i].
  ghost function InstallWrites(blocks: seq<nat>, contents: seq<Block>): seq<Write>
    requires |blocks| == |contents|
  {
    WritesTo(blocks, contents)
  }

  // Everything commit() writes to the disk, in order.
  ghost function CommitWrites(header: Block, start: nat, blocks: seq<nat>, contents: seq<Block>): seq<Write>
    requires IsHeader(header) && |blocks| == |contents| <= LOGBLOCKS
  {
    if blocks == [] then []
    else
      LogWrites(start, contents)
      + [Write(start, SetHeader(header, blocks))]
      + InstallWrites(blocks, contents)
      + [Write(start, SetHeader(SetHeader(header, blocks), []))]
  }

  // On the disk: the log is the header's block and thirty more; a header is the count in word 0
  // and the block numbers after it; block i of the group goes to the i-th of the thirty, then the
  // header is written, block i goes home, and a header with count 0 ends the commit.
  lemma CommitLayout(header: Block, start: nat, blocks: seq<nat>, contents: seq<Block>)
    requires IsHeader(header) && 0 < |blocks| == |contents| <= LOGBLOCKS
    ensures forall bn: nat :: InLog(start, bn) <==> start <= bn <= start + 30
    ensures var n, ws := |blocks|, CommitWrites(header, start, blocks, contents);
            && |ws| == 2 * n + 2
            && (forall i | 0 <= i < n :: ws[i] == Write(start + 1 + i, contents[i]))
            && (forall i | 0 <= i < n :: ws[n + 1 + i] == Write(blocks[i], contents[i]))
            && ws[n].blockno == start == ws[2 * n + 1].blockno
            && (forall w | 0 <= w < 256 ::
                  w < |ws[n].data.words| && ws[n].data.words[w] == if w == 0 then n else if w <= n then blocks[w - 1] else header.words[w])
            && (forall w | 0 <= w < 256 ::
                  w < |ws[2 * n + 1].data.words| && ws[2 * n + 1].data.words[w] == if w == 0 then 0 else ws[n].data.words[w])
  {
    hide WritesTo, LogWrites;
    var n, ws := |blocks|, CommitWrites(header, start, blocks, contents);
    var full := SetHeader(header, blocks);
    assert ws[n] == Write(start, full) && ws[2 * n + 1] == Write(start, SetHeader(full, []));
    assert SetHeader(full, []).words == [0] + [] + full.words[1..];
    forall i | 0 <= i < n
      ensures ws[n + 1 + i] == InstallWrites(blocks, contents)[i]
    {
    }
  }

  // A disk the log code can work with: the log fits, and what its header names
  // lies outside the log.
  ghost predicate GoodDisk(img: Image, start: nat) {
    && start + LOGBLOCKS < |img|
    && IsHeader(img[start])
    && GoodBlocks(HeaderBlocks(img[start]), start, |img|)
  }

  ghost predicate GoodBlocks(blocks: seq<nat>, start: nat, size: nat) {
    && |blocks| <= LOGBLOCKS
    && forall i | 0 <= i < |blocks| :: blocks[i] < size && !InLog(start, blocks[i])
  }

  ghost predicate Idle(img: Image, start: nat) {
    start + LOGBLOCKS < |img| && IsHeader(img[start]) && HeaderCount(img[start]) == 0
  }

  function LogSlots(img: Image, start: nat, n: nat): seq<Block>
    requires start + n < |img|
  {
    img[start + 1..start + 1 + n]
  }

  // What recover_from_log installs from this disk.
  ghost function RedoWrites(img: Image, start: nat): seq<Write>
    requires GoodDisk(img, start)
  {
    InstallWrites(HeaderBlocks(img[start]), LogSlots(img, start, HeaderCount(img[start])))
  }

  // Everything recover_from_log writes to the disk, in order.
  ghost function RecoveryWrites(img: Image, start: nat): seq<Write>
    requires GoodDisk(img, start)
  {
    RedoWrites(img, start) + [Write(start, SetHeader(img[start], []))]
  }

  // The home blocks (all but the log) agree.
  ghost predicate SameHome(a: Image, b: Image, start: nat) {
    && |a| == |b|
    && forall bn: nat | bn < |a| && !InLog(start, bn) :: a[bn] == b[bn]
  }

  ghost function AfterRecovery(img: Image, start: nat): Image
    requires GoodDisk(img, start)
  {
    Apply(img, RecoveryWrites(img, start))
  }

  // Redo writes hit home blocks only, so they never touch the log.
  lemma RedoLeavesLog(img: Image, start: nat, k: nat)
    requires GoodDisk(img, start) && k <= |RedoWrites(img, start)|
    ensures var p := Apply(img, RedoWrites(img, start)[..k]);
            && (forall bn: nat | InLog(start, bn) :: p[bn] == img[bn])
            && GoodDisk(p, start) && RedoWrites(p, start) == RedoWrites(img, start)
  {
    var ws := RedoWrites(img, start);
    var p := Apply(img, ws[..k]);
    forall bn: nat | InLog(start, bn)
      ensures p[bn] == img[bn]
    {
    }
    var n := HeaderCount(img[start]);
    assert InLog(start, start);
    assert LogSlots(p, start, n) == LogSlots(img, start, n) by {
      forall i | 0 <= i < n
        ensures LogSlots(p, start, n)[i] == LogSlots(img, start, n)[i]
      {
        assert InLog(start, start + 1 + i);
      }
    }
  }

  // Recovery leaves an idle log, and at home exactly what redoing the header's blocks gives.
  lemma RecoveryResult(img: Image, start: nat)
    requires GoodDisk(img, start)
    ensures var r := AfterRecovery(img, start);
            && Idle(r, start) && GoodDisk(r, start)
            && SameHome(r, Apply(img, RedoWrites(img, start)), start)
            && RecoveryWrites(r, start) == [Write(start, SetHeader(r[start], []))]
  {
    ApplySnoc(img, RedoWrites(img, start), Write(start, SetHeader(img[start], [])));
    var r := AfterRecovery(img, start);
    assert r[start] == SetHeader(img[start], []);
    assert RedoWrites(r, start) == [];
  }

  // A recovery cut after any number of its own writes still stands for the same home blocks.
  lemma CutRecoveryLosesNothing(img: Image, start: nat, k: nat)
    requires GoodDisk(img, start) && k <= |RecoveryWrites(img, start)|
    ensures var p := Apply(img, RecoveryWrites(img, start)[..k]);
            GoodDisk(p, start) && SameHome(AfterRecovery(p, start), AfterRecovery(img, start), start)
  {
    var redo, all := RedoWrites(img, start), RecoveryWrites(img, start);
    var p := Apply(img, all[..k]);
    RecoveryResult(img, start);
    if k <= |redo| {
      assert all[..k] == redo[..k];
      RedoLeavesLog(img, start, k);
      RedoAbsorbsPrefix(img, redo, k);
      RecoveryResult(p, start);
    } else {
      assert all[..k] == all;
      RecoveryResult(p, start);
      assert RedoWrites(p, start) == [];
    }
  }

  // A boot that crashes during recovery once per element of cuts, each time after
  // that many of the writes of that recovery, and finally recovers.
  ghost function Reboot(img: Image, start: nat, cuts: seq<nat>): Image
    requires GoodDisk(img, start)
    decreases |cuts|
  {
    if cuts == [] then AfterRecovery(img, start)
    else
      var ws := RecoveryWrites(img, start);
      var k := if cuts[0] <= |ws| then cuts[0] else |ws|;
      CutRecoveryLosesNothing(img, start, k);
      Reboot(Apply(img, ws[..k]), start, cuts[1..])
  }

  lemma {:induction false} RebootResult(img: Image, start: nat, cuts: seq<nat>)
    requires GoodDisk(img, start)
    ensures Idle(Reboot(img, start, cuts), start)
    ensures SameHome(Reboot(img, start, cuts), AfterRecovery(img, start), start)
    decreases |cuts|
  {
    if cuts == [] {
      RecoveryResult(img, start);
    } else {
      var ws := RecoveryWrites(img, start);
      var k := if cuts[0] <= |ws| then cuts[0] else |ws|;
      CutRecoveryLosesNothing(img, start, k);
      RebootResult(Apply(img, ws[..k]), start, cuts[1..]);
    }
  }

  // The image with a transaction's blocks updated: what a commit is meant to achieve.
  ghost predicate Installed(r: Image, img: Image, start: nat, blocks: seq<nat>, contents: seq<Block>)
    requires |blocks| == |contents|
  {
    && |r| == |img|
    && (forall i | 0 <= i < |blocks| :: blocks[i] < |r| && r[blocks[i]] == contents[i])
    && (forall bn: nat | bn < |img| && bn !in blocks && !InLog(start, bn) :: r[bn] == img[bn])
  }

  // Number of writes of a commit up to and including the header write, the commit point.
  function CommitPoint(blocks: seq<nat>): nat { |blocks| + 1 }

  // Before the commit point no prefix of a commit changes what recovery leaves at home.
  lemma BeforeCommitPoint(img: Image, start: nat, blocks: seq<nat>, contents: seq<Block>, k: nat)
    requires Idle(img, start) && |blocks| == |contents| <= LOGBLOCKS && blocks != []
    requires k < CommitPoint(blocks)
    ensures var p := Apply(img, CommitWrites(img[start], start, blocks, contents)[..k]);
            GoodDisk(p, start) && SameHome(AfterRecovery(p, start), img, start)
  {
    var ws := CommitWrites(img[start], start, blocks, contents)[..k];
    assert ws == LogWrites(start, contents)[..k];
    var p := Apply(img, ws);
    forall bn: nat | bn < |img| && (bn == start || !InLog(start, bn))
      ensures p[bn] == img[bn]
    {
    }
    RecoveryResult(p, start);
    assert RedoWrites(p, start) == [];
  }

  // The disk right after the header write.
  ghost function Committed(img: Image, start: nat, blocks: seq<nat>, contents: seq<Block>): Image
    requires start < |img| && IsHeader(img[start]) && |blocks| <= LOGBLOCKS
  {
    Apply(img, LogWrites(start, contents))[start := SetHeader(img[start], blocks)]
  }

  lemma AtCommitPoint(img: Image, start: nat, blocks: seq<nat>, contents: seq<Block>)
    requires Idle(img, start) && |blocks| == |contents| && blocks != [] && GoodBlocks(blocks, start, |img|)
    ensures var p := Committed(img, start, blocks, contents);
            && p == Apply(img, LogWrites(start, contents) + [Write(start, SetHeader(img[start], blocks))])
            && GoodDisk(p, start)
            && RedoWrites(p, start) == InstallWrites(blocks, contents)
  {
    ApplySnoc(img, LogWrites(start, contents), Write(start, SetHeader(img[start], blocks)));
    var p := Committed(img, start, blocks, contents);
    var n := |blocks|;
    forall i | 0 <= i < n
      ensures p[start + 1 + i] == contents[i]
    {
      LogSlotHolds(img, start, contents, i);
    }
    assert LogSlots(p, start, n) == contents;
  }

  lemma CommittedSameHome(img: Image, start: nat, blocks: seq<nat>, contents: seq<Block>)
    requires Idle(img, start) && |blocks| == |contents| <= LOGBLOCKS
    ensures SameHome(Committed(img, start, blocks, contents), img, start)
  {
    var log := LogWrites(start, contents);
    forall bn: nat | bn < |img| && !InLog(start, bn)
      ensures Apply(img, log)[bn] == img[bn]
    {
    }
  }

  lemma {:induction false} LogSlotHolds(img: Image, start: nat, contents: seq<Block>, i: nat)
    requires start + |contents| < |img| && i < |contents|
    ensures Apply(img, LogWrites(start, contents))[start + 1 + i] == contents[i]
  {
    var n := |contents| - 1;
    assert LogWrites(start, contents) == LogWrites(start, contents[..n]) + [Write(start + n + 1, contents[n])];
    ApplySnoc(img, LogWrites(start, contents[..n]), Write(start + n + 1, contents[n]));
    if i < n { LogSlotHolds(img, start, contents[..n], i); }
  }

  // After the commit point the log alone determines the home blocks: wherever the
  // rest of the commit was cut, recovery installs the whole transaction.
  lemma AfterCommitPoint(img: Image, start: nat, blocks: seq<nat>, contents: seq<Block>, k: nat)
    requires Idle(img, start) && |blocks| == |contents| && blocks != [] && GoodBlocks(blocks, start, |img|)
    requires CommitPoint(blocks) <= k <= |CommitWrites(img[start], start, blocks, contents)|
    ensures var p := Apply(img, CommitWrites(img[start], start, blocks, contents)[..k]);
            && GoodDisk(p, start)
            && SameHome(AfterRecovery(p, start), Apply(img, InstallWrites(blocks, contents)), start)
  {
    hide Apply, WritesTo, Idle, GoodDisk, SameHome, AfterRecovery, Committed, IsHeader, SetHeader;
    IdleHeader(img, start);
    var ws := CommitWrites(img[start], start, blocks, contents);
    var head := LogWrites(start, contents) + [Write(start, SetHeader(img[start], blocks))];
    var c := Committed(img, start, blocks, contents);
    AtCommitPoint(img, start, blocks, contents);
    CommittedSameHome(img, start, blocks, contents);
    CommitIsRecovery(img, start, blocks, contents);
    var j := k - |head|;
    assert ws[..k] == head + RecoveryWrites(c, start)[..j];
    ApplyConcat(img, head, RecoveryWrites(c, start)[..j]);
    CutRecoveryLosesNothing(c, start, j);
    RecoveryResult(c, start);
    SameHomeApply(c, img, start, InstallWrites(blocks, contents));
    SameHomeTwice(AfterRecovery(Apply(c, RecoveryWrites(c, start)[..j]), start), AfterRecovery(c, start),
                  Apply(c, InstallWrites(blocks, contents)), Apply(img, InstallWrites(blocks, contents)), start);
  }

  lemma IdleHeader(img: Image, start: nat)
    requires Idle(img, start)
    ensures start + LOGBLOCKS < |img| && IsHeader(img[start])
  {
  }

  lemma SameHomeTwice(a: Image, b: Image, c: Image, d: Image, start: nat)
    requires SameHome(a, b, start) && SameHome(b, c, start) && SameHome(c, d, start)
    ensures SameHome(a, d, start)
  {
  }

  // What a commit writes after the header is what a recovery from there would write.
  lemma CommitIsRecovery(img: Image, start: nat, blocks: seq<nat>, contents: seq<Block>)
    requires Idle(img, start) && |blocks| == |contents| && blocks != [] && GoodBlocks(blocks, start, |img|)
    ensures GoodDisk(Committed(img, start, blocks, contents), start)
    ensures CommitWrites(img[start], start, blocks, contents) ==
            LogWrites(start, contents) + [Write(start, SetHeader(img[start], blocks))] + RecoveryWrites(Committed(img, start, blocks, contents), start)
    ensures |LogWrites(start, contents)| + 1 == CommitPoint(blocks)
  {
    AtCommitPoint(img, start, blocks, contents);
  }

  lemma {:induction false} SameHomeApply(a: Image, b: Image, start: nat, ws: seq<Write>)
    requires SameHome(a, b, start)
    ensures SameHome(Apply(a, ws), Apply(b, ws), start)
  {
    forall bn: nat | bn < |a| && !InLog(start, bn)
      ensures Apply(a, ws)[bn] == Apply(b, ws)[bn]
    {
    }
  }

  lemma {:induction false} InstallIsInstalled(img: Image, start: nat, blocks: seq<nat>, contents: seq<Block>)
    requires |blocks| == |contents| && GoodBlocks(blocks, start, |img|)
    requires forall i, j | 0 <= i < j < |blocks| :: blocks[i] != blocks[j]
    ensures Installed(Apply(img, InstallWrites(blocks, contents)), img, start, blocks, contents)
  {
    var ws := InstallWrites(blocks, contents);
    var r := Apply(img, ws);
    forall i | 0 <= i < |blocks|
      ensures r[blocks[i]] == contents[i]
    {
      assert IsLast(ws, blocks[i], i);
    }
    forall bn: nat | bn < |img| && bn !in blocks
      ensures r[bn] == img[bn]
    {
    }
  }

  // Crash atomicity. Cut a commit after any k of its block writes, and let every
  // later boot crash any number of times anywhere in its recovery. What is finally
  // at home is the old image if k is short of the header write, and the old image
  // with the whole transaction otherwise: never a part of it.
  lemma CrashAtomicity(img: Image, start: nat, blocks: seq<nat>, contents: seq<Block>, k: nat, cuts: seq<nat>)
    requires Idle(img, start) && |blocks| == |contents| && blocks != [] && GoodBlocks(blocks, start, |img|)
    requires forall i, j | 0 <= i < j < |blocks| :: blocks[i] != blocks[j]
    requires k <= |CommitWrites(img[start], start, blocks, contents)|
    ensures var p := Apply(img, CommitWrites(img[start], start, blocks, contents)[..k]);
            && GoodDisk(p, start)
            && Idle(Reboot(p, start, cuts), start)
            && (k < CommitPoint(blocks) ==> SameHome(Reboot(p, start, cuts), img, start))
            && (k >= CommitPoint(blocks) ==> Installed(Reboot(p, start, cuts), img, start, blocks, contents))
  {
    var p := Apply(img, CommitWrites(img[start], start, blocks, contents)[..k]);
    if k < CommitPoint(blocks) {
      BeforeCommitPoint(img, start, blocks, contents, k);
    } else {
      AfterCommitPoint(img, start, blocks, contents, k);
      InstallIsInstalled(img, start, blocks, contents);
    }
    RebootResult(p, start, cuts);
  }

  // One group commit: the blocks the log held and what the cache held for them.
  datatype Group = Group(blocks: seq<nat>, contents: seq<Block>)

  ghost predicate GoodGroup(g: Group, start: nat, size: nat) {
    && |g.blocks| == |g.contents| && g.blocks != []
    && GoodBlocks(g.blocks, start, size)
    && forall i, j | 0 <= i < j < |g.blocks| :: g.blocks[i] != g.blocks[j]
  }

  ghost predicate GoodGroups(groups: seq<Group>, start: nat, size: nat) {
    forall i | 0 <= i < |groups| :: GoodGroup(groups[i], start, size)
  }

  ghost function GroupWrites(img: Image, start: nat, g: Group): seq<Write>
    requires Idle(img, start) && GoodGroup(g, start, |img|)
  {
    CommitWrites(img[start], start, g.blocks, g.contents)
  }

  lemma CommitCompletes(img: Image, start: nat, g: Group)
    requires Idle(img, start) && GoodGroup(g, start, |img|)
    ensures |GroupWrites(img, start, g)| == 2 * |g.blocks| + 2
    ensures var r := Apply(img, GroupWrites(img, start, g));
            Idle(r, start) && Installed(r, img, start, g.blocks, g.contents)
  {
    var ws := GroupWrites(img, start, g);
    assert ws[..|ws|] == ws;
    AfterCommitPoint(img, start, g.blocks, g.contents, |ws|);
    InstallIsInstalled(img, start, g.blocks, g.contents);
    var r := Apply(img, ws);
    var erase := Write(start, SetHeader(SetHeader(img[start], g.blocks), []));
    assert ws == ws[..|ws| - 1] + [erase];
    ApplySnoc(img, ws[..|ws| - 1], erase);
    assert RedoWrites(r, start) == [];
    RecoveryResult(r, start);
  }

  // Every block write of a run of group commits on a disk that starts idle.
  ghost function RunWrites(img: Image, start: nat, groups: seq<Group>): seq<Write>
    requires Idle(img, start) && GoodGroups(groups, start, |img|)
    decreases |groups|
  {
    if groups == [] then []
    else
      var ws := GroupWrites(img, start, groups[0]);
      CommitCompletes(img, start, groups[0]);
      ws + RunWrites(Apply(img, ws), start, groups[1..])
  }

  // How many of the groups have their header write among the first k writes of the run.
  ghost function CommittedBy(groups: seq<Group>, k: nat): (j: nat)
    ensures j <= |groups|
  {
    if groups == [] || k < CommitPoint(groups[0].blocks) then 0
    else
      var size := 2 * |groups[0].blocks| + 2;
      if k < size then 1 else 1 + CommittedBy(groups[1..], k - size)
  }

  function Position(blocks: seq<nat>, bn: nat): (i: int)
    ensures -1 <= i < |blocks|
    ensures if i < 0 then bn !in blocks else blocks[i] == bn
  {
    if blocks == [] then -1
    else if blocks[|blocks| - 1] == bn then |blocks| - 1
    else Position(blocks[..|blocks| - 1], bn)
  }

  // The contents of block bn after these groups: those of the last group to write it.
  ghost function ContentsAfter(img: Image, groups: seq<Group>, bn: nat): Block
    requires bn < |img| && forall i | 0 <= i < |groups| :: |groups[i].blocks| == |groups[i].contents|
  {
    if groups == [] then img[bn]
    else
      var g := groups[|groups| - 1];
      var i := Position(g.blocks, bn);
      if i >= 0 then g.contents[i] else ContentsAfter(img, groups[..|groups| - 1], bn)
  }

  lemma {:induction false} ContentsAfterFirst(img: Image, r: Image, start: nat, groups: seq<Group>, bn: nat)
    requires groups != [] && bn < |img| && !InLog(start, bn) && GoodGroups(groups, start, |img|)
    requires Installed(r, img, start, groups[0].blocks, groups[0].contents)
    ensures ContentsAfter(r, groups[1..], bn) == ContentsAfter(img, groups, bn)
  {
    var n := |groups| - 1;
    if n > 0 {
      assert groups[1..][..n - 1] == groups[..n][1..];
      ContentsAfterFirst(img, r, start, groups[..n], bn);
    } else {
      assert ContentsAfter(img, groups[..n], bn) == img[bn];
    }
  }

  // At home, final holds what these groups, and no others, made of img.
  ghost predicate HoldsGroups(final: Image, img: Image, start: nat, groups: seq<Group>)
    requires forall i | 0 <= i < |groups| :: |groups[i].blocks| == |groups[i].contents|
  {
    && |final| == |img|
    && forall bn: nat | bn < |img| && !InLog(start, bn) :: final[bn] == ContentsAfter(img, groups, bn)
  }

  lemma HoldsOneMore(final: Image, img: Image, r: Image, start: nat, groups: seq<Group>)
    requires groups != [] && GoodGroups(groups, start, |img|)
    requires Installed(r, img, start, groups[0].blocks, groups[0].contents)
    requires HoldsGroups(final, r, start, groups[1..])
    ensures HoldsGroups(final, img, start, groups)
  {
    forall bn: nat | bn < |img| && !InLog(start, bn)
      ensures final[bn] == ContentsAfter(img, groups, bn)
    {
      ContentsAfterFirst(img, r, start, groups, bn);
    }
  }

  // The first commit of a run is cut short: nothing or all of its group is there.
  lemma FirstGroupCut(img: Image, start: nat, groups: seq<Group>, k: nat, cuts: seq<nat>)
    requires Idle(img, start) && GoodGroups(groups, start, |img|) && groups != []
    requires k < |GroupWrites(img, start, groups[0])|
    ensures var p := Apply(img, GroupWrites(img, start, groups[0])[..k]);
            && GoodDisk(p, start)
            && Idle(Reboot(p, start, cuts), start)
            && HoldsGroups(Reboot(p, start, cuts), img, start, groups[..CommittedBy(groups, k)])
  {
    var g := groups[0];
    CommitCompletes(img, start, g);
    CrashAtomicity(img, start, g.blocks, g.contents, k, cuts);
    var j := CommittedBy(groups, k);
    if j == 1 {
      var f := Reboot(Apply(img, GroupWrites(img, start, g)[..k]), start, cuts);
      assert groups[..1][1..] == [];
      assert HoldsGroups(f, f, start, []);
      HoldsOneMore(f, img, f, start, groups[..1]);
    }
  }

  lemma IdleReboots(img: Image, start: nat, cuts: seq<nat>)
    requires Idle(img, start)
    ensures GoodDisk(img, start)
    ensures Idle(Reboot(img, start, cuts), start) && SameHome(Reboot(img, start, cuts), img, start)
  {
    RebootResult(img, start, cuts);
    RecoveryResult(img, start);
    assert RedoWrites(img, start) == [];
  }

  // The first commit of a run completes: the rest of the run starts from its result.
  lemma FirstGroupDone(img: Image, start: nat, groups: seq<Group>, k: nat)
    requires Idle(img, start) && GoodGroups(groups, start, |img|) && groups != []
    requires |GroupWrites(img, start, groups[0])| <= k <= |RunWrites(img, start, groups)|
    ensures var ws := GroupWrites(img, start, groups[0]);
            var r := Apply(img, ws);
            && Idle(r, start) && Installed(r, img, start, groups[0].blocks, groups[0].contents)
            && k - |ws| <= |RunWrites(r, start, groups[1..])|
            && Apply(img, RunWrites(img, start, groups)[..k]) == Apply(r, RunWrites(r, start, groups[1..])[..k - |ws|])
            && CommittedBy(groups, k) == 1 + CommittedBy(groups[1..], k - |ws|)
  {
    var ws := GroupWrites(img, start, groups[0]);
    CommitCompletes(img, start, groups[0]);
    var rest := RunWrites(Apply(img, ws), start, groups[1..]);
    assert RunWrites(img, start, groups)[..k] == ws + rest[..k - |ws|];
    ApplyConcat(img, ws, rest[..k - |ws|]);
  }

  // Crash atomicity over whole runs. Stop a run of group commits after any k of its
  // block writes, then reboot, crashing any number of times on the way: every home
  // block holds what the groups committed by then, and no others, made it.
  lemma {:induction false} RunCrashAtomicity(img: Image, start: nat, groups: seq<Group>, k: nat, cuts: seq<nat>)
    requires Idle(img, start) && GoodGroups(groups, start, |img|)
    requires k <= |RunWrites(img, start, groups)|
    ensures var p := Apply(img, RunWrites(img, start, groups)[..k]);
            && GoodDisk(p, start)
            && Idle(Reboot(p, start, cuts), start)
            && HoldsGroups(Reboot(p, start, cuts), img, start, groups[..CommittedBy(groups, k)])
    decreases |groups|
  {
    hide GoodDisk, Idle, Reboot, HoldsGroups, GroupWrites, Apply, Installed;
    if groups == [] {
      NoGroups(img, start, k, cuts);
    } else {
      var ws := GroupWrites(img, start, groups[0]);
      if k < |ws| {
        assert RunWrites(img, start, groups)[..k] == ws[..k];
        FirstGroupCut(img, start, groups, k, cuts);
      } else {
        var r := Apply(img, ws);
        FirstGroupDone(img, start, groups, k);
        RestIsGood(groups, start, img, r, groups[0]);
        RunCrashAtomicity(r, start, groups[1..], k - |ws|, cuts);
        var j := CommittedBy(groups, k);
        assert groups[1..][..j - 1] == groups[..j][1..];
        HoldsOneMore(Reboot(Apply(img, RunWrites(img, start, groups)[..k]), start, cuts), img, r, start, groups[..j]);
      }
    }
  }

  lemma NoGroups(img: Image, start: nat, k: nat, cuts: seq<nat>)
    requires Idle(img, start) && k <= |RunWrites(img, start, [])|
    ensures var p := Apply(img, RunWrites(img, start, [])[..k]);
            GoodDisk(p, start) && Idle(Reboot(p, start, cuts), start) && HoldsGroups(Reboot(p, start, cuts), img, start, [])
  {
    assert Apply(img, RunWrites(img, start, [])[..k]) == img;
    IdleReboots(img, start, cuts);
  }

  lemma RestIsGood(groups: seq<Group>, start: nat, img: Image, r: Image, g: Group)
    requires GoodGroups(groups, start, |img|) && groups != [] && g == groups[0] && |g.blocks| == |g.contents|
    requires Installed(r, img, start, g.blocks, g.contents)
    ensures GoodGroups(groups[1..], start, |r|)
  {
  }
}
