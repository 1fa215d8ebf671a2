// The file system on the log: what a crash and the recovery leave of the files.

module FileCrash {
  import opened Bytes
  import opened FileBlocks
  import opened FileModel
  import opened FileTransactions
  import Disk = BufferCacheModel
  import Log = LogModel

  // The bytes of a block, as the words the log moves.
  function Encode(b: Block): (w: Disk.Block)
    requires Whole(b)
  {
    Disk.Block(seq(BSIZE / 4, k requires 0 <= k < BSIZE / 4 => Word(b, k)))
  }

  lemma LowByte(a: byte, x: nat, b: byte, y: nat)
    requires a + 0x100 * x == b + 0x100 * y
    ensures a == b && x == y
  {
  }

  lemma WordHasBytes(a0: byte, a1: byte, a2: byte, a3: byte, b0: byte, b1: byte, b2: byte, b3: byte)
    requires FromBytes(a0, a1, a2, a3) == FromBytes(b0, b1, b2, b3)
    ensures a0 == b0 && a1 == b1 && a2 == b2 && a3 == b3
  {
    var a: nat, b: nat := a2 as nat + 0x100 * a3, b2 as nat + 0x100 * b3;
    LowByte(a0, a1 as nat + 0x100 * a, b0, b1 as nat + 0x100 * b);
    LowByte(a1, a, b1, b);
    LowByte(a2, a3, b2, b3);
  }

  lemma SameWord(a: Block, b: Block, k: nat)
    requires Whole(a) && Whole(b) && k < BSIZE / 4 && Word(a, k) == Word(b, k)
    ensures a.bytes[4 * k..4 * k + 4] == b.bytes[4 * k..4 * k + 4]
    ensures forall i | 4 * k <= i < 4 * k + 4 :: a.bytes[i] == b.bytes[i]
  {
    WordHasBytes(a.bytes[4 * k], a.bytes[4 * k + 1], a.bytes[4 * k + 2], a.bytes[4 * k + 3],
                 b.bytes[4 * k], b.bytes[4 * k + 1], b.bytes[4 * k + 2], b.bytes[4 * k + 3]);
  }

  lemma EncodeIsInjective(a: Block, b: Block)
    requires Whole(a) && Whole(b) && Encode(a) == Encode(b)
    ensures a == b
  {
    hide Word;
    forall i | 0 <= i < BSIZE
      ensures a.bytes[i] == b.bytes[i]
    {
      var k := i / 4;
      assert Encode(a).words[k] == Word(a, k) && Encode(b).words[k] == Word(b, k);
      SameWord(a, b, k);
      assert i == 4 * k + i % 4;
    }
  }

  // Outside the log the disk has the blocks of the image.
  ghost predicate Holds(disk: Disk.Image, img: Image, start: nat) {
    |disk| == |img| && forall c | 0 <= c < |img| && !Log.InLog(start, c) :: Whole(img[c]) && disk[c] == Encode(img[c])
  }

  // The log ends before the inodes begin.
  ghost predicate Placed(l: Layout, start: nat) { start + Log.LOGBLOCKS < l.inodeStart }

  ghost function Members(lh: seq<nat>): set<nat> { set i | 0 <= i < |lh| :: lh[i] }

  // The operations from s to t are committed together; lh is the log.
  ghost predicate Commits(l: Layout, s: State, t: State, lh: seq<nat>) {
    && Transaction(l, s, t, Members(lh)) && 0 < |lh| <= Log.LOGBLOCKS
    && forall i, j | 0 <= i < j < |lh| :: lh[i] != lh[j]
  }

  ghost function GroupOf(t: State, lh: seq<nat>): (g: Log.Group)
    requires forall i | 0 <= i < |lh| :: lh[i] < |t.img| && Whole(t.img[lh[i]])
    ensures g.blocks == lh && |g.contents| == |lh| && forall i | 0 <= i < |lh| :: g.contents[i] == Encode(t.img[lh[i]])
  {
    Log.Group(lh, seq(|lh|, i requires 0 <= i < |lh| => Encode(t.img[lh[i]])))
  }

  ghost predicate History(l: Layout, states: seq<State>, lhs: seq<seq<nat>>) {
    |states| == |lhs| + 1 && Settled(l, states[0]) && forall i | 0 <= i < |lhs| :: Commits(l, states[i], states[i + 1], lhs[i])
  }

  lemma CommitsIs(l: Layout, start: nat, s: State, t: State, lh: seq<nat>)
    requires Commits(l, s, t, lh) && Placed(l, start)
    ensures forall i | 0 <= i < |lh| :: lh[i] < |t.img| && Whole(t.img[lh[i]])
    ensures |s.img| == |t.img| == l.size && Log.GoodGroup(GroupOf(t, lh), start, l.size)
    ensures forall c: nat | c < l.size && c !in lh :: t.img[c] == s.img[c]
  {
    hide Mapped, Accurate, Dense, Synced, Encode;
    forall i | 0 <= i < |lh|
      ensures l.inodeStart <= lh[i] < l.size
    {
      assert lh[i] in Members(lh);
    }
  }

  // The group commits of the run.
  ghost function Groups(l: Layout, start: nat, states: seq<State>, lhs: seq<seq<nat>>): (gs: seq<Log.Group>)
    requires History(l, states, lhs) && Placed(l, start)
    ensures |gs| == |lhs| && Log.GoodGroups(gs, start, l.size)
    ensures forall i | 0 <= i < |lhs| ::
              && (forall n | 0 <= n < |lhs[i]| :: lhs[i][n] < |states[i + 1].img| && Whole(states[i + 1].img[lhs[i][n]]))
              && gs[i] == GroupOf(states[i + 1], lhs[i])
  {
    hide Commits, Settled, GroupOf, Log.GoodGroup;
    forall i | 0 <= i < |lhs| ensures Grouped(l, start, states, lhs, i) { CommitsIs(l, start, states[i], states[i + 1], lhs[i]); }
    var gs := seq(|lhs|, i requires 0 <= i < |lhs| => assert Grouped(l, start, states, lhs, i); GroupOf(states[i + 1], lhs[i]));
    assert Log.GoodGroups(gs, start, l.size) by {
      forall i | 0 <= i < |gs| ensures Log.GoodGroup(gs[i], start, l.size) { assert Grouped(l, start, states, lhs, i); }
    }
    gs
  }

  ghost predicate Grouped(l: Layout, start: nat, states: seq<State>, lhs: seq<seq<nat>>, i: nat)
    requires |states| == |lhs| + 1 && i < |lhs|
  {
    && (forall n | 0 <= n < |lhs[i]| :: lhs[i][n] < |states[i + 1].img| && Whole(states[i + 1].img[lhs[i][n]]))
    && Log.GoodGroup(GroupOf(states[i + 1], lhs[i]), start, l.size)
  }

  // What j groups have made of a home block.
  lemma {:induction false} AfterGroups(l: Layout, start: nat, disk: Disk.Image, states: seq<State>, lhs: seq<seq<nat>>, j: nat, c: nat)
    requires History(l, states, lhs) && Placed(l, start) && Holds(disk, states[0].img, start) && j <= |lhs|
    requires c < l.size && !Log.InLog(start, c)
    ensures |states[j].img| == |disk| == l.size && Whole(states[j].img[c])
    ensures Log.ContentsAfter(disk, Groups(l, start, states, lhs)[..j], c) == Encode(states[j].img[c])
  {
    hide Encode, Settled, Commits, GroupOf;
    var gs := Groups(l, start, states, lhs);
    SettledSize(l, states[0]);
    if j > 0 {
      AfterGroups(l, start, disk, states, lhs, j - 1, c);
      CommitsIs(l, start, states[j - 1], states[j], lhs[j - 1]);
      CommitsSettled(l, states[j - 1], states[j], lhs[j - 1]);
      SettledSize(l, states[j]);
      assert gs[..j][..j - 1] == gs[..j - 1];
    }
  }

  lemma SettledSize(l: Layout, s: State)
    requires Settled(l, s)
    ensures |s.img| == l.size && GoodImage(l, s.img) && GoodTable(l, s.table)
  {
    hide Mapped, Accurate, Dense, Synced;
  }

  lemma CommitsSettled(l: Layout, s: State, t: State, lh: seq<nat>)
    requires Commits(l, s, t, lh)
    ensures Settled(l, s) && Settled(l, t)
  {
    hide Settled;
  }

  // What the file system reads from the disk.
  ghost predicate Reads(l: Layout, disk: Disk.Image, d: Image, start: nat) { GoodImage(l, d) && Holds(disk, d, start) }

  // The disk of the file system is that of state s, as far as any operation can tell.
  ghost predicate Restores(l: Layout, disk: Disk.Image, start: nat, s: State) {
    && Settled(l, s) && Reads(l, disk, s.img, start)
    && forall d | Reads(l, disk, d, start) ::
         && Settled(l, State(d, s.table, s.owner))
         && forall i | 0 <= i < l.ninodes :: Content(d, s.table[i]) == Content(s.img, s.table[i])
  }

  lemma HoldsRestores(l: Layout, start: nat, disk: Disk.Image, s: State)
    requires Settled(l, s) && Placed(l, start) && Holds(disk, s.img, start)
    ensures Restores(l, disk, start, s)
  {
    hide Mapped, Accurate, Dense, Synced, Content, Encode;
    forall d | Reads(l, disk, d, start)
      ensures Settled(l, State(d, s.table, s.owner))
      ensures forall i | 0 <= i < l.ninodes :: Content(d, s.table[i]) == Content(s.img, s.table[i])
    {
      forall c | l.inodeStart <= c < l.size
        ensures d[c] == s.img[c]
      {
        EncodeIsInjective(d[c], s.img[c]);
      }
      AboveMatters(l, s, d);
    }
  }

  // A crash after any k of the block writes of a run of operations, in the middle of a
  // commit or not, and then any number of crashes during recovery: the file system is as
  // it was after the last group that was committed, with every file and every invariant.
  lemma CrashedFileSystem(l: Layout, disk: Disk.Image, start: nat, states: seq<State>, lhs: seq<seq<nat>>, k: nat, cuts: seq<nat>)
    requires History(l, states, lhs) && Placed(l, start) && Log.Idle(disk, start) && Holds(disk, states[0].img, start)
    requires |disk| == l.size && k <= |Log.RunWrites(disk, start, Groups(l, start, states, lhs))|
    ensures var gs := Groups(l, start, states, lhs);
            var p := Log.Apply(disk, Log.RunWrites(disk, start, gs)[..k]);
            && Log.GoodDisk(p, start) && Log.Idle(Log.Reboot(p, start, cuts), start)
            && Restores(l, Log.Reboot(p, start, cuts), start, states[Log.CommittedBy(gs, k)])
  {
    hide Settled, Commits, Restores, Log.GoodDisk, Log.Idle, Log.Reboot, Log.Apply, Log.GoodGroups, Encode, Groups, Log.ContentsAfter;
    var gs := Groups(l, start, states, lhs);
    Log.RunCrashAtomicity(disk, start, gs, k, cuts);
    var j := Log.CommittedBy(gs, k);
    var r := Log.Reboot(Log.Apply(disk, Log.RunWrites(disk, start, gs)[..k]), start, cuts);
    if j > 0 { CommitsSettled(l, states[j - 1], states[j], lhs[j - 1]); }
    SettledSize(l, states[j]);
    forall c | 0 <= c < l.size && !Log.InLog(start, c)
      ensures Whole(states[j].img[c]) && r[c] == Encode(states[j].img[c])
    {
      AfterGroups(l, start, disk, states, lhs, j, c);
    }
    HoldsRestores(l, start, r, states[j]);
  }

  // One operation: all of it or nothing, and the header write of its commit decides.
  lemma CrashedOperation(l: Layout, disk: Disk.Image, start: nat, s: State, t: State, lh: seq<nat>, k: nat, cuts: seq<nat>)
    requires Settled(l, s) && Commits(l, s, t, lh) && Placed(l, start) && Log.Idle(disk, start) && Holds(disk, s.img, start)
    requires |disk| == l.size && k <= |Log.RunWrites(disk, start, Groups(l, start, [s, t], [lh]))|
    ensures var p := Log.Apply(disk, Log.RunWrites(disk, start, Groups(l, start, [s, t], [lh]))[..k]);
            Log.GoodDisk(p, start) && Restores(l, Log.Reboot(p, start, cuts), start, if k < Log.CommitPoint(lh) then s else t)
  {
    hide Settled, Commits, Restores, Log.GoodDisk, Log.Idle, Log.Reboot, Log.Apply, Log.GoodGroups, Encode, Groups, Log.RunWrites, Holds;
    CrashedFileSystem(l, disk, start, [s, t], [lh], k, cuts);
    var gs := Groups(l, start, [s, t], [lh]);
    assert gs[0].blocks == lh;
    CommittedOne(gs, k);
  }

  lemma CommittedOne(gs: seq<Log.Group>, k: nat)
    requires |gs| == 1
    ensures Log.CommittedBy(gs, k) == if k < Log.CommitPoint(gs[0].blocks) then 0 else 1
  {
    assert gs[1..] == [];
  }

  // filewrite, cut short by a crash anywhere: some first bytes of the data are in the file,
  // all at their place, and the other files have not changed. However the log groups its
  // transactions, the states between the groups are among those it went through.
  lemma CrashedWrite(l: Layout, disk: Disk.Image, start: nat, trail: seq<State>, logs: seq<set<nat>>, f: nat, off: nat, src: seq<byte>,
                     states: seq<State>, lhs: seq<seq<nat>>, k: nat, cuts: seq<nat>)
    requires Trail(l, trail, logs, f, off, src) && (forall i | 0 <= i < |states| :: states[i] in trail) && History(l, states, lhs)
    requires Placed(l, start) && Log.Idle(disk, start) && Holds(disk, states[0].img, start)
    requires |disk| == l.size && k <= |Log.RunWrites(disk, start, Groups(l, start, states, lhs))|
    ensures var p := Log.Apply(disk, Log.RunWrites(disk, start, Groups(l, start, states, lhs))[..k]);
            var t := states[Log.CommittedBy(Groups(l, start, states, lhs), k)];
            && Log.GoodDisk(p, start)
            && forall d | Reads(l, Log.Reboot(p, start, cuts), d, start) ::
                 && Settled(l, State(d, t.table, t.owner))
                 && PartWritten(l, trail[0], State(d, t.table, t.owner), f, off, src)
  {
    hide Settled, Commits, Log.GoodDisk, Log.Idle, Log.Reboot, Log.Apply, Log.GoodGroups, Encode, Groups, Log.RunWrites, Holds, PartWritten, Reads, Content;
    CrashedFileSystem(l, disk, start, states, lhs, k, cuts);
    var gs := Groups(l, start, states, lhs);
    var t := states[Log.CommittedBy(gs, k)];
    var r := Log.Reboot(Log.Apply(disk, Log.RunWrites(disk, start, gs)[..k]), start, cuts);
    assert t in trail;
    SettledSize(l, t);
    SettledSize(l, trail[0]);
    forall d | Reads(l, r, d, start)
      ensures PartWritten(l, trail[0], State(d, t.table, t.owner), f, off, src)
    {
      StillWritten(l, trail[0], t, d, f, off, src);
    }
  }

  // Each transaction of filewrite can be a group of its own, if it logs anything.
  lemma TrailCommits(l: Layout, trail: seq<State>, logs: seq<set<nat>>, f: nat, off: nat, src: seq<byte>, j: nat, lh: seq<nat>)
    requires Trail(l, trail, logs, f, off, src) && j < |logs| && Members(lh) == logs[j] != {}
    requires forall i, k | 0 <= i < k < |lh| :: lh[i] != lh[k]
    ensures Commits(l, trail[j], trail[j + 1], lh)
  {
    hide Settled, Changes, PartWritten;
    DistinctMembers(lh);
  }

  lemma {:induction false} DistinctMembers(lh: seq<nat>)
    requires forall i, k | 0 <= i < k < |lh| :: lh[i] != lh[k]
    ensures |Members(lh)| == |lh|
  {
    if lh != [] {
      var n := |lh| - 1;
      DistinctMembers(lh[..n]);
      assert Members(lh) == Members(lh[..n]) + {lh[n]};
    }
  }
}
