// kernel/log.c over the buffer cache and the disk.

module Log {
  import opened BufferCacheModel
  import opened BufferCache
  import opened LogModel
  import opened LogStates
  import opened LogClients
  import A = LogAdmission

  class Log {
    const cache: Cache
    const start: nat
    var lh: seq<nat>            // lh.block[0 .. lh.n]
    var outstanding: nat
    var committing: bool
    ghost var ops: map<nat, set<nat>>   // running operations, and what each has logged
    ghost var held: multiset<nat>       // references handed out by bread and not yet given back
    ghost var base: Image               // the disk after recovery
    ghost var boot: seq<Write>          // the writes up to then
    ghost var groups: seq<Group>        // the commits since then

    ghost predicate Valid()
      reads this, cache, cache.head, cache.bufs, cache.disk
    {
      && cache.Valid() && Consistent(cache.model, cache.disk.image, start, lh, held)
      && boot <= cache.disk.trace && History(base, start, groups, cache.disk.image, cache.disk.trace[|boot|..])
      && outstanding == |ops| && A.Sound(Admission(), MAXOPBLOCKS)
    }

    ghost function Admission(): A.Admission
      reads this
    {
      A.Admission(lh, ops, committing)
    }

    // What readers see.
    ghost function Contents(): Image
      reads cache, cache.disk
    {
      Views(cache.model, cache.disk.image)
    }

    // The blocks whose buffers are in use.
    ghost function InUse(): set<nat>
      reads this
    {
      Used(held, lh)
    }

    constructor (cache: Cache, start: nat)
      ensures this.cache == cache && this.start == start && Unstarted()
    {
      this.cache, this.start := cache, start;
      lh, outstanding, committing := [], 0, false;
      ops, held := map[], multiset{};
      base, boot, groups := [], [], [];
    }

    ghost predicate Unstarted()
      reads this
    {
      Admission() == A.Admission([], map[], false) && outstanding == 0 && held == multiset{} && groups == []
    }

    // fsinit up to the log, on a cache that binit has just made. It reads the superblock,
    // panics on a wrong magic number, and otherwise recovers.
    method FsInit() returns (panic: bool)
      requires Unstarted() && cache.Valid() && GoodDisk(cache.disk.image, start)
      requires |cache.model| == NBUF && forall i | 0 <= i < NBUF :: cache.model[i].Unused()
      requires |cache.disk.image[SUPERBLOCK].words| == BLOCK_WORDS && cache.disk.image[SUPERBLOCK].words[LOGSTART] == start
      modifies `lh, `base, `boot, cache`model, cache`order, cache.head, cache.bufs, cache.disk
      ensures panic <==> old(cache.disk.image)[SUPERBLOCK].words[MAGIC] != FSMAGIC
      ensures panic ==> cache.disk.image == old(cache.disk.image) && cache.disk.trace == old(cache.disk.trace)
      ensures !panic ==> Valid() && Unstarted()
      ensures !panic ==> base == cache.disk.image == AfterRecovery(old(cache.disk.image), start) == Contents()
      ensures !panic ==> boot == cache.disk.trace == old(cache.disk.trace) + RecoveryWrites(old(cache.disk.image), start)
    {
      hide Cache.Valid, Consistent, History, RecoveryWrites, Booted, AfterRecovery, Views;
      FreshCacheIsBooted(cache.model, cache.disk.image);
      var magic := ReadSuper();
      panic := magic != FSMAGIC;
      if !panic {
        InitLog();
      }
    }

    // readsb, for its magic number.
    method ReadSuper() returns (magic: nat)
      requires cache.Valid() && Booted(cache.model, cache.disk.image)
      requires SUPERBLOCK < |cache.disk.image| && |cache.disk.image[SUPERBLOCK].words| == BLOCK_WORDS
      modifies cache`model, cache`order, cache.head, cache.bufs
      ensures cache.Valid() && Booted(cache.model, cache.disk.image)
      ensures magic == cache.disk.image[SUPERBLOCK].words[MAGIC]
    {
      ghost var c := PeekPass(cache.model, cache.disk.image, SUPERBLOCK);
      hide Booted, Cache.Valid;
      var buf := cache.Read(SUPERBLOCK);
      magic := buf.data.words[MAGIC];
      cache.Release(buf);
    }

    // initlog, on a cache that holds nothing but what is on disk.
    method InitLog()
      requires Unstarted() && cache.Valid() && Booted(cache.model, cache.disk.image) && GoodDisk(cache.disk.image, start)
      modifies `lh, `base, `boot, cache`model, cache`order, cache.head, cache.bufs, cache.disk
      ensures Valid() && Unstarted()
      ensures base == cache.disk.image == AfterRecovery(old(cache.disk.image), start) == Contents()
      ensures boot == cache.disk.trace == old(cache.disk.trace) + RecoveryWrites(old(cache.disk.image), start)
    {
      hide Cache.Valid, Consistent, History, RecoveryWrites, GoodDisk, Booted, AfterRecovery, Views;
      Recover();
      base, boot := cache.disk.image, cache.disk.trace;
      HistoryStarts(base, start, boot);
    }

    // read_head
    method ReadHead()
      requires cache.Valid() && Booted(cache.model, cache.disk.image) && GoodDisk(cache.disk.image, start)
      modifies `lh, cache`model, cache`order, cache.head, cache.bufs
      ensures cache.Valid() && Booted(cache.model, cache.disk.image)
      ensures lh == HeaderBlocks(cache.disk.image[start])
    {
      ghost var c := PeekPass(cache.model, cache.disk.image, start);
      hide Booted, Cache.Valid;
      var buf := cache.Read(start);
      CopyNumbers(buf.data.words);
      cache.Release(buf);
    }

    // Its loop.
    method CopyNumbers(words: seq<nat>)
      requires |words| > 0 && 1 + words[0] <= |words|
      modifies `lh
      ensures lh == words[1..1 + words[0]]
    {
      lh := [];
      for i := 0 to words[0]
        invariant lh == words[1..1 + i]
      {
        lh := lh + [words[1 + i]];
      }
    }

    // recover_from_log
    method Recover()
      requires cache.Valid() && Booted(cache.model, cache.disk.image) && GoodDisk(cache.disk.image, start)
      modifies `lh, cache`model, cache`order, cache.head, cache.bufs, cache.disk
      ensures cache.Valid() && lh == []
      ensures Consistent(cache.model, cache.disk.image, start, [], multiset{}) && Idle(cache.disk.image, start)
      ensures Views(cache.model, cache.disk.image) == cache.disk.image
      ensures cache.disk.image == AfterRecovery(old(cache.disk.image), start)
      ensures cache.disk.trace == old(cache.disk.trace) + RecoveryWrites(old(cache.disk.image), start)
    {
      hide Cache.Valid, Consistent, Idle, Installable, HeaderReady, Unpinned, Clean, WellFormed, WritesTo;
      ghost var img0 := cache.disk.image;
      ReadHead();
      ghost var refs0, slots := RefMap(cache.model), LogSlots(img0, start, |lh|);
      BootedIsInstallable(cache.model, img0, start);
      InstallAndErase(true, img0, slots, img0[start]);
      RecoveredIsConsistent(img0, refs0, cache.model, cache.disk.image, start);
    }

    // write_head: n and the first n block numbers of the header block change.
    method WriteHead(blocks: seq<nat>, ghost header: Block, ghost c: Pass)
      requires cache.Valid() && start < |cache.disk.image| && IsHeader(header) && |blocks| <= LOGBLOCKS
      requires View(cache.model, cache.disk.image, start) == header
      requires RewriteStates(cache.model, cache.disk.image, start, SetHeader(header, blocks), c)
      modifies cache`model, cache`order, cache.head, cache.bufs, cache.disk
      ensures cache.Valid() && cache.model == c.s2
      ensures cache.disk.image == old(cache.disk.image)[start := SetHeader(header, blocks)]
      ensures cache.disk.trace == old(cache.disk.trace) + [Write(start, SetHeader(header, blocks))]
    {
      var buf := cache.Read(start);
      var hb := SetHeader(buf.data, blocks);
      cache.StoreAndWrite(buf, hb);
      cache.Release(buf);
    }

    // write_log of a log that is not empty. false is the "no buffers" panic of a bread.
    method WriteLog(ghost v: Image, ghost contents: seq<Block>) returns (ok: bool)
      requires cache.Valid() && Sound(cache.model, cache.disk.image) && lh != []
      requires v == Views(cache.model, cache.disk.image)
      requires Loggable(cache.disk.image, v, RefMap(cache.model), contents, start, lh)
      modifies cache`model, cache`order, cache.head, cache.bufs, cache.disk
      ensures cache.Valid() && RefMap(cache.model) == old(RefMap(cache.model))
      ensures ok <==> !old(Full(cache.model))
      ensures !ok ==> cache.model == old(cache.model) && cache.disk.image == old(cache.disk.image) && cache.disk.trace == old(cache.disk.trace)
      ensures ok ==> Progress(old(cache.disk.image), v, LogWrites(start, contents), cache.model, cache.disk.image, |lh|)
      ensures ok ==> cache.disk.trace == old(cache.disk.trace) + LogWrites(start, contents)
    {
      hide Sound, Full, WritesTo, Apply, Views, RefMap, Progress, Cache.Valid;
      ghost var img0, refs, ws, full := cache.disk.image, RefMap(cache.model), LogWrites(start, contents), Full(cache.model);
      if !full { ProgressStart(cache.model, img0, ws); }
      assert cache.disk.trace + ws[..0] == cache.disk.trace;
      var tail := 0;
      while tail < |lh|
        invariant 0 <= tail <= |lh| && (full ==> tail == 0)
        invariant cache.Valid() && RefMap(cache.model) == refs
        invariant CopiedTo(img0, v, contents, old(cache.model), old(cache.disk.trace), tail)
      {
        ok := CopyTurn(tail, img0, v, contents, old(cache.model), old(cache.disk.trace));
        if !ok {
          return;
        }
        tail := tail + 1;
      }
      ok := true;
    }

    // The cache and the disk after t turns: a full cache stops the first.
    ghost predicate CopiedTo(img0: Image, v: Image, contents: seq<Block>, cs0: seq<Entry>, trace0: seq<Write>, t: nat)
      requires t <= |contents|
      reads this, cache, cache.disk
    {
      && (if Full(cs0) then cache.model == cs0 && cache.disk.image == img0
          else Progress(img0, v, LogWrites(start, contents), cache.model, cache.disk.image, t))
      && cache.disk.trace == trace0 + LogWrites(start, contents)[..t]
    }

    // One turn of write_log's loop.
    method CopyTurn(t: nat, ghost img0: Image, ghost v: Image, ghost contents: seq<Block>, ghost cs0: seq<Entry>, ghost trace0: seq<Write>)
      returns (ok: bool)
      requires t < |lh| == |contents| && cache.Valid() && Sound(cs0, img0) && (Full(cs0) ==> t == 0) && v == Views(cs0, img0)
      requires Loggable(img0, v, RefMap(cs0), contents, start, lh) && RefMap(cache.model) == RefMap(cs0)
      requires CopiedTo(img0, v, contents, cs0, trace0, t)
      modifies cache`model, cache`order, cache.head, cache.bufs, cache.disk
      ensures cache.Valid() && RefMap(cache.model) == RefMap(cs0) && (ok <==> !Full(cs0))
      ensures CopiedTo(img0, v, contents, cs0, trace0, if ok then t + 1 else t)
    {
      hide Sound, Full, WritesTo, Apply, Views;
      ghost var cs, img, ws := cache.model, cache.disk.image, LogWrites(start, contents);
      if !Full(cs0) { ProgressElsewhere(img0, v, ws, cs, img, t, lh[t]); }
      ok := cache.CopyBlock(start + t + 1, lh[t]);
      if ok {
        ProgressStep(img0, v, ws, t, cs, img, cache.model, cache.disk.image);
        TraceStep(trace0, ws, t);
      }
    }

    // install_trans: slots[i] is log slot i's contents.
    method InstallTrans(recovering: bool, ghost v: Image, ghost slots: seq<Block>)
      requires cache.Valid() && Sound(cache.model, cache.disk.image) && !Full(cache.model)
      requires v == Views(cache.model, cache.disk.image)
      requires Installable(recovering, cache.disk.image, v, RefMap(cache.model), slots, start, lh)
      modifies cache`model, cache`order, cache.head, cache.bufs, cache.disk
      ensures cache.Valid()
      ensures Progress(old(cache.disk.image), v, InstallWrites(lh, slots), cache.model, cache.disk.image, |lh|)
      ensures Unpinned(RefMap(cache.model), old(RefMap(cache.model)), lh, |lh|, !recovering)
      ensures cache.disk.trace == old(cache.disk.trace) + InstallWrites(lh, slots)
    {
      hide Sound, Full, WritesTo, Apply, Views;
      ghost var img0, refs, ws := cache.disk.image, RefMap(cache.model), InstallWrites(lh, slots);
      ProgressStart(cache.model, img0, ws);
      var tail := 0;
      while tail < |lh|
        invariant 0 <= tail <= |lh|
        invariant cache.Valid()
        invariant Unpinned(RefMap(cache.model), refs, lh, tail, !recovering)
        invariant Progress(img0, v, ws, cache.model, cache.disk.image, tail)
        invariant cache.disk.trace == old(cache.disk.trace) + ws[..tail]
      {
        TraceStep(old(cache.disk.trace), ws, tail);
        InstallOne(recovering, tail, img0, v, refs, ws, slots);
        tail := tail + 1;
      }
    }

    // One iteration of install_trans.
    method InstallOne(recovering: bool, t: nat, ghost img0: Image, ghost v: Image, ghost refs: imap<nat, nat>,
                      ghost ws: seq<Write>, ghost slots: seq<Block>)
      requires t < |lh| && |slots| == |lh| && ws == InstallWrites(lh, slots)
      requires cache.Valid() && Progress(img0, v, ws, cache.model, cache.disk.image, t)
      requires Unpinned(RefMap(cache.model), refs, lh, t, !recovering)
      requires Installable(recovering, img0, v, refs, slots, start, lh)
      modifies cache`model, cache`order, cache.head, cache.bufs, cache.disk
      ensures cache.Valid() && Progress(img0, v, ws, cache.model, cache.disk.image, t + 1)
      ensures Unpinned(RefMap(cache.model), refs, lh, t + 1, !recovering)
      ensures cache.disk.trace == old(cache.disk.trace) + [ws[t]]
    {
      hide Sound, Full, Apply;
      ghost var cs, img := cache.model, cache.disk.image;
      ProgressElsewhere(img0, v, ws, cs, img, t, start + t + 1);
      UnpinStep(RefMap(cs), refs, lh, t, !recovering);
      cache.InstallBlock(start + t + 1, lh[t], !recovering);
      ProgressStep(img0, v, ws, t, cs, img, cache.model, cache.disk.image);
    }

    // The first half of commit: everything up to the commit point.
    method LogBlocks(ghost v: Image, ghost contents: seq<Block>) returns (ok: bool)
      requires cache.Valid() && Sound(cache.model, cache.disk.image) && lh != []
      requires v == Views(cache.model, cache.disk.image)
      requires ReadyToLog(cache.disk.image, v, RefMap(cache.model), contents, start, lh)
      modifies cache`model, cache`order, cache.head, cache.bufs, cache.disk
      ensures cache.Valid() && RefMap(cache.model) == old(RefMap(cache.model))
      ensures ok <==> !old(Full(cache.model))
      ensures !ok ==> cache.model == old(cache.model) && cache.disk.image == old(cache.disk.image) && cache.disk.trace == old(cache.disk.trace)
      ensures ok ==> Logged(old(cache.disk.image), v, cache.model, cache.disk.image, start, lh, contents)
      ensures ok ==> cache.disk.trace == old(cache.disk.trace) + (LogWrites(start, contents) + [Write(start, SetHeader(old(cache.disk.image)[start], lh))])
    {
      ghost var img0, header := cache.disk.image, cache.disk.image[start];
      ok := WriteLog(v, contents);
      if !ok {
        return;
      }
      ghost var cs1, img1 := cache.model, cache.disk.image;
      ProgressElsewhere(img0, v, LogWrites(start, contents), cs1, img1, |lh|, start);
      HeadPass(lh, header);
      ProgressJoin(img0, v, LogWrites(start, contents), cs1, img1, [Write(start, SetHeader(header, lh))], cache.model, cache.disk.image);
    }

    // write_head as one more write.
    method HeadPass(blocks: seq<nat>, ghost header: Block)
      requires cache.Valid() && Sound(cache.model, cache.disk.image) && !Full(cache.model)
      requires start < |cache.disk.image| && IsHeader(header) && |blocks| <= LOGBLOCKS
      requires Views(cache.model, cache.disk.image)[start] == header && RefMap(cache.model)[start] == 0
      modifies cache`model, cache`order, cache.head, cache.bufs, cache.disk
      ensures cache.Valid() && RefMap(cache.model) == old(RefMap(cache.model))
      ensures Progress(old(cache.disk.image), old(Views(cache.model, cache.disk.image)), [Write(start, SetHeader(header, blocks))],
                       cache.model, cache.disk.image, 1)
      ensures cache.disk.trace == old(cache.disk.trace) + [Write(start, SetHeader(header, blocks))]
    {
      ghost var cs, img, data := cache.model, cache.disk.image, SetHeader(header, blocks);
      ghost var c := RewritePass(cs, img, start, data);
      ProgressOne(cs, img, Write(start, data), c.s2);
      WriteHead(blocks, header, c);
    }

    // The second half: install at home, unpin, erase the log.
    method InstallAndErase(recovering: bool, ghost v: Image, ghost slots: seq<Block>, ghost header: Block)
      requires cache.Valid() && Sound(cache.model, cache.disk.image) && !Full(cache.model)
      requires v == Views(cache.model, cache.disk.image) && HeaderReady(v, RefMap(cache.model), start, lh, header)
      requires Installable(recovering, cache.disk.image, v, RefMap(cache.model), slots, start, lh)
      modifies `lh, cache`model, cache`order, cache.head, cache.bufs, cache.disk
      ensures cache.Valid() && lh == []
      ensures Unpinned(RefMap(cache.model), old(RefMap(cache.model)), old(lh), |old(lh)|, !recovering)
      ensures var ws := InstallWrites(old(lh), slots) + [Write(start, SetHeader(header, []))];
              && Progress(old(cache.disk.image), v, ws, cache.model, cache.disk.image, |ws|)
              && cache.disk.trace == old(cache.disk.trace) + ws
    {
      hide Sound, Full, WritesTo, Apply, Views;
      ghost var img0, ws := cache.disk.image, InstallWrites(lh, slots);
      InstallTrans(recovering, v, slots);
      ghost var cs1, img1 := cache.model, cache.disk.image;
      ProgressElsewhere(img0, v, ws, cs1, img1, |lh|, start);
      lh := [];
      HeadPass([], header);
      ProgressJoin(img0, v, ws, cs1, img1, [Write(start, SetHeader(header, []))], cache.model, cache.disk.image);
    }

    // commit of a log that is not empty.
    method CommitBlocks(ghost contents: seq<Block>) returns (ok: bool)
      requires cache.Valid() && Committable(cache.model, cache.disk.image, start, lh, contents) && lh != []
      modifies `lh, cache`model, cache`order, cache.head, cache.bufs, cache.disk
      ensures ok <==> !old(Full(cache.model))
      ensures !ok ==> cache.disk.image == old(cache.disk.image) && cache.disk.trace == old(cache.disk.trace)
      ensures ok ==> cache.Valid() && lh == []
      ensures ok ==> Finished(old(cache.disk.image), old(Views(cache.model, cache.disk.image)), old(RefMap(cache.model)),
                       cache.model, cache.disk.image, start, old(lh), contents)
      ensures ok ==> cache.disk.trace == old(cache.disk.trace) + CommitWrites(old(cache.disk.image)[start], start, old(lh), contents)
    {
      ghost var cs0, img0, v0, blocks := cache.model, cache.disk.image, Views(cache.model, cache.disk.image), lh;
      ghost var header := SetHeader(img0[start], lh);
      CommittableIsLoggable(cs0, img0, start, lh, contents);
      ok := LogBlocks(v0, contents);
      if !ok {
        return;
      }
      ghost var cs1, img1 := cache.model, cache.disk.image;
      LoggedIsInstallable(img0, v0, RefMap(cs0), cs1, img1, start, lh, contents);
      InstallAndErase(false, Views(cs1, img1), contents, header);
      LoggedThenErased(img0, v0, RefMap(cs0), cs1, img1, cache.model, cache.disk.image, start, blocks, contents);
      TraceJoin(old(cache.disk.trace), LogWrites(start, contents) + [Write(start, header)],
                InstallWrites(blocks, contents) + [Write(start, SetHeader(header, []))]);
    }

    // commit. false is the "no buffers" panic of the first bread in write_log.
    method Commit(ghost contents: seq<Block>) returns (ok: bool)
      requires cache.Valid() && Committable(cache.model, cache.disk.image, start, lh, contents)
      modifies `lh, cache`model, cache`order, cache.head, cache.bufs, cache.disk
      ensures ok <==> old(lh) == [] || !Full(old(cache.model))
      ensures !ok ==> cache.disk.image == old(cache.disk.image) && cache.disk.trace == old(cache.disk.trace)
      ensures ok ==> cache.Valid() && lh == [] && Coherent(cache.model, cache.disk.image, start, []) && Idle(cache.disk.image, start)
      ensures ok ==> Unpinned(RefMap(cache.model), old(RefMap(cache.model)), old(lh), |old(lh)|, true)
      ensures ok ==> SameHome(Views(cache.model, cache.disk.image), old(Views(cache.model, cache.disk.image)), start)
      ensures ok ==> cache.disk.trace == old(cache.disk.trace) + CommitWrites(old(cache.disk.image)[start], start, old(lh), contents)
      ensures ok ==> cache.disk.image == Apply(old(cache.disk.image), CommitWrites(old(cache.disk.image)[start], start, old(lh), contents))
    {
      hide Cache.Valid, Coherent, Views, Apply, CommitWrites;
      if lh == [] {
        EmptyCommit(cache.disk.image, cache.disk.image[start], start);
        return true;
      }
      ghost var cs0, img0, blocks := cache.model, cache.disk.image, lh;
      ok := CommitBlocks(contents);
      if !ok {
        return false;
      }
      FinishedIsCoherent(cs0, img0, cache.model, cache.disk.image, start, blocks, contents);
      return true;
    }

    // One turn of begin_op's loop; false is a call of sleep.
    method BeginOp(ghost op: nat) returns (admitted: bool)
      requires Valid() && op !in ops
      modifies `outstanding, `ops
      ensures Valid() && Contents() == old(Contents())
      ensures admitted <==> A.Begin(old(Admission()), op).Some?
      ensures admitted ==> A.Begin(old(Admission()), op) == Some(Admission())
      ensures !admitted ==> ops == old(ops)
    {
      hide Cache.Valid, Consistent, History, Views, A.Sound;
      A.BeginKeepsSound(Admission(), op, MAXOPBLOCKS);
      if committing {
        return false;
      } else if |lh| + (outstanding + 1) * MAXOPBLOCKS > LOGBLOCKS {
        return false;
      }
      outstanding := outstanding + 1;
      ops := ops[op := {}];
      return true;
    }

    // bread for a client. null is the "no buffers" panic.
    method Read(bn: nat) returns (b: Buf?)
      requires Valid() && Home(start, |cache.disk.image|, bn)
      modifies `held, cache`model, cache.bufs`dev, cache.bufs`blockno, cache.bufs`valid, cache.bufs`refcnt, cache.bufs`data
      ensures Valid() && Contents() == old(Contents())
      ensures b == null <==> |old(InUse())| == NBUF && bn !in old(InUse())
      ensures b == null ==> held == old(held)
      ensures b != null ==> cache.Owns(b, bn) && b.data == Contents()[bn] && held == old(held) + multiset{bn}
    {
      hide Cache.Valid, Consistent, History, Views, A.Sound;
      ReadConsistent(cache.model, cache.disk.image, start, lh, held, bn);
      b := cache.Read(bn);
      if b != null {
        held := held + multiset{bn};
      }
    }

    // brelse for a client.
    method Release(b: Buf)
      requires Valid() && cache.Owns(b, b.blockno) && held[b.blockno] > 0
      modifies `held, cache`model, cache`order, cache.head`next, cache.head`prev, cache.bufs`next, cache.bufs`prev, b`refcnt
      ensures Valid() && Contents() == old(Contents())
      ensures held == old(held) - multiset{b.blockno}
    {
      hide Cache.Valid, Consistent, History, Views, A.Sound;
      ReleaseConsistent(cache.model, cache.disk.image, start, lh, held, b.blockno);
      cache.Release(b);
      held := held - multiset{b.blockno};
    }

    // log_write. false is one of its two panics.
    method LogWrite(ghost op: nat, b: Buf) returns (ok: bool)
      requires cache.Valid() && cache.Owns(b, b.blockno) && outstanding == |ops| && op in ops
      modifies `lh, `ops, cache`model, b`refcnt
      ensures ok <==> A.LogBlock(old(Admission()), op, b.blockno).Some?
      ensures ok ==> A.LogBlock(old(Admission()), op, b.blockno) == Some(Admission())
      ensures ok ==> cache.Valid() && lh == Logging(old(lh), b.blockno)
      ensures ok ==> cache.model == if b.blockno in old(lh) then old(cache.model) else Adjust(old(cache.model), b.blockno, 1)
    {
      if |lh| >= LOGBLOCKS {
        return false;
      }
      if outstanding < 1 {
        return false;
      }
      var i := 0;
      while i < |lh|
        invariant 0 <= i <= |lh| && b.blockno !in lh[..i]
      {
        if lh[i] == b.blockno {
          break;
        }
        i := i + 1;
      }
      ghost var was := lh;
      if i == |lh| {
        cache.Pin(b);
        lh := lh + [b.blockno];
      } else {
        lh := lh[i := b.blockno];
        assert lh == was;
      }
      ops := ops[op := ops[op] + {b.blockno}];
      return true;
    }

    // A client changes the data of a buffer it holds and calls log_write.
    method Update(ghost op: nat, b: Buf, data: Block) returns (ok: bool)
      requires Valid() && op in ops && cache.Owns(b, b.blockno) && held[b.blockno] > 0
      requires |ops[op] + {b.blockno}| <= MAXOPBLOCKS
      modifies `lh, `ops, cache`model, b`data, b`refcnt
      ensures ok <==> |old(lh)| < LOGBLOCKS
      ensures ok ==> A.LogBlock(old(Admission()), op, b.blockno) == Some(Admission())
      ensures ok ==> Valid() && b.blockno < |old(Contents())| && Contents() == old(Contents())[b.blockno := data]
    {
      hide Cache.Valid, Consistent, History, Views, A.Sound;
      A.LogBlockKeepsSound(Admission(), op, b.blockno, MAXOPBLOCKS);
      ghost var cs, bn, pinned := cache.model, b.blockno, b.blockno in lh;
      if |lh| < LOGBLOCKS {
        UpdateConsistent(cs, cache.disk.image, start, lh, held, bn, data);
      }
      cache.SetData(b, data);
      ok := LogWrite(op, b);
      assert ok ==> cache.model == Modified(cs, bn, data, !pinned);
    }

    // end_op up to the release of log.lock. By A.EndKeepsSound its panic is out of reach.
    method EndOp(ghost op: nat) returns (doCommit: bool)
      requires Valid() && op in ops
      modifies `outstanding, `committing, `ops
      ensures Valid() && Contents() == old(Contents())
      ensures A.End(old(Admission()), op) == Some(Admission()) && doCommit == committing
    {
      hide Consistent, History, Cache.Valid, Views, A.Sound;
      A.EndKeepsSound(Admission(), op, MAXOPBLOCKS);
      assert op in ops.Keys;
      ghost var rest := ops - {op};
      assert rest.Keys == ops.Keys - {op};
      outstanding := outstanding - 1;
      assert !committing;
      ops := rest;
      if outstanding == 0 {
        doCommit, committing := true, true;
      } else {
        doCommit := false;
      }
    }

    // The rest of end_op, for the last operation. false is the "no buffers" panic.
    method FinishCommit() returns (ok: bool)
      requires Valid() && committing
      modifies `lh, `committing, `groups, cache`model, cache`order, cache.head, cache.bufs, cache.disk
      ensures ok <==> old(lh) == [] || |old(InUse())| < NBUF
      ensures ok ==> Valid() && Admission() == A.Committed(old(Admission()))
      ensures ok ==> SameHome(Contents(), old(Contents()), start) && Contents() == cache.disk.image
      ensures ok ==> groups == old(groups) + if old(lh) == [] then [] else [Group(old(lh), Pick(old(Contents()), old(lh)))]
    {
      hide Consistent, History, Cache.Valid, Views, Committable, GoodGroup, Unpinned, Coherent, Idle, Apply, CommitWrites, SameHome, Full, Used;
      ghost var cs, img, lh0, trace0 := cache.model, cache.disk.image, lh, cache.disk.trace;
      FullWhenThirtyUsed(cs, img, start, lh, held);
      HistoryIsIdle(base, start, groups, img, trace0[|boot|..]);
      ConsistentIsCommittable(cs, img, start, lh, held);
      ghost var contents := Pick(Contents(), lh);
      CommitHistory(base, start, groups, img, trace0[|boot|..], lh, contents);
      TraceTail(boot, trace0, CommitWrites(img[start], start, lh, contents));
      ok := Commit(contents);
      if ok {
        CommitConsistent(cs, img, cache.model, cache.disk.image, start, lh0, held);
        groups := groups + if lh0 == [] then [] else [Group(lh0, contents)];
        committing := false;
      }
    }
  }
}
