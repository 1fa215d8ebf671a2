// What holds of the cache, the disk and the log header between the steps of
// kernel/log.c, and how those steps move it along.

module LogStates {
  import opened BufferCacheModel
  import opened BufferCache
  import opened LogModel

  ghost predicate Distinct(lh: seq<nat>) {
    forall i, j | 0 <= i < j < |lh| :: lh[i] != lh[j]
  }

  // Everything cached agrees with the disk, except the blocks waiting in the log;
  // nobody holds a block of the log itself.
  ghost predicate Coherent(cs: seq<Entry>, img: Image, start: nat, lh: seq<nat>) {
    && Sound(cs, img)
    && start + LOGBLOCKS < |img|
    && GoodBlocks(lh, start, |img|) && Distinct(lh)
    && HeldOutsideLog(RefMap(cs), start, |img|)
    && AgreeExcept(Views(cs, img), img, lh)
  }

  ghost predicate HeldOutsideLog(refs: imap<nat, nat>, start: nat, size: nat) {
    forall b: nat | b in refs && refs[b] > 0 :: b < size && !InLog(start, b)
  }

  ghost predicate AgreeExcept(views: Image, img: Image, lh: seq<nat>) {
    && |views| == |img|
    && forall b: nat | b < |img| && b !in lh :: views[b] == img[b]
  }

  // contents is what readers see of the blocks the log names.
  ghost predicate Picked(contents: seq<Block>, views: Image, lh: seq<nat>) {
    && |contents| == |lh|
    && forall i | 0 <= i < |lh| :: lh[i] < |views| && contents[i] == views[lh[i]]
  }

  lemma TraceStep(trace: seq<Write>, ws: seq<Write>, t: nat)
    requires t < |ws|
    ensures trace + ws[..t] + [ws[t]] == trace + ws[..t + 1]
  {
  }

  // A loop over writes ws, started with disk img0 and readers' view v0, has done t of
  // them: the disk and the readers have seen just those.
  ghost predicate Progress(img0: Image, v0: Image, ws: seq<Write>, cs: seq<Entry>, img: Image, t: nat)
    requires t <= |ws|
  {
    && Sound(cs, img) && !Full(cs)
    && img == Apply(img0, ws[..t])
    && Views(cs, img) == Apply(v0, ws[..t])
  }

  lemma ProgressStep(img0: Image, v0: Image, ws: seq<Write>, t: nat,
                     cs: seq<Entry>, img: Image, cs': seq<Entry>, img': Image)
    requires t < |ws| && ws[t].blockno < |img| == |img0| == |v0|
    requires Progress(img0, v0, ws, cs, img, t)
    requires Sound(cs', img') && !Full(cs') && img' == img[ws[t].blockno := ws[t].data]
    requires Views(cs', img') == Views(cs, img)[ws[t].blockno := ws[t].data]
    ensures Progress(img0, v0, ws, cs', img', t + 1)
  {
    ApplyPrefixStep(img0, ws, t);
    ApplyPrefixStep(v0, ws, t);
  }

  lemma ProgressStart(cs: seq<Entry>, img: Image, ws: seq<Write>)
    requires Sound(cs, img) && !Full(cs)
    ensures Progress(img, Views(cs, img), ws, cs, img, 0)
  {
    assert Apply(img, ws[..0]) == img;
    assert Apply(Views(cs, img), ws[..0]) == Views(cs, img);
  }

  // Blocks the writes done so far have not touched still look as they did.
  lemma ProgressElsewhere(img0: Image, v0: Image, ws: seq<Write>, cs: seq<Entry>, img: Image, t: nat, b: nat)
    requires t <= |ws| && |img0| == |v0| && b < |img0| && Progress(img0, v0, ws, cs, img, t)
    requires forall i | 0 <= i < t :: ws[i].blockno != b
    ensures img[b] == img0[b] && Views(cs, img)[b] == v0[b]
  {
  }

  lemma UnpinStep(refs: imap<nat, nat>, refs0: imap<nat, nat>, lh: seq<nat>, t: nat, unpin: bool)
    requires t < |lh| && Unpinned(refs, refs0, lh, t, unpin)
    requires lh[t] in refs0 && (unpin ==> Distinct(lh) && refs0[lh[t]] > 0)
    ensures lh[t] in refs && refs[lh[t]] + (if unpin then -1 else 0) >= 0
    ensures unpin ==> refs[lh[t]] > 0
    ensures !unpin ==> refs == refs0
    ensures Unpinned(refs[lh[t] := refs[lh[t]] + (if unpin then -1 else 0)], refs0, lh, t + 1, unpin)
  {
    if unpin {
      assert refs[lh[t]] == refs0[lh[t]];
    } else {
      assert refs[lh[t] := refs[lh[t]]] == refs;
    }
  }

  // The blocks in the log are pinned home blocks, and nobody holds a log slot.
  ghost predicate Loggable(img: Image, v: Image, refs: imap<nat, nat>, contents: seq<Block>, start: nat, lh: seq<nat>)
  {
    && Picked(contents, v, lh) && |v| == |img| && start + |lh| < |img|
    && (forall i | 0 <= i < |lh| :: !(start < lh[i] <= start + |lh|) && lh[i] in refs && refs[lh[i]] > 0)
    && (forall b: nat | start < b <= start + |lh| :: b in refs && refs[b] == 0)
  }

  // Log slot i holds slots[i], the readers agree, and no slot is anybody's home block.
  // The home blocks are pinned, or nobody holds anything because the system is booting.
  ghost predicate Installable(recovering: bool, img: Image, v: Image, refs: imap<nat, nat>, slots: seq<Block>, start: nat, lh: seq<nat>)
  {
    && (if recovering then forall b: nat :: b in refs && refs[b] == 0 else Distinct(lh) && Pinned(refs, lh))
    && |slots| == |lh| && |v| == |img| && start + |lh| < |img|
    && (forall i | 0 <= i < |lh| :: img[start + i + 1] == slots[i] && v[start + i + 1] == slots[i])
    && (forall i | 0 <= i < |lh| :: lh[i] < |img| && !(start < lh[i] <= start + |lh|))
    && (forall b: nat | start < b <= start + |lh| :: b in refs && refs[b] == 0)
  }

  ghost predicate Pinned(refs: imap<nat, nat>, lh: seq<nat>) {
    forall i | 0 <= i < |lh| :: lh[i] in refs && refs[lh[i]] > 0
  }

  // The header block is not held, not logged, and reads as header.
  ghost predicate HeaderReady(v: Image, refs: imap<nat, nat>, start: nat, lh: seq<nat>, header: Block) {
    IsHeader(header) && start < |v| && v[start] == header && start in refs && refs[start] == 0 && start !in lh
  }

  // refs is refs0, or refs0 with one reference to each of the first t blocks dropped.
  ghost predicate Unpinned(refs: imap<nat, nat>, refs0: imap<nat, nat>, lh: seq<nat>, t: nat, unpin: bool)
    requires t <= |lh|
  {
    if unpin then
      && refs.Keys == refs0.Keys
      && forall b | b in refs :: refs0[b] == refs[b] + (if b in lh[..t] then 1 else 0)
    else refs == refs0
  }

  // One loop after another.
  lemma ProgressJoin(img0: Image, v0: Image, a: seq<Write>, cs1: seq<Entry>, img1: Image,
                     b: seq<Write>, cs2: seq<Entry>, img2: Image)
    requires Progress(img0, v0, a, cs1, img1, |a|) && Progress(img1, Views(cs1, img1), b, cs2, img2, |b|)
    ensures Progress(img0, v0, a + b, cs2, img2, |a + b|)
  {
    assert a[..|a|] == a && b[..|b|] == b && (a + b)[..|a + b|] == a + b;
    ApplyConcat(img0, a, b);
    ApplyConcat(v0, a, b);
  }

  lemma ProgressOne(cs: seq<Entry>, img: Image, w: Write, cs': seq<Entry>)
    requires w.blockno < |img| && Sound(cs', img[w.blockno := w.data]) && !Full(cs')
    requires Views(cs', img[w.blockno := w.data]) == Views(cs, img)[w.blockno := w.data]
    ensures Progress(img, Views(cs, img), [w], cs', img[w.blockno := w.data], 1)
  {
    assert [w][..1] == [] + [w];
    assert Apply(img, []) == img && Apply(Views(cs, img), []) == Views(cs, img);
    ApplySnoc(img, [], w);
    ApplySnoc(Views(cs, img), [], w);
  }

  // The situation commit starts from: the log on disk is idle, its blocks are pinned.
  ghost predicate Committable(cs: seq<Entry>, img: Image, start: nat, lh: seq<nat>, contents: seq<Block>) {
    && Coherent(cs, img, start, lh) && Idle(img, start)
    && Pinned(RefMap(cs), lh) && Picked(contents, Views(cs, img), lh)
  }

  ghost predicate ReadyToLog(img: Image, v: Image, refs: imap<nat, nat>, contents: seq<Block>, start: nat, lh: seq<nat>) {
    && |lh| <= LOGBLOCKS && Distinct(lh) && start < |img|
    && Loggable(img, v, refs, contents, start, lh)
    && HeaderReady(v, refs, start, lh, img[start])
  }

  lemma CommittableIsLoggable(cs: seq<Entry>, img: Image, start: nat, lh: seq<nat>, contents: seq<Block>)
    requires Committable(cs, img, start, lh, contents)
    ensures ReadyToLog(img, Views(cs, img), RefMap(cs), contents, start, lh)
  {
    assert forall b: nat | start <= b <= start + LOGBLOCKS :: InLog(start, b);
  }

  // The commit point has been reached.
  ghost predicate Logged(img0: Image, v0: Image, cs: seq<Entry>, img: Image, start: nat, lh: seq<nat>, contents: seq<Block>)
    requires start < |img0| && IsHeader(img0[start]) && |lh| <= LOGBLOCKS
  {
    var ws := LogWrites(start, contents) + [Write(start, SetHeader(img0[start], lh))];
    Progress(img0, v0, ws, cs, img, |ws|)
  }

  lemma LoggedImage(img: Image, start: nat, contents: seq<Block>, header: Block)
    requires start + |contents| < |img|
    ensures var r := Apply(img, LogWrites(start, contents) + [Write(start, header)]);
            && r[start] == header
            && forall i | 0 <= i < |contents| :: r[start + i + 1] == contents[i]
  {
    ApplySnoc(img, LogWrites(start, contents), Write(start, header));
    forall i | 0 <= i < |contents|
      ensures Apply(img, LogWrites(start, contents))[start + i + 1] == contents[i]
    {
      assert IsLast(LogWrites(start, contents), start + i + 1, i);
    }
  }

  // Then the log slots hold the transaction, on the disk and for readers.
  lemma LoggedIsInstallable(img0: Image, v0: Image, refs: imap<nat, nat>, cs: seq<Entry>, img: Image,
                            start: nat, lh: seq<nat>, contents: seq<Block>)
    requires ReadyToLog(img0, v0, refs, contents, start, lh)
    requires Logged(img0, v0, cs, img, start, lh, contents)
    ensures Installable(false, img, Views(cs, img), refs, contents, start, lh)
    ensures HeaderReady(Views(cs, img), refs, start, lh, SetHeader(img0[start], lh))
  {
    var header := SetHeader(img0[start], lh);
    var ws := LogWrites(start, contents) + [Write(start, header)];
    assert ws[..|ws|] == ws;
    LoggedImage(img0, start, contents, header);
    LoggedImage(v0, start, contents, header);
  }

  lemma CommitSplits(header: Block, start: nat, lh: seq<nat>, contents: seq<Block>)
    requires IsHeader(header) && |lh| == |contents| <= LOGBLOCKS && lh != []
    ensures CommitWrites(header, start, lh, contents)
         == (LogWrites(start, contents) + [Write(start, SetHeader(header, lh))])
          + (InstallWrites(lh, contents) + [Write(start, SetHeader(SetHeader(header, lh), []))])
  {
  }

  // What a finished commit leaves: disk and readers have seen all of its writes, and
  // the pins are gone.
  ghost predicate Finished(img0: Image, v0: Image, refs0: imap<nat, nat>, cs: seq<Entry>, img: Image,
                           start: nat, lh: seq<nat>, contents: seq<Block>)
    requires start < |img0| && IsHeader(img0[start]) && |lh| == |contents| <= LOGBLOCKS
  {
    var ws := CommitWrites(img0[start], start, lh, contents);
    Progress(img0, v0, ws, cs, img, |ws|) && Unpinned(RefMap(cs), refs0, lh, |lh|, true)
  }

  lemma LoggedThenErased(img0: Image, v0: Image, refs0: imap<nat, nat>, cs1: seq<Entry>, img1: Image,
                         cs2: seq<Entry>, img2: Image, start: nat, lh: seq<nat>, contents: seq<Block>)
    requires start < |img0| && IsHeader(img0[start]) && |lh| == |contents| <= LOGBLOCKS && lh != []
    requires Logged(img0, v0, cs1, img1, start, lh, contents)
    requires var ws := InstallWrites(lh, contents) + [Write(start, SetHeader(SetHeader(img0[start], lh), []))];
             Progress(img1, Views(cs1, img1), ws, cs2, img2, |ws|)
    requires Unpinned(RefMap(cs2), refs0, lh, |lh|, true)
    ensures Finished(img0, v0, refs0, cs2, img2, start, lh, contents)
    ensures CommitWrites(img0[start], start, lh, contents)
         == (LogWrites(start, contents) + [Write(start, SetHeader(img0[start], lh))])
          + (InstallWrites(lh, contents) + [Write(start, SetHeader(SetHeader(img0[start], lh), []))])
  {
    CommitSplits(img0[start], start, lh, contents);
    ProgressJoin(img0, v0, LogWrites(start, contents) + [Write(start, SetHeader(img0[start], lh))], cs1, img1,
                 InstallWrites(lh, contents) + [Write(start, SetHeader(SetHeader(img0[start], lh), []))], cs2, img2);
  }

  lemma TraceJoin(trace: seq<Write>, a: seq<Write>, b: seq<Write>)
    ensures trace + a + b == trace + (a + b)
  {
  }

  // The readers lose nothing by a commit, and the disk catches up with them.
  lemma FinishedIsCoherent(cs0: seq<Entry>, img0: Image, cs: seq<Entry>, img: Image,
                           start: nat, lh: seq<nat>, contents: seq<Block>)
    requires Committable(cs0, img0, start, lh, contents) && lh != []
    requires Finished(img0, Views(cs0, img0), RefMap(cs0), cs, img, start, lh, contents)
    ensures Coherent(cs, img, start, []) && Idle(img, start)
    ensures SameHome(Views(cs, img), Views(cs0, img0), start)
  {
    var ws, g, v0 := CommitWrites(img0[start], start, lh, contents), Group(lh, contents), Views(cs0, img0);
    assert ws[..|ws|] == ws;
    assert InLog(start, start) && v0[start] == img0[start];
    CommitCompletes(img0, start, g);
    CommitCompletes(v0, start, g);
    forall i | 0 <= i < |lh|
      ensures exists j :: 0 <= j < |ws| && ws[j].blockno == lh[i]
    {
      CommitWritesHome(img0[start], start, lh, contents, i);
    }
    ApplyReconciles(v0, img0, ws, lh);
  }

  lemma CommitWritesHome(header: Block, start: nat, lh: seq<nat>, contents: seq<Block>, i: nat)
    requires IsHeader(header) && |lh| == |contents| <= LOGBLOCKS && i < |lh|
    ensures var ws := CommitWrites(header, start, lh, contents);
            |lh| + 1 + i < |ws| && ws[|lh| + 1 + i].blockno == lh[i]
  {
  }

  // Writes reconcile two images that differ only in blocks they write.
  lemma ApplyReconciles(a: Image, b: Image, ws: seq<Write>, lh: seq<nat>)
    requires AgreeExcept(a, b, lh)
    requires forall i | 0 <= i < |lh| :: exists j :: 0 <= j < |ws| && ws[j].blockno == lh[i]
    ensures Apply(a, ws) == Apply(b, ws)
  {
    forall bn: nat | bn < |a|
      ensures Apply(a, ws)[bn] == Apply(b, ws)[bn]
    {
      if LastWrite(ws, bn) < 0 { assert bn !in lh; }
    }
  }
}
