// The second place where S.H.A.M. stops for good: all the window is lost.

module ShamShut {
  import opened Bytes
  import opened ShamModel
  import opened ShamDelivery
  import opened ShamWindow
  import opened ShamStall

  // Everything sent is acknowledged, the offer is 0, and the client has not met the end of
  // the file.
  ghost predicate Shut(y: System) {
    y.s.base == y.s.next && y.s.window == 0 && !y.s.complete
  }

  // With nothing in flight, only this, a base past the limit and the end of the file keep the
  // client from sending.
  lemma QuietIff(s: Sender)
    requires s.base == s.next < UINT32
    ensures !MaySend(s) <==> s.complete || s.window == 0 || s.base >= UINT32 - WINDOW_BYTES
  {
    WindowGuard(s.base, s.next);
    assert Sub32(s.next, s.base) == 0;
  }

  // Nothing in the sender but the ring can change.
  ghost predicate SameSender(s: Sender, t: Sender) {
    t == s.(ring := t.ring)
  }

  lemma RefillShut(s: Sender, file: seq<byte>)
    requires Shaped(s) && s.base == s.next && s.window == 0
    ensures Refill(s, file) == (s, [])
  {
  }

  lemma NextKeepsShut(y: System, file: seq<byte>, e: Step)
    requires Inv(y, file) && |file| + 1 < UINT32 && Shut(y) && Enabled(y, e)
    ensures Shut(Next(y, file, e)) && SameSender(y.s, Next(y, file, e).s)
    ensures Next(y, file, e).packets == y.packets && !Next(y, file, e).closed
  {
    hide RingInv, BufferInv, Receive, Boundary;
    SenderParts(y, file);
    match e {
      case SenderRefills => RefillShut(y.s, file);
      case SenderSweeps(late) => NoneToResend(y.s, file, late);
      case _ =>
    }
  }

  // All that is in the ring has been acknowledged.
  lemma NoneToResend(s: Sender, file: seq<byte>, late: seq<bool>)
    requires SenderInv(s, file) && s.base == s.next && |late| == |s.ring|
    ensures Resent(s.ring, s.base, late, |s.ring|) == []
  {
    var ps := Resent(s.ring, s.base, late, |s.ring|);
    forall i | 0 <= i < |s.ring|
      ensures !Retransmits(s.ring[i], s.base, late[i])
    {
      assert s.ring[i].valid ==> Sent(s.ring[i].seqNum, s.ring[i].data, s.next, file);
    }
    NoneResent(s.ring, s.base, late, |s.ring|);
  }

  lemma {:induction false} NoneResent(ring: seq<Slot>, base: nat, late: seq<bool>, n: nat)
    requires n <= |ring| == |late| && forall i | 0 <= i < n :: !Retransmits(ring[i], base, late[i])
    ensures Resent(ring, base, late, n) == []
  {
    if n > 0 { NoneResent(ring, base, late, n - 1); }
  }

  // From then on the client reads nothing, sends nothing new and resends nothing, whatever
  // arrives; it never finishes, and the server has what it had.
  lemma {:induction false} ShutForever(y: System, file: seq<byte>, run: seq<Step>)
    requires Inv(y, file) && |file| + 1 < UINT32 && Shut(y) && CanRun(y, file, run)
    ensures var z := After(y, file, run);
            && Shut(z) && SameSender(y.s, z.s) && z.packets == y.packets && !z.closed
            && z.r.output == y.r.output == file[..y.s.offset]
    decreases |run|
  {
    hide Enabled, Next, SenderInv, ReceiverInv, Shut;
    AllWritten(y, file);
    if run != [] {
      var y1 := Next(y, file, run[0]);
      NextKeepsShut(y, file, run[0]);
      NextKeepsInv(y, file, run[0]);
      ShutForever(y1, file, run[1..]);
    } else {
      assert Shut(y) && !y.closed by { NotClosed(y, file); }
    }
  }

  lemma NotClosed(y: System, file: seq<byte>)
    requires Inv(y, file) && Shut(y)
    ensures !y.closed
  {
  }

  lemma AllWritten(y: System, file: seq<byte>)
    requires Inv(y, file) && Shut(y)
    ensures y.s.offset <= |file| && y.r.expected == y.s.next && y.r.output == file[..y.s.offset]
  {
    hide RingInv, BufferInv;
  }

  // An offer of 0 for everything sent means that 20480 bytes are lost.
  ghost predicate ZeroMeansLost(y: System) {
    && (forall a | a in y.acks && a.ackNum == y.s.next && a.window == 0 :: Lost(y.r) >= RECEIVER_BUFFER_SIZE)
    && (y.s.base == y.s.next && y.s.window == 0 ==> Lost(y.r) >= RECEIVER_BUFFER_SIZE)
  }

  // Once the server has everything that was sent, nothing in its buffer is still wanted.
  lemma AllPassed(r: Receiver, next: nat, file: seq<byte>)
    requires ReceiverInv(r, next, file) && r.expected == next
    ensures Lost(r) == r.bytes
  {
    forall i | 0 <= i < |r.buffer| && r.buffer[i].valid
      ensures r.buffer[i].seqNum < r.expected
    {
      assert Sent(r.buffer[i].seqNum, r.buffer[i].data, next, file);
    }
    NoneLive(r.buffer, r.expected);
  }

  lemma NextKeepsZero(y: System, file: seq<byte>, e: Step)
    requires Inv(y, file) && |file| + 1 < UINT32 && ZeroMeansLost(y) && Enabled(y, e)
    ensures ZeroMeansLost(Next(y, file, e))
  {
    hide RingInv, BufferInv, Receive, Boundary, Lost, Sent;
    SenderIs(y, file);
    match e {
      case SenderRefills => RefillMoves(y.s, file);
      case ReceiverTakes(p) =>
        if p.Data? {
          LostWindowStaysLost(y.r, p, y.s.next, file);
          ReceiveKeepsInv(y.r, p, y.s.next, file);
          if Receive(y.r, p).expected == y.s.next { AllPassed(Receive(y.r, p), y.s.next, file); }
        }
      case _ =>
    }
  }

  lemma RefillMoves(s: Sender, file: seq<byte>)
    requires SenderInv(s, file) && |file| + 1 < UINT32
    ensures var t := Refill(s, file).0; t.base == s.base && t.window == s.window && t.next >= s.next
    decreases |file| - s.offset
  {
    hide RingInv, RingIndex, Start, MaySend;
    SenderShaped(s, file);
    if MaySend(s) && s.offset < |file| {
      SendKeepsInv(s, file);
      RefillMoves(SendChunk(s, Chunk(file, s.offset)), file);
    }
  }

  lemma {:induction false} RunKeepsZero(y: System, file: seq<byte>, run: seq<Step>)
    requires Inv(y, file) && |file| + 1 < UINT32 && CanRun(y, file, run) && ZeroMeansLost(y)
    ensures ZeroMeansLost(After(y, file, run))
    decreases |run|
  {
    hide Inv, ZeroMeansLost, Enabled, Next;
    if run != [] {
      NextKeepsZero(y, file, run[0]);
      NextKeepsInv(y, file, run[0]);
      RunKeepsZero(Next(y, file, run[0]), file, run[1..]);
    }
  }

  // So a run that comes to this stop has lost the whole window of the server.
  lemma ShutHasLostAll(y: System, file: seq<byte>, run: seq<Step>)
    requires Initial(y) && |file| + 1 < UINT32 && CanRun(y, file, run) && Shut(After(y, file, run))
    ensures Lost(After(y, file, run).r) >= 20480
  {
    hide Inv, Lost;
    InitialInv(y, file);
    RunKeepsZero(y, file, run);
  }

  // The client has ten segments out; the server has k copies of the second, and no more.
  ghost predicate Sending(z: System, file: seq<byte>) {
    && Inv(z, file) && z.s.base == 1 && z.s.next == 1 + WINDOW_BYTES && !z.s.complete && !z.closed
    && forall n: nat | Start(n) && n < 1 + WINDOW_BYTES :: Data(n, Chunk(file, n - 1)) in z.packets
  }

  ghost predicate Copies(r: Receiver, k: nat) {
    && Accounts(r) && r.expected == 1 && r.bytes == SHAM_DATA_SIZE * k && |r.buffer| == MAX_BUFFERED_PACKETS && k <= |r.buffer|
    && (forall i | 0 <= i < k :: r.buffer[i].valid && r.buffer[i].seqNum == 1 + SHAM_DATA_SIZE && |r.buffer[i].data| == SHAM_DATA_SIZE)
    && (forall i | k <= i < |r.buffer| :: !r.buffer[i].valid)
  }

  // The server holds only copies it has passed, of as many bytes as it has room for.
  ghost predicate Clogged(r: Receiver, e: nat) {
    && Accounts(r) && r.expected == e && r.bytes == RECEIVER_BUFFER_SIZE
    && forall i | 0 <= i < |r.buffer| && r.buffer[i].valid :: r.buffer[i].seqNum < e
  }

  lemma CopyMore(r: Receiver, p: Packet, k: nat)
    requires Copies(r, k) && k < MAX_BUFFERED_PACKETS && p.Data? && p.seqNum == 1 + SHAM_DATA_SIZE && |p.data| == SHAM_DATA_SIZE
    ensures Copies(Receive(r, p), k + 1)
  {
    hide Held;
    assert !r.buffer[k].valid;
    assert FindFree(r.buffer) == k;
  }

  const COPIES := RECEIVER_BUFFER_SIZE / SHAM_DATA_SIZE + 1

  lemma ThenClogged(r: Receiver, p: Packet)
    requires Copies(r, COPIES) && p.Data? && p.seqNum == 1 && |p.data| == SHAM_DATA_SIZE
    ensures Clogged(Receive(r, p), 1 + 2 * SHAM_DATA_SIZE)
  {
    hide Held, Drain;
    var a := Arrived(r, p);
    assert IsMatch(a.buffer[0], a.expected);
    assert FindMatch(a.buffer, a.expected) == 0;
    DrainOne(a);
  }

  lemma StaysClogged(r: Receiver, p: Packet, e: nat)
    requires Clogged(r, e) && p.Data? && p.seqNum == e && p.data != [] && e + |p.data| < UINT32
    ensures Clogged(Receive(r, p), e + |p.data|) && Reply(Receive(r, p)) == Ack(e + |p.data|, 0)
  {
    hide Held;
    SmallAdd(e, |p.data|);
  }

  lemma Take(y: System, file: seq<byte>, z: System, n: nat) returns (z': System)
    requires |file| + 1 < UINT32 && WINDOW_BYTES <= |file| && Reaches(y, file, z) && Sending(z, file)
    requires Start(n) && n < 1 + WINDOW_BYTES && Accounts(z.r)
    ensures Reaches(y, file, z') && Sending(z', file) && |Chunk(file, n - 1)| == SHAM_DATA_SIZE
    ensures z'.r == Receive(z.r, Data(n, Chunk(file, n - 1))) && Reply(z'.r) in z'.acks
  {
    hide Inv, Reaches, Receive, Accounts;
    var p := Data(n, Chunk(file, n - 1));
    StartsApart(n, 1 + WINDOW_BYTES);
    z' := Next(z, file, ReceiverTakes(p));
    ReachesNext(y, file, z, ReceiverTakes(p));
    NextKeepsInv(z, file, ReceiverTakes(p));
  }

  lemma {:induction false} TakeCopies(y: System, file: seq<byte>, z: System, k: nat) returns (z': System)
    requires |file| + 1 < UINT32 && WINDOW_BYTES <= |file| && Reaches(y, file, z) && Sending(z, file) && Copies(z.r, k) && k <= COPIES
    ensures Reaches(y, file, z') && Sending(z', file) && Copies(z'.r, COPIES)
    decreases COPIES - k
  {
    hide Reaches, Sending, Receive, Chunk, Held, Accounts;
    z' := z;
    if k < COPIES {
      CopiesAccount(z.r, k);
      z' := Take(y, file, z, 1 + SHAM_DATA_SIZE);
      CopyMore(z.r, Data(1 + SHAM_DATA_SIZE, Chunk(file, SHAM_DATA_SIZE)), k);
      z' := TakeCopies(y, file, z', k + 1);
    }
  }

  lemma CopiesAccount(r: Receiver, k: nat)
    requires Copies(r, k)
    ensures Accounts(r)
  {
  }

  lemma {:induction false} TakeRest(y: System, file: seq<byte>, z: System, e: nat) returns (z': System)
    requires |file| + 1 < UINT32 && WINDOW_BYTES <= |file| && Reaches(y, file, z) && Sending(z, file)
    requires Clogged(z.r, e) && Start(e) && 1 <= e < 1 + WINDOW_BYTES
    ensures Reaches(y, file, z') && Sending(z', file) && Ack(1 + WINDOW_BYTES, 0) in z'.acks
    decreases 1 + WINDOW_BYTES - e
  {
    hide Reaches, Sending, Receive, Chunk, Start, Accounts;
    CloggedAccounts(z.r, e);
    z' := Take(y, file, z, e);
    StaysClogged(z.r, Data(e, Chunk(file, e - 1)), e);
    StartNext(e);
    StartsOne();
    StartsApart(e, 1 + WINDOW_BYTES);
    if e + SHAM_DATA_SIZE < 1 + WINDOW_BYTES {
      z' := TakeRest(y, file, z', e + SHAM_DATA_SIZE);
    }
  }

  lemma CloggedAccounts(r: Receiver, e: nat)
    requires Clogged(r, e)
    ensures Accounts(r)
  {
  }

  lemma StartsOne()
    ensures Start(1) && Start(1 + SHAM_DATA_SIZE) && Start(1 + 2 * SHAM_DATA_SIZE) && Start(1 + WINDOW_BYTES)
  {
  }

  lemma FirstWindow(y: System, file: seq<byte>) returns (z: System)
    requires Initial(y) && |file| + 1 < UINT32 && WINDOW_BYTES <= |file|
    ensures Reaches(y, file, z) && Sending(z, file) && Copies(z.r, 0)
  {
    hide Reaches, Refill;
    InitialInv(y, file);
    NothingHeld(y.r.buffer);
    ReachesSelf(y, file);
    RefillFills(y.s, file);
    z := Next(y, file, SenderRefills);
    ReachesNext(y, file, y, SenderRefills);
    NextKeepsInv(y, file, SenderRefills);
    assert Sending(z, file) && Copies(z.r, 0) by { hide Inv, RingInv, Held; }
  }

  lemma FirstIsWhole(file: seq<byte>)
    requires SHAM_DATA_SIZE <= |file|
    ensures |Chunk(file, 0)| == SHAM_DATA_SIZE
  {
  }

  // A file of ten segments or more: the second one comes twenty-one times, and then all in
  // order. Twenty copies are passed, and the offer for the whole first window is 0.
  lemma FullWindowShuts(y: System, file: seq<byte>) returns (z: System)
    requires Initial(y) && |file| + 1 < UINT32 && 10240 <= |file|
    ensures Reaches(y, file, z) && Shut(z)
  {
    hide Reaches, Inv, Initial, Receive, Clogged, Copies, Chunk, Accounts;
    StartsOne();
    var w := FirstWindow(y, file);
    w := TakeCopies(y, file, w, 0);
    CopiesAccount(w.r, COPIES);
    assert |Chunk(file, 0)| == SHAM_DATA_SIZE by { FirstIsWhole(file); }
    ThenClogged(w.r, Data(1, Chunk(file, 0)));
    w := Take(y, file, w, 1);
    w := TakeRest(y, file, w, 1 + 2 * SHAM_DATA_SIZE);
    var a := Ack(1 + WINDOW_BYTES, 0);
    SenderParts(w, file);
    z := Next(w, file, SenderTakes(a));
    ReachesNext(y, file, w, SenderTakes(a));
  }

  // A shorter file is read whole before anything is sent.
  ghost predicate ReadWhole(y: System) {
    y.s.complete || (y.s.window == 65535 && y.s.base == 1 && y.s.next == 1 && y.packets == {} && y.acks == {})
  }

  lemma {:induction false} RefillReadsAll(s: Sender, file: seq<byte>)
    requires SenderInv(s, file) && |file| < WINDOW_BYTES && s.base == 1 && s.window == 65535
    ensures Refill(s, file).0.complete
    decreases |file| - s.offset
  {
    hide RingInv, RingIndex, Start;
    SenderShaped(s, file);
    SmallAdd(s.base, WINDOW_BYTES);
    if !s.complete && s.offset < |file| {
      SendKeepsInv(s, file);
      RefillReadsAll(SendChunk(s, Chunk(file, s.offset)), file);
    }
  }

  lemma NextKeepsRead(y: System, file: seq<byte>, e: Step)
    requires Inv(y, file) && |file| < WINDOW_BYTES && Enabled(y, e) && ReadWhole(y)
    ensures ReadWhole(Next(y, file, e))
  {
    hide RingInv, ReceiverInv, Receive, Boundary;
    SenderParts(y, file);
    if y.s.complete {
      RefillDone(y.s, file);
    } else {
      match e {
        case SenderRefills => RefillReadsAll(y.s, file);
        case SenderSweeps(late) => NoneToResend(y.s, file, late);
        case _ =>
      }
    }
  }

  lemma {:induction false} ShortFileIsRead(y: System, file: seq<byte>, run: seq<Step>)
    requires Inv(y, file) && |file| < WINDOW_BYTES && CanRun(y, file, run) && ReadWhole(y)
    ensures ReadWhole(After(y, file, run))
    decreases |run|
  {
    hide Inv, ReadWhole, Enabled, Next;
    if run != [] {
      NextKeepsRead(y, file, run[0]);
      NextKeepsInv(y, file, run[0]);
      ShortFileIsRead(Next(y, file, run[0]), file, run[1..]);
    }
  }

  // The transfer can come to this stop exactly for files of at least 10240 bytes.
  lemma ShutsIff(y: System, file: seq<byte>)
    requires Initial(y) && |file| + 1 < UINT32
    ensures (exists z :: Reaches(y, file, z) && Shut(z)) <==> |file| >= 10240
  {
    hide Initial, Inv;
    if |file| >= WINDOW_BYTES {
      var z := FullWindowShuts(y, file);
    } else {
      InitialInv(y, file);
      assert ReadWhole(y) by { InitialReads(y); }
      forall run | CanRun(y, file, run)
        ensures !Shut(After(y, file, run))
      {
        ShortFileIsRead(y, file, run);
      }
    }
  }

  lemma InitialReads(y: System)
    requires Initial(y)
    ensures ReadWhole(y)
  {
  }
}
