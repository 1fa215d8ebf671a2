// Where S.H.A.M. stops for good: the client's window test wraps round near 2^32.

module ShamStall {
  import opened Bytes
  import opened ShamModel
  import opened ShamDelivery

  // The sender's window test means what it should exactly below 2^32 - 10240.
  lemma WindowGuard(base: nat, next: nat)
    requires base <= next < UINT32
    ensures next < Add32(base, WINDOW_BYTES) <==> base < UINT32 - WINDOW_BYTES && next < base + WINDOW_BYTES
  {
  }

  // The sum base + 10240 wraps round close to 2^32: from there the inner loop sends
  // nothing and does not notice the end of the file, so the transfer never finishes.
  ghost predicate Stalled(y: System) {
    && UINT32 - WINDOW_BYTES <= y.s.base < UINT32 && UINT32 - WINDOW_BYTES <= y.s.next && !y.s.complete && !y.closed
    && (forall p | p in y.packets :: p.Data?)
    && (forall a | a in y.acks :: a.ackNum < UINT32)
    && y.r.expected < UINT32
  }

  lemma {:induction false} DrainStaysSmall(r: Receiver)
    requires Accounts(r) && r.expected < UINT32
    ensures Drain(r).expected < UINT32
    decreases ValidCount(r.buffer)
  {
    var k := FindMatch(r.buffer, r.expected);
    if k >= 0 { DrainStaysSmall(Deliver(r, k)); }
  }

  lemma {:induction false} StalledForever(y: System, file: seq<byte>, run: seq<Step>)
    requires Stalled(y) && Shaped(y.s) && CanRun(y, file, run)
    ensures Stalled(After(y, file, run)) && After(y, file, run).s.next == y.s.next
    decreases |run|
  {
    if run != [] {
      if run[0].ReceiverTakes? {
        var p := run[0].p;
        if p.seqNum == y.r.expected {
          DrainStaysSmall(y.r.(output := y.r.output + p.data, expected := Add32(y.r.expected, |p.data|)));
        }
      }
      if run[0].SenderSweeps? {
        assert forall p | p in Resent(y.s.ring, y.s.base, run[0].late, |y.s.ring|) :: p.Data?;
      }
      StalledForever(Next(y, file, run[0]), file, run[1..]);
    }
  }

  const LIMIT: nat := UINT32 - WINDOW_BYTES

  // The client has its ten segments from b on out, and the server has taken those below e,
  // in order.
  ghost predicate Filling(z: System, file: seq<byte>, b: nat, e: nat) {
    && Inv(z, file) && Start(b) && Start(e) && b <= e <= b + WINDOW_BYTES <= |file| + 1
    && z.s.base == b && z.s.next == b + WINDOW_BYTES && !z.s.complete && z.s.window >= WINDOW_BYTES && !z.closed
    && Idle(z.r, e)
    && (forall n: nat | Start(n) && e <= n < b + WINDOW_BYTES :: Data(n, Chunk(file, n - 1)) in z.packets)
    && (forall n: nat | Start(n) && b < n <= e :: Ack(n, RECEIVER_BUFFER_SIZE) in z.acks)
  }

  // The server holds nothing and expects e.
  ghost predicate Idle(r: Receiver, e: nat) {
    r.expected == e && r.bytes == 0 && Accounts(r) && forall i | 0 <= i < |r.buffer| :: !r.buffer[i].valid
  }

  lemma SenderShaped(s: Sender, file: seq<byte>)
    requires SenderInv(s, file)
    ensures Shaped(s)
  {
  }

  lemma StartsApart(m: nat, n: nat)
    requires Start(m) && Start(n) && m < n
    ensures m + SHAM_DATA_SIZE <= n
  {
  }

  lemma StartNext(n: nat)
    requires Start(n)
    ensures Start(n + SHAM_DATA_SIZE) && Start(n + WINDOW_BYTES)
  {
  }

  // The inner loop fills the window and stops there, without looking for the end of the file.
  lemma {:induction false} RefillFills(s: Sender, file: seq<byte>)
    requires SenderInv(s, file) && |file| + 1 < UINT32 && Start(s.base) && Start(s.next) && !s.complete
    requires s.next <= s.base + WINDOW_BYTES <= |file| + 1 && s.window >= WINDOW_BYTES
    ensures var (t, sent) := Refill(s, file);
            && t.next == s.base + WINDOW_BYTES && t.base == s.base && !t.complete && t.window == s.window
            && (forall n: nat | Start(n) && s.next <= n < s.base + WINDOW_BYTES :: Data(n, Chunk(file, n - 1)) in sent)
    decreases s.base + WINDOW_BYTES - s.next
  {
    hide RingInv, Start, RingIndex;
    SenderShaped(s, file);
    SmallAdd(s.base, WINDOW_BYTES);
    if s.next < s.base + WINDOW_BYTES {
      StartNext(s.base);
      StartsApart(s.next, s.base + WINDOW_BYTES);
      var chunk := Chunk(file, s.offset);
      SendKeepsInv(s, file);
      StartNext(s.next);
      SmallAdd(s.next, |chunk|);
      RefillFills(SendChunk(s, chunk), file);
      forall n: nat | Start(n) && s.next <= n < s.base + WINDOW_BYTES
        ensures Data(n, Chunk(file, n - 1)) in Refill(s, file).1
      {
        if n > s.next { StartsApart(s.next, n); }
      }
    }
  }

  lemma TakeIdle(r: Receiver, p: Packet)
    requires Idle(r, p.seqNum) && p.Data? && p.seqNum + |p.data| < UINT32
    ensures Idle(Receive(r, p), p.seqNum + |p.data|) && Reply(Receive(r, p)) == Ack(p.seqNum + |p.data|, RECEIVER_BUFFER_SIZE)
  {
    SmallAdd(p.seqNum, |p.data|);
  }

  // One segment more is taken.
  lemma FillStep(y: System, file: seq<byte>, z: System, b: nat, e: nat) returns (z': System)
    requires |file| + 1 < UINT32 && Reaches(y, file, z) && Filling(z, file, b, e) && e < b + WINDOW_BYTES
    ensures Reaches(y, file, z') && Filling(z', file, b, e + SHAM_DATA_SIZE)
  {
    hide Inv, Reaches, Receive, Start, Idle, Accounts;
    StartNext(b);
    StartNext(e);
    StartsApart(e, b + WINDOW_BYTES);
    var p := Data(e, Chunk(file, e - 1));
    assert |p.data| == SHAM_DATA_SIZE && p in z.packets;
    IdleAccounts(z.r, e);
    z' := Next(z, file, ReceiverTakes(p));
    ReachesNext(y, file, z, ReceiverTakes(p));
    NextKeepsInv(z, file, ReceiverTakes(p));
    TakeIdle(z.r, p);
    forall n: nat | Start(n) && b < n <= e + SHAM_DATA_SIZE
      ensures Ack(n, RECEIVER_BUFFER_SIZE) in z'.acks
    {
      if n > e { StartsApart(e, n); }
    }
  }

  lemma IdleAccounts(r: Receiver, e: nat)
    requires Idle(r, e)
    ensures Accounts(r)
  {
  }

  lemma {:induction false} FillUp(y: System, file: seq<byte>, z: System, b: nat, e: nat) returns (z': System)
    requires |file| + 1 < UINT32 && Reaches(y, file, z) && Filling(z, file, b, e)
    ensures Reaches(y, file, z') && Filling(z', file, b, b + WINDOW_BYTES)
    decreases b + WINDOW_BYTES - e
  {
    hide Inv, Reaches, Idle;
    if e == b + WINDOW_BYTES {
      z' := z;
    } else {
      StartNext(b);
      StartsApart(e, b + WINDOW_BYTES);
      z' := FillStep(y, file, z, b, e);
      z' := FillUp(y, file, z', b, e + SHAM_DATA_SIZE);
    }
  }

  // One segment is acknowledged, the next one sent and taken.
  lemma Slide(y: System, file: seq<byte>, z: System, b: nat) returns (z': System)
    requires |file| + 1 < UINT32 && Reaches(y, file, z) && Filling(z, file, b, b + WINDOW_BYTES)
    requires b + WINDOW_BYTES + SHAM_DATA_SIZE <= |file| + 1
    ensures Reaches(y, file, z') && Filling(z', file, b + SHAM_DATA_SIZE, b + SHAM_DATA_SIZE + WINDOW_BYTES)
  {
    hide Inv, Reaches, Start, Idle, Refill;
    var c, e := b + SHAM_DATA_SIZE, b + WINDOW_BYTES;
    StartNext(b);
    StartNext(c);
    var a := Ack(c, RECEIVER_BUFFER_SIZE);
    assert a in z.acks;
    var z1 := Next(z, file, SenderTakes(a));
    ReachesNext(y, file, z, SenderTakes(a));
    NextKeepsInv(z, file, SenderTakes(a));
    SenderParts(z, file);
    SenderParts(z1, file);
    RefillFills(z1.s, file);
    var z2 := Next(z1, file, SenderRefills);
    ReachesNext(y, file, z1, SenderRefills);
    NextKeepsInv(z1, file, SenderRefills);
    forall n: nat | Start(n) && e <= n < c + WINDOW_BYTES
      ensures Data(n, Chunk(file, n - 1)) in z2.packets
    {
    }
    z' := FillStep(y, file, z2, c, e);
  }

  lemma SenderParts(z: System, file: seq<byte>)
    requires Inv(z, file)
    ensures SenderInv(z.s, file) && (z.s.lastAcked == z.s.base || z.s.lastAcked == 0) && Shaped(z.s)
  {
  }

  lemma FirstFill(y: System, file: seq<byte>) returns (z: System)
    requires Initial(y) && |file| + 1 < UINT32 && 1 + WINDOW_BYTES <= |file| + 1
    ensures Reaches(y, file, z) && Filling(z, file, 1, 1 + WINDOW_BYTES)
  {
    hide Reaches, Refill;
    InitialInv(y, file);
    NothingHeld(y.r.buffer);
    ReachesSelf(y, file);
    RefillFills(y.s, file);
    z := Next(y, file, SenderRefills);
    ReachesNext(y, file, y, SenderRefills);
    NextKeepsInv(y, file, SenderRefills);
    assert Filling(z, file, 1, 1) by { hide Inv, RingInv; }
    z := FillUp(y, file, z, 1, 1);
  }

  lemma {:induction false} SlideTo(y: System, file: seq<byte>, m: nat) returns (z: System)
    requires Initial(y) && |file| + 1 < UINT32 && 1 + SHAM_DATA_SIZE * m + WINDOW_BYTES <= |file| + 1
    ensures Reaches(y, file, z) && Filling(z, file, 1 + SHAM_DATA_SIZE * m, 1 + SHAM_DATA_SIZE * m + WINDOW_BYTES)
    decreases m
  {
    hide Reaches, Filling, Initial;
    if m == 0 {
      z := FirstFill(y, file);
    } else {
      z := SlideTo(y, file, m - 1);
      z := Slide(y, file, z, 1 + SHAM_DATA_SIZE * (m - 1));
    }
  }

  // A file long enough: the whole last window is acknowledged at once, past the limit.
  lemma LongFileStalls(y: System, file: seq<byte>) returns (z: System)
    requires Initial(y) && LIMIT <= |file| && |file| + 1 < UINT32
    ensures Reaches(y, file, z) && Stalled(z)
  {
    hide Reaches, Inv, Initial, Idle;
    var m := (LIMIT - WINDOW_BYTES) / SHAM_DATA_SIZE;
    assert 1 + SHAM_DATA_SIZE * m + WINDOW_BYTES == LIMIT + 1;
    var w := SlideTo(y, file, m);
    var a := Ack(LIMIT + 1, RECEIVER_BUFFER_SIZE);
    assert Start(LIMIT + 1) && a in w.acks;
    SenderParts(w, file);
    z := Next(w, file, SenderTakes(a));
    ReachesNext(y, file, w, SenderTakes(a));
    NextKeepsInv(w, file, SenderTakes(a));
    IsStalled(z, file);
  }

  lemma IsStalled(z: System, file: seq<byte>)
    requires Inv(z, file) && |file| + 1 < UINT32 && z.s.base >= LIMIT && !z.s.complete
    ensures Stalled(z)
  {
  }

  // While only whole segments have been sent, every count of bytes is a multiple of 1024.
  ghost predicate WholeSegments(y: System) {
    && y.r.bytes % SHAM_DATA_SIZE == 0
    && (forall a | a in y.acks :: a.window % SHAM_DATA_SIZE == 0)
    && (y.s.window % SHAM_DATA_SIZE == 0 || y.s.window == 65535)
  }

  // When the last segment is short, the client that sends it also meets the end of the file.
  ghost predicate TailInv(y: System, file: seq<byte>) {
    if y.s.next <= |file| then WholeSegments(y) else y.s.complete
  }

  // The last segment is short, and no sum wraps before it.
  predicate ShortTail(file: seq<byte>) {
    |file| % SHAM_DATA_SIZE != 0 && |file| + 1 <= LIMIT
  }

  lemma LastChunk(s: Sender, file: seq<byte>)
    requires SenderInv(s, file) && ShortTail(file) && s.next <= |file| < s.next + SHAM_DATA_SIZE
    ensures Start(s.base) && Start(s.next) && |Chunk(file, s.offset)| == |file| + 1 - s.next < SHAM_DATA_SIZE
  {
    hide RingInv;
  }

  lemma LastSend(s: Sender, file: seq<byte>)
    requires SenderInv(s, file) && ShortTail(file) && MaySend(s) && s.next <= |file| < s.next + SHAM_DATA_SIZE
    requires s.window % SHAM_DATA_SIZE == 0 || s.window == 65535
    ensures var t := SendChunk(s, Chunk(file, s.offset)); t.next == |file| + 1 && t.offset == |file| && MaySend(t) && Refill(t, file).0 == t.(complete := true)
  {
    hide RingInv, Start, RingIndex;
    SenderShaped(s, file);
    LastChunk(s, file);
    var t := SendChunk(s, Chunk(file, s.offset));
    SmallAdd(s.next, |file| + 1 - s.next);
    SmallAdd(s.base, WINDOW_BYTES);
    WindowRoom(s.base, s.next, |file| + 1, s.window);
  }

  lemma WindowRoom(base: nat, next: nat, end: nat, window: nat)
    requires Start(base) && Start(next) && base <= next < end < next + SHAM_DATA_SIZE && next < base + WINDOW_BYTES
    requires next - base < window && (window % SHAM_DATA_SIZE == 0 || window == 65535)
    ensures end < base + WINDOW_BYTES && end - base < window
  {
    var j := (next - base) / SHAM_DATA_SIZE;
    assert next - base == SHAM_DATA_SIZE * j;
  }

  lemma {:induction false} RefillTail(s: Sender, file: seq<byte>)
    requires SenderInv(s, file) && ShortTail(file) && s.next <= |file| && (s.window % SHAM_DATA_SIZE == 0 || s.window == 65535)
    ensures var t := Refill(s, file).0; t.window == s.window && (t.next > |file| ==> t.complete)
    decreases |file| - s.offset
  {
    hide RingInv, MaySend, RingIndex;
    SenderShaped(s, file);
    if MaySend(s) {
      var chunk := Chunk(file, s.offset);
      SendKeepsInv(s, file);
      if |file| < s.next + SHAM_DATA_SIZE {
        LastSend(s, file);
      } else {
        SmallAdd(s.next, |chunk|);
        RefillTail(SendChunk(s, chunk), file);
      }
    }
  }

  lemma SentIsWhole(n: nat, data: seq<byte>, next: nat, file: seq<byte>)
    requires Sent(n, data, next, file) && Start(next) && next <= |file|
    ensures |data| == SHAM_DATA_SIZE
  {
    StartsApart(n, next);
  }

  lemma {:induction false} DrainKeepsWhole(r: Receiver, next: nat, file: seq<byte>)
    requires ReceiverInv(r, next, file) && Boundary(next, file) && |file| + 1 < UINT32 && Start(next) && next <= |file|
    ensures Drain(r).bytes % SHAM_DATA_SIZE == r.bytes % SHAM_DATA_SIZE
    decreases ValidCount(r.buffer)
  {
    hide Start;
    var k := FindMatch(r.buffer, r.expected);
    if k >= 0 {
      DeliverKeepsInv(r, next, file, k);
      SentIsWhole(r.buffer[k].seqNum, r.buffer[k].data, next, file);
      DrainKeepsWhole(Deliver(r, k), next, file);
    }
  }

  lemma ReceiveKeepsWhole(r: Receiver, p: Packet, next: nat, file: seq<byte>)
    requires ReceiverInv(r, next, file) && Boundary(next, file) && |file| + 1 < UINT32 && Start(next) && next <= |file|
    requires p.Data? && Sent(p.seqNum, p.data, next, file) && r.bytes % SHAM_DATA_SIZE == 0
    ensures Receive(r, p).bytes % SHAM_DATA_SIZE == 0 && Reply(Receive(r, p)).window % SHAM_DATA_SIZE == 0
  {
    hide Chunk, Drain;
    SentIsWhole(p.seqNum, p.data, next, file);
    if p.seqNum == r.expected {
      NextBoundary(r.expected, next, file);
      ChunkEnds(file, r.expected);
      SmallAdd(r.expected, |p.data|);
      var a := r.(output := r.output + p.data, expected := Add32(r.expected, |p.data|));
      DrainKeepsWhole(a, next, file);
    }
  }

  lemma NextKeepsTail(y: System, file: seq<byte>, e: Step)
    requires Inv(y, file) && ShortTail(file) && Enabled(y, e) && TailInv(y, file)
    ensures TailInv(Next(y, file, e), file)
  {
    hide SenderInv, ReceiverInv, Receive, Refill, Boundary, Start, Sent;
    SenderIs(y, file);
    match e {
      case SenderRefills =>
        if y.s.next <= |file| { RefillTail(y.s, file); } else { RefillDone(y.s, file); }
      case ReceiverTakes(p) =>
        if p.Data? && y.s.next <= |file| { ReceiveKeepsWhole(y.r, p, y.s.next, file); }
      case _ =>
    }
  }

  lemma SenderIs(y: System, file: seq<byte>)
    requires Inv(y, file)
    ensures SenderInv(y.s, file) && Shaped(y.s) && Boundary(y.s.next, file) && ReceiverInv(y.r, y.s.next, file)
    ensures y.s.next <= |file| ==> Start(y.s.next)
  {
  }

  lemma RefillDone(s: Sender, file: seq<byte>)
    requires Shaped(s) && s.complete
    ensures Refill(s, file).0 == s
  {
  }

  lemma {:induction false} RunKeepsTail(y: System, file: seq<byte>, run: seq<Step>)
    requires Inv(y, file) && ShortTail(file) && CanRun(y, file, run) && TailInv(y, file)
    ensures TailInv(After(y, file, run), file)
    decreases |run|
  {
    hide Inv, TailInv, Enabled, Next;
    if run != [] {
      NextKeepsTail(y, file, run[0]);
      NextKeepsInv(y, file, run[0]);
      RunKeepsTail(Next(y, file, run[0]), file, run[1..]);
    }
  }

  lemma ShortFileGoesOn(y: System, file: seq<byte>, run: seq<Step>)
    requires Initial(y) && |file| < LIMIT && CanRun(y, file, run)
    ensures !Stalled(After(y, file, run))
  {
    hide RingInv, ReceiverInv;
    InitialInv(y, file);
    RunKeepsInv(y, file, run);
    if |file| + 1 == LIMIT {
      RunKeepsTail(y, file, run);
    }
  }

  // The transfer can come to a stop exactly for files of at least 2^32 - 10240 bytes.
  lemma StallsIff(y: System, file: seq<byte>)
    requires Initial(y) && |file| + 1 < UINT32
    ensures (exists z :: Reaches(y, file, z) && Stalled(z)) <==> |file| >= 0x1_0000_0000 - 10240
  {
    hide Stalled, Initial;
    if |file| >= LIMIT {
      var z := LongFileStalls(y, file);
    } else {
      forall run | CanRun(y, file, run)
        ensures !Stalled(After(y, file, run))
      {
        ShortFileGoesOn(y, file, run);
      }
    }
  }
}
