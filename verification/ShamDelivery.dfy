// End-to-end delivery of S.H.A.M. over a network that drops, duplicates and reorders.

module ShamDelivery {
  import opened Bytes
  import opened ShamModel

  // Both ends, and every datagram ever sent: the network may deliver any of them any
  // number of times, at any time, or never.
  datatype System = System(s: Sender, r: Receiver, closed: bool, packets: set<Packet>, acks: set<Ack>)

  datatype Step =
    | SenderRefills                  // the inner loop
    | SenderTakes(a: Ack)            // recvfrom finds an ACK
    | SenderSweeps(late: seq<bool>)  // the sweep, with the slots that have timed out
    | SenderFinishes                 // the outer loop ends: FIN
    | ReceiverTakes(p: Packet)       // recvfrom finds a datagram that is not dropped

  ghost predicate Enabled(y: System, e: Step) {
    match e
    case SenderRefills => Running(y.s) && Shaped(y.s)
    case SenderTakes(a) => a in y.acks
    case SenderSweeps(late) => |late| == |y.s.ring|
    case SenderFinishes => !Running(y.s)
    case ReceiverTakes(p) => !y.closed && p in y.packets && Accounts(y.r)
  }

  ghost function Next(y: System, file: seq<byte>, e: Step): System
    requires Enabled(y, e)
  {
    match e
    case SenderRefills =>
      var (s, sent) := Refill(y.s, file);
      y.(s := s, packets := y.packets + set p | p in sent)
    case SenderTakes(a) => y.(s := TakeAck(y.s, a))
    case SenderSweeps(late) =>
      var ring := Swept(y.s.ring, y.s.base, |y.s.ring|);
      y.(s := y.s.(ring := ring), packets := y.packets + set p | p in Resent(y.s.ring, y.s.base, late, |y.s.ring|))
    case SenderFinishes => y.(packets := y.packets + {Fin(y.s.next)})
    case ReceiverTakes(p) =>
      if p.Fin? then y.(closed := true)
      else
        var r := Receive(y.r, p);
        y.(r := r, acks := y.acks + {Reply(r)})
  }

  predicate Start(n: nat) {
    n >= 1 && (n - 1) % SHAM_DATA_SIZE == 0
  }

  // Sequence numbers at which a segment may start or the file may end.
  predicate Boundary(n: nat, file: seq<byte>) {
    1 <= n <= |file| + 1 && (Start(n) || n == |file| + 1)
  }

  // These bytes with this number are a segment of the file.
  predicate Segment(n: nat, data: seq<byte>, file: seq<byte>) {
    Start(n) && n <= |file| && data == Chunk(file, n - 1)
  }

  // One that was sent.
  predicate Sent(n: nat, data: seq<byte>, next: nat, file: seq<byte>) {
    Segment(n, data, file) && n < next
  }

  // The segment at n is still in its slot.
  predicate Retained(ring: seq<Slot>, n: nat)
    requires |ring| == CONGESTION_WINDOW_SIZE
  {
    IsMatch(ring[RingIndex(n)], n)
  }

  // Every slot in use holds a segment that was sent and belongs there; every segment
  // from base on that was sent has its slot.
  ghost predicate RingInv(ring: seq<Slot>, base: nat, next: nat, file: seq<byte>) {
    && |ring| == CONGESTION_WINDOW_SIZE
    && (forall i | 0 <= i < |ring| && ring[i].valid ::
          Sent(ring[i].seqNum, ring[i].data, next, file) && RingIndex(ring[i].seqNum) == i)
    && (forall n: nat | base <= n < next && Start(n) :: Retained(ring, n))
  }

  ghost predicate SenderInv(s: Sender, file: seq<byte>) {
    && RingInv(s.ring, s.base, s.next, file)
    && s.next == s.offset + 1
    && Boundary(s.base, file) && Boundary(s.next, file) && s.base <= s.next <= s.base + WINDOW_BYTES
    && (s.lastAcked == s.base || s.lastAcked == 0)
    && (s.complete ==> s.offset == |file|)
  }

  ghost predicate ReceiverInv(r: Receiver, next: nat, file: seq<byte>) {
    && Boundary(r.expected, file) && r.expected <= next
    && r.output == file[..r.expected - 1]
    && Accounts(r)
    && BufferInv(r.buffer, next, file)
  }

  ghost predicate BufferInv(buffer: seq<Slot>, next: nat, file: seq<byte>) {
    && |buffer| == MAX_BUFFERED_PACKETS
    && forall i | 0 <= i < |buffer| && buffer[i].valid :: Sent(buffer[i].seqNum, buffer[i].data, next, file)
  }

  ghost predicate Inv(y: System, file: seq<byte>) {
    && SenderInv(y.s, file) && ReceiverInv(y.r, y.s.next, file)
    && y.s.base <= y.r.expected
    && (forall p | p in y.packets && p.Data? :: Sent(p.seqNum, p.data, y.s.next, file))
    && (forall p | p in y.packets && p.Fin? :: !Running(y.s))
    && (forall a | a in y.acks :: Boundary(a.ackNum, file) && a.ackNum <= y.r.expected)
    && (y.closed ==> !Running(y.s))
  }

  lemma ChunkEnds(file: seq<byte>, n: nat)
    requires Start(n) && n <= |file|
    ensures 0 < |Chunk(file, n - 1)| <= SHAM_DATA_SIZE
    ensures Boundary(n + |Chunk(file, n - 1)|, file)
    ensures file[..n - 1] + Chunk(file, n - 1) == file[..n - 1 + |Chunk(file, n - 1)|]
    ensures forall m: nat | Start(m) && n < m < n + |Chunk(file, n - 1)| :: false
  {
  }

  lemma SmallAdd(a: nat, b: nat)
    requires a + b < UINT32
    ensures Add32(a, b) == a + b
  {
  }

  lemma MaySendMeansRoom(s: Sender)
    requires MaySend(s)
    ensures s.next < s.base + WINDOW_BYTES
  {
  }

  lemma ModDiffer(x: nat, y: nat)
    requires x < y < x + CONGESTION_WINDOW_SIZE
    ensures x % CONGESTION_WINDOW_SIZE != y % CONGESTION_WINDOW_SIZE
  {
  }

  lemma IndexOfStart(a: nat) returns (k: nat)
    requires Start(a) && a < UINT32
    ensures a == SHAM_DATA_SIZE * k + 1 && RingIndex(a) == k % CONGESTION_WINDOW_SIZE
  {
    k := (a - 1) / SHAM_DATA_SIZE;
    assert Sub32(a, 1) == a - 1;
  }

  // Two segments less than ten apart have different slots.
  lemma SlotsDiffer(a: nat, b: nat)
    requires 1 <= a < b < UINT32 && Start(a) && Start(b) && b - a < WINDOW_BYTES
    ensures RingIndex(a) != RingIndex(b)
  {
    var j := IndexOfStart(a);
    var k := IndexOfStart(b);
    ModDiffer(j, k);
  }

  lemma RoomForOneMore(a: nat, b: nat)
    requires Start(a) && Start(b) && b < a + WINDOW_BYTES
    ensures b + SHAM_DATA_SIZE <= a + WINDOW_BYTES
  {
  }

  lemma SendKeepsRing(ring: seq<Slot>, base: nat, next: nat, file: seq<byte>, chunk: seq<byte>)
    requires RingInv(ring, base, next, file) && Segment(next, chunk, file)
    requires 1 <= base <= next < base + WINDOW_BYTES && next < UINT32
    ensures RingInv(ring[RingIndex(next) := Slot(true, next, chunk)], base, next + |chunk|, file)
  {
    hide RingIndex;
    var r := ring[RingIndex(next) := Slot(true, next, chunk)];
    ChunkEnds(file, next);
    forall n: nat | base <= n < next + |chunk| && Start(n)
      ensures Retained(r, n)
    {
      if n < next {
        assert Retained(ring, n);
        SlotsDiffer(n, next);
      }
    }
  }

  lemma SendKeepsInv(s: Sender, file: seq<byte>)
    requires SenderInv(s, file) && |file| + 1 < UINT32 && MaySend(s) && s.offset < |file|
    ensures var t := SendChunk(s, Chunk(file, s.offset));
            SenderInv(t, file) && t.base == s.base && s.next < t.next && Sent(s.next, Chunk(file, s.offset), t.next, file)
  {
    MaySendMeansRoom(s);
    hide RingInv, Start, RingIndex, MaySend, Chunk;
    var chunk := Chunk(file, s.offset);
    ChunkEnds(file, s.next);
    SmallAdd(s.next, |chunk|);
    RoomForOneMore(s.base, s.next);
    SendKeepsRing(s.ring, s.base, s.next, file, chunk);
  }

  lemma {:induction false} RefillKeepsInv(s: Sender, file: seq<byte>)
    requires SenderInv(s, file) && |file| + 1 < UINT32
    ensures var (t, sent) := Refill(s, file);
            && SenderInv(t, file) && t.base == s.base && t.next >= s.next
            && (forall p | p in sent :: p.Data? && Sent(p.seqNum, p.data, t.next, file))
    decreases |file| - s.offset
  {
    if MaySend(s) && s.offset < |file| {
      SendKeepsInv(s, file);
      ChunkEnds(file, s.next);
      RefillKeepsInv(SendChunk(s, Chunk(file, s.offset)), file);
    }
  }

  lemma SweepKeepsRing(ring: seq<Slot>, base: nat, next: nat, file: seq<byte>, late: seq<bool>)
    requires RingInv(ring, base, next, file) && |late| == |ring|
    ensures RingInv(Swept(ring, base, |ring|), base, next, file)
    ensures forall p | p in Resent(ring, base, late, |ring|) :: p.Data? && Sent(p.seqNum, p.data, next, file)
  {
    var r := Swept(ring, base, |ring|);
    forall n: nat | base <= n < next && Start(n)
      ensures Retained(r, n)
    {
      assert Retained(ring, n);
    }
  }

  lemma AckKeepsInv(s: Sender, a: Ack, expected: nat, file: seq<byte>)
    requires SenderInv(s, file) && Boundary(a.ackNum, file) && a.ackNum <= expected <= s.next && s.base <= expected
    ensures SenderInv(TakeAck(s, a), file) && TakeAck(s, a).next == s.next && s.base <= TakeAck(s, a).base <= expected
  {
  }

  // Everything still to come was already known to be sent.
  lemma DeliverKeepsInv(r: Receiver, next: nat, file: seq<byte>, k: nat)
    requires ReceiverInv(r, next, file) && Boundary(next, file) && |file| + 1 < UINT32
    requires k < |r.buffer| && IsMatch(r.buffer[k], r.expected)
    ensures ReceiverInv(Deliver(r, k), next, file) && r.expected < Deliver(r, k).expected
  {
    hide Start, Chunk;
    assert Sent(r.buffer[k].seqNum, r.buffer[k].data, next, file);
    NextBoundary(r.expected, next, file);
    ChunkEnds(file, r.expected);
    SmallAdd(r.expected, |r.buffer[k].data|);
  }

  // A segment that starts before a boundary also ends by it.
  lemma NextBoundary(n: nat, next: nat, file: seq<byte>)
    requires Start(n) && n < next && Boundary(next, file)
    ensures n + |Chunk(file, n - 1)| <= next
  {
  }

  lemma {:induction false} DrainKeepsInv(r: Receiver, next: nat, file: seq<byte>)
    requires ReceiverInv(r, next, file) && Boundary(next, file) && |file| + 1 < UINT32
    ensures ReceiverInv(Drain(r), next, file) && r.expected <= Drain(r).expected
    decreases ValidCount(r.buffer)
  {
    var k := FindMatch(r.buffer, r.expected);
    if k >= 0 {
      DeliverKeepsInv(r, next, file, k);
      DrainKeepsInv(Deliver(r, k), next, file);
    }
  }

  lemma ReceiveKeepsInv(r: Receiver, p: Packet, next: nat, file: seq<byte>)
    requires ReceiverInv(r, next, file) && Boundary(next, file) && |file| + 1 < UINT32
    requires p.Data? && Sent(p.seqNum, p.data, next, file)
    ensures ReceiverInv(Receive(r, p), next, file) && r.expected <= Receive(r, p).expected
  {
    hide Start, Chunk;
    if p.seqNum == r.expected {
      NextBoundary(r.expected, next, file);
      ChunkEnds(file, r.expected);
      SmallAdd(r.expected, |p.data|);
      DrainKeepsInv(r.(output := r.output + p.data, expected := Add32(r.expected, |p.data|)), next, file);
    } else if p.seqNum > r.expected {
      var k := FindFree(r.buffer);
    }
  }

  lemma NextKeepsInv(y: System, file: seq<byte>, e: Step)
    requires Inv(y, file) && |file| + 1 < UINT32 && Enabled(y, e)
    ensures Inv(Next(y, file, e), file)
  {
    hide RingInv, Boundary, Sent;
    match e {
      case SenderRefills => RefillKeepsInv(y.s, file); LaterStillSent(y, Refill(y.s, file).0.next, file);
      case SenderTakes(a) => AckKeepsInv(y.s, a, y.r.expected, file);
      case SenderSweeps(late) => SweepKeepsRing(y.s.ring, y.s.base, y.s.next, file, late);
      case SenderFinishes =>
      case ReceiverTakes(p) =>
        if p.Data? { ReceiveKeepsInv(y.r, p, y.s.next, file); }
    }
  }

  lemma LaterStillSent(y: System, next: nat, file: seq<byte>)
    requires Inv(y, file) && y.s.next <= next
    ensures ReceiverInv(y.r, next, file)
    ensures forall p | p in y.packets && p.Data? :: Sent(p.seqNum, p.data, next, file)
  {
  }

  // Both programs at the start of the data phase.
  ghost predicate Initial(y: System) {
    && y.s == Sender(1, 1, false, y.s.ring, 65535, 0, 0)
    && |y.s.ring| == CONGESTION_WINDOW_SIZE && (forall i | 0 <= i < |y.s.ring| :: !y.s.ring[i].valid)
    && y.r == Receiver(1, y.r.buffer, 0, [])
    && |y.r.buffer| == MAX_BUFFERED_PACKETS && (forall i | 0 <= i < |y.r.buffer| :: !y.r.buffer[i].valid)
    && !y.closed && y.packets == {} && y.acks == {}
  }

  lemma {:induction false} NothingHeld(buffer: seq<Slot>)
    requires forall i | 0 <= i < |buffer| :: !buffer[i].valid
    ensures Held(buffer) == 0
  {
    if buffer != [] { NothingHeld(buffer[..|buffer| - 1]); }
  }

  lemma InitialInv(y: System, file: seq<byte>)
    requires Initial(y)
    ensures Inv(y, file)
  {
    NothingHeld(y.r.buffer);
  }

  ghost predicate CanRun(y: System, file: seq<byte>, run: seq<Step>)
    decreases |run|
  {
    run == [] || (Enabled(y, run[0]) && CanRun(Next(y, file, run[0]), file, run[1..]))
  }

  ghost function After(y: System, file: seq<byte>, run: seq<Step>): System
    requires CanRun(y, file, run)
    decreases |run|
  {
    if run == [] then y else After(Next(y, file, run[0]), file, run[1..])
  }

  // Some run leads there.
  ghost predicate Reaches(y: System, file: seq<byte>, z: System) {
    exists run :: CanRun(y, file, run) && After(y, file, run) == z
  }

  lemma {:induction false} RunOneMore(y: System, file: seq<byte>, run: seq<Step>, e: Step)
    requires CanRun(y, file, run) && Enabled(After(y, file, run), e)
    ensures CanRun(y, file, run + [e]) && After(y, file, run + [e]) == Next(After(y, file, run), file, e)
    decreases |run|
  {
    hide Enabled, Next;
    if run == [] {
      assert run + [e] == [e] && [e][1..] == [];
    } else {
      assert (run + [e])[1..] == run[1..] + [e];
      RunOneMore(Next(y, file, run[0]), file, run[1..], e);
    }
  }

  lemma ReachesSelf(y: System, file: seq<byte>)
    ensures Reaches(y, file, y)
  {
    assert CanRun(y, file, []) && After(y, file, []) == y;
  }

  lemma ReachesNext(y: System, file: seq<byte>, z: System, e: Step)
    requires Reaches(y, file, z) && Enabled(z, e)
    ensures Reaches(y, file, Next(z, file, e))
  {
    hide Enabled, Next, After, CanRun;
    var run :| CanRun(y, file, run) && After(y, file, run) == z;
    RunOneMore(y, file, run, e);
  }

  lemma {:induction false} RunKeepsInv(y: System, file: seq<byte>, run: seq<Step>)
    requires Inv(y, file) && |file| + 1 < UINT32 && CanRun(y, file, run)
    ensures Inv(After(y, file, run), file)
    decreases |run|
  {
    if run != [] {
      NextKeepsInv(y, file, run[0]);
      RunKeepsInv(Next(y, file, run[0]), file, run[1..]);
    }
  }

  // Exact delivery, in every run over every network. What the server has written is
  // always the file up to the number it expects next; the three counters stay in order,
  // with at most ten segments in flight; an ACK never runs ahead of what was received;
  // and once the server has accepted a FIN it has the whole file.
  lemma ExactDelivery(y: System, file: seq<byte>, run: seq<Step>)
    requires Initial(y) && |file| + 1 < UINT32 && CanRun(y, file, run)
    ensures var z := After(y, file, run);
            && z.s.base <= z.r.expected <= z.s.next <= |file| + 1
            && z.r.expected >= 1 && z.r.output == file[..z.r.expected - 1]
            && z.s.next - z.s.base <= 10240
            && (forall a | a in z.acks :: a.ackNum <= z.r.expected)
            && (z.closed ==> z.r.output == file)
  {
    InitialInv(y, file);
    RunKeepsInv(y, file, run);
    var z := After(y, file, run);
    if z.closed { assert z.r.output == file; }
  }

  // The client can still resend whatever the server may lack.
  lemma UnacknowledgedIsRetained(y: System, file: seq<byte>, run: seq<Step>, n: nat)
    requires Initial(y) && |file| + 1 < UINT32 && CanRun(y, file, run)
    ensures var z := After(y, file, run);
            Start(n) && z.s.base <= n < z.s.next ==>
              && Shaped(z.s) && IsMatch(z.s.ring[RingIndex(n)], n) && z.s.ring[RingIndex(n)].data == Chunk(file, n - 1)
  {
    InitialInv(y, file);
    RunKeepsInv(y, file, run);
    var z := After(y, file, run);
    if Start(n) && z.s.base <= n < z.s.next { assert Retained(z.s.ring, n); }
  }

  // The server never offers more room than it has.
  lemma WindowIsNeverOverstated(y: System, file: seq<byte>, run: seq<Step>)
    requires Initial(y) && |file| + 1 < UINT32 && CanRun(y, file, run)
    ensures var z := After(y, file, run);
            && Held(z.r.buffer) <= z.r.bytes
            && (Held(z.r.buffer) <= RECEIVER_BUFFER_SIZE ==> Reply(z.r).window <= RECEIVER_BUFFER_SIZE - Held(z.r.buffer))
            && (Held(z.r.buffer) > RECEIVER_BUFFER_SIZE ==> Reply(z.r).window == 0)
  {
    InitialInv(y, file);
    RunKeepsInv(y, file, run);
  }
}
