// The window a S.H.A.M. server offers: what it loses for good, and exactly when.

module ShamWindow {
  import opened Bytes
  import opened ShamModel
  import opened ShamDelivery

  // Bytes in slots that can still be delivered: their numbers are not yet passed.
  function Live(buffer: seq<Slot>, expected: nat): nat {
    if buffer == [] then 0
    else Live(buffer[..|buffer| - 1], expected) + LiveSize(buffer[|buffer| - 1], expected)
  }

  function LiveSize(slot: Slot, expected: nat): nat {
    if slot.valid && slot.seqNum >= expected then |slot.data| else 0
  }

  lemma {:induction false} LiveUpdate(buffer: seq<Slot>, expected: nat, i: nat, slot: Slot)
    requires i < |buffer|
    ensures Live(buffer[i := slot], expected) == Live(buffer, expected) - LiveSize(buffer[i], expected) + LiveSize(slot, expected)
  {
    var n := |buffer| - 1;
    if i == n {
      assert buffer[i := slot][..n] == buffer[..n];
    } else {
      LiveUpdate(buffer[..n], expected, i, slot);
      assert buffer[i := slot][..n] == buffer[..n][i := slot];
    }
  }

  // Bytes in slots whose numbers are in [lo, hi).
  function Between(buffer: seq<Slot>, lo: nat, hi: nat): nat {
    if buffer == [] then 0
    else
      var slot := buffer[|buffer| - 1];
      Between(buffer[..|buffer| - 1], lo, hi) + (if slot.valid && lo <= slot.seqNum < hi then |slot.data| else 0)
  }

  lemma {:induction false} LiveSplits(buffer: seq<Slot>, lo: nat, hi: nat)
    requires lo <= hi
    ensures Live(buffer, lo) == Live(buffer, hi) + Between(buffer, lo, hi)
    ensures Live(buffer, lo) <= Held(buffer)
  {
    if buffer != [] { LiveSplits(buffer[..|buffer| - 1], lo, hi); }
  }

  lemma {:induction false} BetweenSplits(buffer: seq<Slot>, lo: nat, mid: nat, hi: nat)
    requires lo <= mid <= hi
    ensures Between(buffer, lo, hi) == Between(buffer, lo, mid) + Between(buffer, mid, hi)
  {
    if buffer != [] { BetweenSplits(buffer[..|buffer| - 1], lo, mid, hi); }
  }

  lemma {:induction false} BetweenSame(b: seq<Slot>, c: seq<Slot>, lo: nat, hi: nat)
    requires |b| == |c| && forall i | 0 <= i < |b| && (b[i] != c[i]) :: b[i].seqNum == c[i].seqNum >= hi
    ensures Between(b, lo, hi) == Between(c, lo, hi)
  {
    if b != [] {
      var n := |b| - 1;
      assert b[..n] != [] || n == 0;
      BetweenSame(b[..n], c[..n], lo, hi);
    }
  }

  // A slot in the range that holds anything counts.
  lemma {:induction false} BetweenPositive(buffer: seq<Slot>, lo: nat, hi: nat)
    requires forall i | 0 <= i < |buffer| && buffer[i].valid :: buffer[i].data != []
    ensures Between(buffer, lo, hi) > 0 <==> exists i :: 0 <= i < |buffer| && buffer[i].valid && lo <= buffer[i].seqNum < hi
  {
    if buffer != [] {
      var n := |buffer| - 1;
      BetweenPositive(buffer[..n], lo, hi);
      if i :| 0 <= i < n && buffer[..n][i].valid && lo <= buffer[..n][i].seqNum < hi {
        assert buffer[i] == buffer[..n][i];
      }
    }
  }

  // What bytes_in_buffer counts although it can never be drained again.
  function Lost(r: Receiver): int { r.bytes - Live(r.buffer, r.expected) }

  // Draining only empties slots, and only those whose numbers it passes.
  ghost predicate Emptied(b: seq<Slot>, c: seq<Slot>, from: nat, to: nat) {
    |b| == |c| && forall i | 0 <= i < |b| :: c[i] == b[i] || (c[i] == b[i].(valid := false) && from <= b[i].seqNum < to)
  }

  lemma {:induction false} DrainEmpties(r: Receiver, next: nat, file: seq<byte>)
    requires ReceiverInv(r, next, file) && Boundary(next, file) && |file| + 1 < UINT32
    ensures Emptied(r.buffer, Drain(r).buffer, r.expected, Drain(r).expected) && r.expected <= Drain(r).expected
    decreases ValidCount(r.buffer)
  {
    var k := FindMatch(r.buffer, r.expected);
    if k >= 0 {
      DeliverKeepsInv(r, next, file, k);
      DrainEmpties(Deliver(r, k), next, file);
    }
  }

  // Exactly what a drain loses: the copies it passes.
  lemma {:induction false} DrainLoses(r: Receiver, next: nat, file: seq<byte>)
    requires ReceiverInv(r, next, file) && Boundary(next, file) && |file| + 1 < UINT32
    ensures var d := Drain(r); Lost(d) == Lost(r) + Between(d.buffer, r.expected, d.expected) && r.expected <= d.expected
    decreases ValidCount(r.buffer)
  {
    hide BufferInv, Boundary, Held, Live;
    var k := FindMatch(r.buffer, r.expected);
    var z := Drain(r);
    DrainKeepsInv(r, next, file);
    if k >= 0 {
      var d := Deliver(r, k);
      DeliverKeepsInv(r, next, file, k);
      LiveUpdate(r.buffer, r.expected, k, r.buffer[k].(valid := false));
      LiveSplits(d.buffer, r.expected, d.expected);
      DrainLoses(d, next, file);
      DrainKeepsInv(d, next, file);
      DrainEmpties(d, next, file);
      BetweenSame(d.buffer, z.buffer, r.expected, d.expected);
      BetweenSplits(z.buffer, r.expected, d.expected, z.expected);
    } else {
      NothingBetween(r.buffer, r.expected);
    }
  }

  lemma {:induction false} NothingBetween(buffer: seq<Slot>, e: nat)
    ensures Between(buffer, e, e) == 0
  {
    if buffer != [] { NothingBetween(buffer[..|buffer| - 1], e); }
  }

  // The state in which the drain starts, when the expected packet has come.
  function Arrived(r: Receiver, p: Packet): Receiver
    requires p.Data?
  {
    r.(output := r.output + p.data, expected := Add32(r.expected, |p.data|))
  }

  lemma ArrivedKeepsInv(r: Receiver, p: Packet, next: nat, file: seq<byte>)
    requires ReceiverInv(r, next, file) && Boundary(next, file) && |file| + 1 < UINT32
    requires p.Data? && Sent(p.seqNum, p.data, next, file) && p.seqNum == r.expected
    ensures ReceiverInv(Arrived(r, p), next, file) && Arrived(r, p).expected == r.expected + |p.data| && p.data != []
    ensures forall s: nat | Start(s) && r.expected < s :: Arrived(r, p).expected <= s
  {
    hide Chunk, BufferInv;
    NextBoundary(r.expected, next, file);
    ChunkEnds(file, r.expected);
    SmallAdd(r.expected, |p.data|);
  }

  // Exactly what one packet loses: itself if it is early and there is no slot, else the
  // copies of segments that the drain passes.
  lemma ReceiveLoses(r: Receiver, p: Packet, next: nat, file: seq<byte>)
    requires ReceiverInv(r, next, file) && Boundary(next, file) && |file| + 1 < UINT32
    requires p.Data? && Sent(p.seqNum, p.data, next, file)
    ensures var q := Receive(r, p);
            Lost(q) == Lost(r) + if p.seqNum == r.expected then Between(q.buffer, r.expected, q.expected)
                                 else if p.seqNum > r.expected && FindFree(r.buffer) < 0 then |p.data|
                                 else 0
  {
    hide BufferInv, Boundary, Held, Live, Sent, Drain;
    if p.seqNum == r.expected {
      var a := Arrived(r, p);
      ArrivedKeepsInv(r, p, next, file);
      var q := Receive(r, p);
      LiveSplits(r.buffer, r.expected, a.expected);
      DrainLoses(a, next, file);
      DrainEmpties(a, next, file);
      BetweenSame(r.buffer, q.buffer, r.expected, a.expected);
      BetweenSplits(q.buffer, r.expected, a.expected, q.expected);
    } else if p.seqNum > r.expected {
      var k := FindFree(r.buffer);
      if k >= 0 { LiveUpdate(r.buffer, r.expected, k, Slot(true, p.seqNum, p.data)); }
    }
  }

  // Two slots hold the same segment.
  ghost predicate Twins(buffer: seq<Slot>, i: nat, j: nat) {
    i < |buffer| && j < |buffer| && i != j && buffer[i].valid && buffer[j].valid && buffer[i].seqNum == buffer[j].seqNum
  }

  // Of two copies the drain takes one; the other stays.
  lemma {:induction false} OneTwinStays(r: Receiver, next: nat, file: seq<byte>, i: nat, j: nat)
    requires ReceiverInv(r, next, file) && Boundary(next, file) && |file| + 1 < UINT32
    requires Twins(r.buffer, i, j) && r.expected <= r.buffer[i].seqNum
    ensures var b := Drain(r).buffer; |b| == |r.buffer| && (b[i] == r.buffer[i] || b[j] == r.buffer[j])
    decreases ValidCount(r.buffer)
  {
    var k := FindMatch(r.buffer, r.expected);
    if k >= 0 {
      var d := Deliver(r, k);
      DeliverKeepsInv(r, next, file, k);
      DrainEmpties(d, next, file);
      if r.buffer[i].seqNum > r.expected {
        SegmentsApart(r, next, file, k, i);
        OneTwinStays(d, next, file, i, j);
      }
    }
  }

  lemma SegmentsApart(r: Receiver, next: nat, file: seq<byte>, k: nat, i: nat)
    requires ReceiverInv(r, next, file) && Boundary(next, file) && |file| + 1 < UINT32
    requires k < |r.buffer| && IsMatch(r.buffer[k], r.expected)
    requires i < |r.buffer| && r.buffer[i].valid && r.buffer[i].seqNum > r.expected
    ensures Deliver(r, k).expected <= r.buffer[i].seqNum
  {
    hide Chunk;
    assert Sent(r.buffer[k].seqNum, r.buffer[k].data, next, file) && Sent(r.buffer[i].seqNum, r.buffer[i].data, next, file);
    ChunkEnds(file, r.expected);
    NextBoundary(r.expected, next, file);
    SmallAdd(r.expected, |r.buffer[k].data|);
  }

  // A copy that the drain has passed had a twin, which was taken.
  lemma {:induction false} PassedHadTwin(r: Receiver, next: nat, file: seq<byte>, i: nat) returns (j: nat)
    requires ReceiverInv(r, next, file) && Boundary(next, file) && |file| + 1 < UINT32
    requires i < |Drain(r).buffer| && Drain(r).buffer[i].valid && r.expected <= Drain(r).buffer[i].seqNum < Drain(r).expected
    ensures Twins(r.buffer, i, j)
    decreases ValidCount(r.buffer)
  {
    DrainEmpties(r, next, file);
    var k := FindMatch(r.buffer, r.expected);
    var d := Deliver(r, k);
    DeliverKeepsInv(r, next, file, k);
    DrainEmpties(d, next, file);
    if r.buffer[i].seqNum == r.expected {
      j := k;
    } else {
      SegmentsApart(r, next, file, k, i);
      j := PassedHadTwin(d, next, file, i);
    }
  }

  predicate Buffered(buffer: seq<Slot>, n: nat) {
    exists i :: 0 <= i < |buffer| && IsMatch(buffer[i], n)
  }

  // Every segment that starts in [lo, n] is in a slot.
  ghost predicate NoneMissing(buffer: seq<Slot>, lo: nat, n: nat) {
    forall m: nat | Start(m) && lo <= m <= n :: Buffered(buffer, m)
  }

  // The drain passes just the segments before the first one missing.
  lemma {:induction false} DrainReaches(r: Receiver, next: nat, file: seq<byte>, n: nat)
    requires ReceiverInv(r, next, file) && Boundary(next, file) && |file| + 1 < UINT32 && Start(n) && r.expected <= n
    ensures n < Drain(r).expected <==> NoneMissing(r.buffer, r.expected, n)
    decreases ValidCount(r.buffer)
  {
    hide Chunk, Held;
    var k := FindMatch(r.buffer, r.expected);
    if k < 0 {
      if i :| 0 <= i < |r.buffer| && IsMatch(r.buffer[i], n) {
        assert Sent(r.buffer[i].seqNum, r.buffer[i].data, next, file);
      }
      assert NoneMissing(r.buffer, r.expected, n) && Start(r.expected) ==> Buffered(r.buffer, r.expected);
    } else {
      var d := Deliver(r, k);
      DeliverKeepsInv(r, next, file, k);
      DeliverPasses(r, next, file, k);
      if n == r.expected {
        DrainKeepsInv(d, next, file);
        assert Buffered(r.buffer, n);
      } else {
        DrainReaches(d, next, file, n);
        forall m: nat | Start(m) && r.expected < m
          ensures Buffered(d.buffer, m) <==> Buffered(r.buffer, m)
        {
          BufferedAfter(r, k, m);
        }
        assert Buffered(r.buffer, r.expected);
      }
    }
  }

  lemma DeliverPasses(r: Receiver, next: nat, file: seq<byte>, k: nat)
    requires ReceiverInv(r, next, file) && Boundary(next, file) && |file| + 1 < UINT32
    requires k < |r.buffer| && IsMatch(r.buffer[k], r.expected)
    ensures forall s: nat | Start(s) && r.expected < s :: Deliver(r, k).expected <= s
  {
    hide Chunk;
    assert Sent(r.buffer[k].seqNum, r.buffer[k].data, next, file);
    ChunkEnds(file, r.expected);
    NextBoundary(r.expected, next, file);
    SmallAdd(r.expected, |r.buffer[k].data|);
  }

  lemma BufferedAfter(r: Receiver, k: nat, m: nat)
    requires Accounts(r) && k < |r.buffer| && IsMatch(r.buffer[k], r.expected) && r.expected < m
    ensures Buffered(Deliver(r, k).buffer, m) <==> Buffered(r.buffer, m)
  {
    hide Held, Accounts;
    var b, c := r.buffer, Deliver(r, k).buffer;
    if i :| 0 <= i < |b| && IsMatch(b[i], m) { assert IsMatch(c[i], m); }
    if i :| 0 <= i < |c| && IsMatch(c[i], m) { assert IsMatch(b[i], m); }
  }

  // Once the expected packet has come, the drain reaches every segment up to the first gap.
  lemma ArrivedReaches(r: Receiver, p: Packet, next: nat, file: seq<byte>, n: nat)
    requires ReceiverInv(r, next, file) && Boundary(next, file) && |file| + 1 < UINT32
    requires p.Data? && Sent(p.seqNum, p.data, next, file) && p.seqNum == r.expected && Start(n) && r.expected < n
    ensures n < Receive(r, p).expected <==> NoneMissing(r.buffer, r.expected + 1, n)
  {
    hide Sent, Boundary, BufferInv, Held, Drain, Start, Buffered;
    var a := Arrived(r, p);
    ArrivedKeepsInv(r, p, next, file);
    DrainReaches(a, next, file, n);
  }

  // An early packet finds no slot; or a copy of the packet that has come lies in the buffer,
  // or two copies of a later segment, with none missing in between.
  ghost predicate Wastes(r: Receiver, p: Packet)
    requires p.Data?
  {
    if p.seqNum == r.expected then
      || Buffered(r.buffer, r.expected)
      || (exists i: nat, j: nat :: Twins(r.buffer, i, j) && r.expected < r.buffer[i].seqNum
                                   && NoneMissing(r.buffer, r.expected + 1, r.buffer[i].seqNum))
    else p.seqNum > r.expected && FindFree(r.buffer) < 0
  }

  lemma DataInSlots(buffer: seq<Slot>, next: nat, file: seq<byte>)
    requires BufferInv(buffer, next, file)
    ensures forall i | 0 <= i < |buffer| && buffer[i].valid :: buffer[i].data != [] && Start(buffer[i].seqNum)
  {
    forall i | 0 <= i < |buffer| && buffer[i].valid
      ensures buffer[i].data != [] && Start(buffer[i].seqNum)
    {
      assert Sent(buffer[i].seqNum, buffer[i].data, next, file);
      ChunkEnds(file, buffer[i].seqNum);
    }
  }

  // A slot that is passed held a copy of the packet, or a second copy of what follows it.
  lemma PassedWastes(r: Receiver, p: Packet, next: nat, file: seq<byte>, i: nat)
    requires ReceiverInv(r, next, file) && Boundary(next, file) && |file| + 1 < UINT32
    requires p.Data? && Sent(p.seqNum, p.data, next, file) && p.seqNum == r.expected
    requires var q := Receive(r, p); i < |q.buffer| && q.buffer[i].valid && r.expected <= q.buffer[i].seqNum < q.expected
    ensures Wastes(r, p)
  {
    hide Chunk, Boundary, Sent, Drain, Held;
    var a, q := Arrived(r, p), Receive(r, p);
    ArrivedKeepsInv(r, p, next, file);
    DataInSlots(r.buffer, next, file);
    DrainEmpties(a, next, file);
    if q.buffer[i].seqNum > r.expected {
      var j := PassedHadTwin(a, next, file, i);
      ArrivedReaches(r, p, next, file, r.buffer[i].seqNum);
    } else {
      assert IsMatch(r.buffer[i], r.expected);
    }
  }

  // And such copies are passed.
  lemma WastesPasses(r: Receiver, p: Packet, next: nat, file: seq<byte>) returns (k: nat)
    requires ReceiverInv(r, next, file) && Boundary(next, file) && |file| + 1 < UINT32
    requires p.Data? && Sent(p.seqNum, p.data, next, file) && p.seqNum == r.expected && Wastes(r, p)
    ensures var q := Receive(r, p); k < |q.buffer| && q.buffer[k].valid && r.expected <= q.buffer[k].seqNum < q.expected
  {
    hide Chunk, Boundary, Sent, Drain, Held;
    var a, q := Arrived(r, p), Receive(r, p);
    ArrivedKeepsInv(r, p, next, file);
    DrainEmpties(a, next, file);
    DrainKeepsInv(a, next, file);
    if i :| 0 <= i < |r.buffer| && IsMatch(r.buffer[i], r.expected) {
      k := i;
    } else {
      var i: nat, j: nat :| Twins(r.buffer, i, j) && r.expected < r.buffer[i].seqNum
                            && NoneMissing(r.buffer, r.expected + 1, r.buffer[i].seqNum);
      DataInSlots(r.buffer, next, file);
      ArrivedReaches(r, p, next, file, r.buffer[i].seqNum);
      OneTwinStays(a, next, file, i, j);
      k := if q.buffer[i] == r.buffer[i] then i else j;
    }
  }

  lemma PassedIff(r: Receiver, p: Packet, next: nat, file: seq<byte>)
    requires ReceiverInv(r, next, file) && Boundary(next, file) && |file| + 1 < UINT32
    requires p.Data? && Sent(p.seqNum, p.data, next, file) && p.seqNum == r.expected
    ensures var q := Receive(r, p);
            (exists i :: 0 <= i < |q.buffer| && q.buffer[i].valid && r.expected <= q.buffer[i].seqNum < q.expected) <==> Wastes(r, p)
  {
    hide Wastes, Receive, BufferInv, Boundary, Sent, Held;
    var q := Receive(r, p);
    if i :| 0 <= i < |q.buffer| && q.buffer[i].valid && r.expected <= q.buffer[i].seqNum < q.expected {
      PassedWastes(r, p, next, file, i);
    }
    if Wastes(r, p) {
      var k := WastesPasses(r, p, next, file);
    }
  }

  // Window space is lost exactly then, and what is lost is lost for good: no later packet
  // brings it back, and the offer stays that much below 20480.
  lemma LostWindowStaysLost(r: Receiver, p: Packet, next: nat, file: seq<byte>)
    requires ReceiverInv(r, next, file) && Boundary(next, file) && |file| + 1 < UINT32
    requires p.Data? && Sent(p.seqNum, p.data, next, file)
    ensures Lost(Receive(r, p)) >= Lost(r) >= 0
    ensures Lost(Receive(r, p)) > Lost(r) <==> Wastes(r, p)
    ensures Lost(r) <= RECEIVER_BUFFER_SIZE ==> Reply(r).window <= RECEIVER_BUFFER_SIZE - Lost(r)
    ensures Lost(r) > RECEIVER_BUFFER_SIZE ==> Reply(r).window == 0
  {
    hide Boundary, Held, Live, Drain, Wastes, Sent, BufferInv;
    LiveSplits(r.buffer, r.expected, r.expected);
    ReceiveLoses(r, p, next, file);
    ReceiveKeepsInv(r, p, next, file);
    if p.seqNum == r.expected {
      var q := Receive(r, p);
      PassedIff(r, p, next, file);
      DataInSlots(q.buffer, next, file);
      BetweenPositive(q.buffer, r.expected, q.expected);
    } else {
      WastesLate(r, p);
      SentIsSome(p, next, file);
    }
  }

  lemma WastesLate(r: Receiver, p: Packet)
    requires p.Data? && Accounts(r) && p.seqNum != r.expected
    ensures Wastes(r, p) <==> p.seqNum > r.expected && FindFree(r.buffer) < 0
  {
  }

  lemma SentIsSome(p: Packet, next: nat, file: seq<byte>)
    requires p.Data? && Sent(p.seqNum, p.data, next, file)
    ensures p.data != []
  {
  }

  // There is room for fifty early segments: one that finds fewer is kept.
  lemma EarlyIsKept(r: Receiver, p: Packet, next: nat, file: seq<byte>)
    requires ReceiverInv(r, next, file) && p.Data? && p.seqNum > r.expected && ValidCount(r.buffer) < 50
    ensures var q := Receive(r, p);
            && (exists i :: 0 <= i < |q.buffer| && q.buffer[i] == Slot(true, p.seqNum, p.data))
            && ValidCount(q.buffer) == ValidCount(r.buffer) + 1 && q.bytes == r.bytes + |p.data| && q.expected == r.expected
  {
    hide Held, Accounts;
    AllValid(r.buffer);
    var k := FindFree(r.buffer);
    CountUpdate(r.buffer, k, Slot(true, p.seqNum, p.data));
    assert Receive(r, p).buffer[k] == Slot(true, p.seqNum, p.data);
  }

  lemma {:induction false} AllValid(buffer: seq<Slot>)
    ensures FindFree(buffer) < 0 ==> ValidCount(buffer) == |buffer|
  {
    if buffer != [] {
      var n := |buffer| - 1;
      if FindFree(buffer[..n]) >= 0 {
        assert !buffer[FindFree(buffer[..n])].valid;
      } else {
        AllValid(buffer[..n]);
      }
    }
  }

  lemma {:induction false} CountUpdate(buffer: seq<Slot>, i: nat, slot: Slot)
    requires i < |buffer| && !buffer[i].valid && slot.valid
    ensures ValidCount(buffer[i := slot]) == ValidCount(buffer) + 1
  {
    var n := |buffer| - 1;
    if i == n {
      assert buffer[i := slot][..n] == buffer[..n];
    } else {
      CountUpdate(buffer[..n], i, slot);
      assert buffer[i := slot][..n] == buffer[..n][i := slot];
    }
  }

  // No run ever gets back what is lost.
  lemma {:induction false} LossIsForGood(y: System, file: seq<byte>, run: seq<Step>)
    requires Inv(y, file) && |file| + 1 < UINT32 && CanRun(y, file, run)
    ensures Lost(After(y, file, run).r) >= Lost(y.r)
    decreases |run|
  {
    hide SenderInv, ReceiverInv, Lost, Sent, Boundary;
    if run != [] {
      var e := run[0];
      NextKeepsInv(y, file, e);
      if e.ReceiverTakes? && e.p.Data? {
        NextIsBoundary(y, file);
        LostWindowStaysLost(y.r, e.p, y.s.next, file);
      }
      LossIsForGood(Next(y, file, e), file, run[1..]);
    }
  }

  lemma NextIsBoundary(y: System, file: seq<byte>)
    requires Inv(y, file)
    ensures Boundary(y.s.next, file)
  {
  }

  lemma {:induction false} DrainKeepsCount(r: Receiver)
    requires Accounts(r)
    ensures Drain(r).bytes - Held(Drain(r).buffer) == r.bytes - Held(r.buffer)
    decreases ValidCount(r.buffer)
  {
    var k := FindMatch(r.buffer, r.expected);
    if k >= 0 {
      HeldUpdate(r.buffer, k, r.buffer[k].(valid := false));
      DrainKeepsCount(Deliver(r, k));
    }
  }

  // Every byte that is counted is in a slot; or a slot is pinned by a copy that nobody will
  // ever take, or will be.
  ghost predicate Pinned(r: Receiver) {
    || r.bytes == Held(r.buffer)
    || (exists i :: 0 <= i < |r.buffer| && r.buffer[i].valid && r.buffer[i].seqNum < r.expected)
    || (exists i: nat, j: nat :: Twins(r.buffer, i, j))
  }

  lemma {:induction false} FewNumbers(f: seq<nat>, lo: nat, n: nat)
    requires forall i | 0 <= i < |f| :: lo <= f[i] < lo + n
    requires forall i, j | 0 <= i < j < |f| :: f[i] != f[j]
    ensures |f| <= n
    decreases n
  {
    if f != [] {
      assert lo <= f[0] < lo + n;
      if exists k :: 0 <= k < |f| && f[k] == lo + n - 1 {
        var k :| 0 <= k < |f| && f[k] == lo + n - 1;
        FewNumbers(f[..k] + f[k + 1..], lo, n - 1);
      } else {
        FewNumbers(f, lo, n - 1);
      }
    }
  }

  // Fifty packets from a window of ten: two are the same.
  lemma FullHasTwins(r: Receiver, next: nat, file: seq<byte>)
    requires BufferInv(r.buffer, next, file) && next <= r.expected + WINDOW_BYTES && r.expected >= 1
    requires forall i | 0 <= i < |r.buffer| :: r.buffer[i].valid && r.buffer[i].seqNum >= r.expected
    ensures exists i: nat, j: nat :: Twins(r.buffer, i, j)
  {
    if forall i: nat, j: nat :: !Twins(r.buffer, i, j) {
      DataInSlots(r.buffer, next, file);
      var f := seq(|r.buffer|, i requires 0 <= i < |r.buffer| => (r.buffer[i].seqNum - 1) / SHAM_DATA_SIZE);
      forall i, j | 0 <= i < j < |f|
        ensures f[i] != f[j]
      {
        assert !Twins(r.buffer, i, j);
      }
      forall i | 0 <= i < |f|
        ensures (r.expected - 1) / SHAM_DATA_SIZE <= f[i] < (r.expected - 1) / SHAM_DATA_SIZE + 11
      {
        assert Sent(r.buffer[i].seqNum, r.buffer[i].data, next, file);
      }
      FewNumbers(f, (r.expected - 1) / SHAM_DATA_SIZE, 11);
    }
  }

  lemma BufferKeepsPinned(r: Receiver, p: Packet, next: nat, file: seq<byte>)
    requires ReceiverInv(r, next, file) && next <= r.expected + WINDOW_BYTES && Pinned(r)
    requires p.Data? && p.seqNum > r.expected
    ensures Pinned(Buffer(r, p))
  {
    hide Held;
    var k, q := FindFree(r.buffer), Buffer(r, p);
    if k >= 0 {
      HeldUpdate(r.buffer, k, Slot(true, p.seqNum, p.data));
      if i :| 0 <= i < |r.buffer| && r.buffer[i].valid && r.buffer[i].seqNum < r.expected { assert q.buffer[i].valid; }
      if i: nat, j: nat :| Twins(r.buffer, i, j) { assert Twins(q.buffer, i, j); }
    } else if forall i | 0 <= i < |r.buffer| :: r.buffer[i].seqNum >= r.expected {
      FullHasTwins(r, next, file);
    }
  }

  lemma DrainKeepsPinned(r: Receiver, p: Packet, next: nat, file: seq<byte>)
    requires ReceiverInv(r, next, file) && Boundary(next, file) && |file| + 1 < UINT32 && Pinned(r)
    requires p.Data? && Sent(p.seqNum, p.data, next, file) && p.seqNum == r.expected
    ensures Pinned(Receive(r, p))
  {
    hide Held, Drain, Sent, Boundary, BufferInv, Twins;
    var a, q := Arrived(r, p), Receive(r, p);
    ArrivedKeepsInv(r, p, next, file);
    DrainKeepsCount(a);
    DrainEmpties(a, next, file);
    if i :| 0 <= i < |r.buffer| && r.buffer[i].valid && r.buffer[i].seqNum < r.expected { assert q.buffer[i].valid; }
    if i: nat, j: nat :| Twins(r.buffer, i, j) { TwinsPin(r, p, next, file, i, j); }
  }

  lemma TwinsPin(r: Receiver, p: Packet, next: nat, file: seq<byte>, i: nat, j: nat)
    requires ReceiverInv(r, next, file) && Boundary(next, file) && |file| + 1 < UINT32
    requires p.Data? && Sent(p.seqNum, p.data, next, file) && p.seqNum == r.expected && Twins(r.buffer, i, j)
    ensures Pinned(Receive(r, p))
  {
    hide Held, Drain, Sent, Boundary, BufferInv;
    var a, q := Arrived(r, p), Receive(r, p);
    ArrivedKeepsInv(r, p, next, file);
    DrainEmpties(a, next, file);
    if r.buffer[i].seqNum < a.expected {
      assert q.buffer[i].valid;
    } else {
      OneTwinStays(a, next, file, i, j);
      if r.buffer[i].seqNum < q.expected {
        assert q.buffer[i].valid || q.buffer[j].valid;
      } else {
        assert Twins(q.buffer, i, j);
      }
    }
  }

  lemma {:induction false} RunKeepsPinned(y: System, file: seq<byte>, run: seq<Step>)
    requires Inv(y, file) && |file| + 1 < UINT32 && CanRun(y, file, run) && Pinned(y.r)
    ensures Pinned(After(y, file, run).r)
    decreases |run|
  {
    hide Sent, Boundary, Pinned, RingInv, BufferInv, Held;
    if run != [] {
      var e := run[0];
      NextKeepsInv(y, file, e);
      if e.ReceiverTakes? && e.p.Data? {
        if e.p.seqNum == y.r.expected {
          DrainKeepsPinned(y.r, e.p, y.s.next, file);
        } else if e.p.seqNum > y.r.expected {
          BufferKeepsPinned(y.r, e.p, y.s.next, file);
        }
      }
      RunKeepsPinned(Next(y, file, e), file, run[1..]);
    }
  }

  // Every server with an empty buffer offers all of it: what is lost always keeps a slot too.
  lemma EmptyOffersAll(y: System, file: seq<byte>, run: seq<Step>)
    requires Initial(y) && |file| + 1 < UINT32 && CanRun(y, file, run)
    ensures var z := After(y, file, run);
            (forall i | 0 <= i < |z.r.buffer| :: !z.r.buffer[i].valid) ==> Reply(z.r).window == 20480
  {
    hide Inv, Pinned, Held;
    InitialInv(y, file);
    InitialPinned(y);
    RunKeepsPinned(y, file, run);
    var r := After(y, file, run).r;
    if forall i | 0 <= i < |r.buffer| :: !r.buffer[i].valid { PinnedEmpty(r); }
  }

  lemma InitialPinned(y: System)
    requires Initial(y)
    ensures Pinned(y.r)
  {
    NothingHeld(y.r.buffer);
  }

  lemma PinnedEmpty(r: Receiver)
    requires Pinned(r) && forall i | 0 <= i < |r.buffer| :: !r.buffer[i].valid
    ensures r.bytes == 0
  {
    NothingHeld(r.buffer);
  }

  // A run that loses window, for any file of more than one segment: the second segment
  // comes twice before the first. Then the server has written both, nothing that is left
  // can ever be delivered, and the offer is short by one segment.
  lemma OfferFallsShort(y: System, file: seq<byte>) returns (z: System)
    requires Initial(y) && SHAM_DATA_SIZE < |file| && |file| + 1 < UINT32
    ensures Reaches(y, file, z)
    ensures var late := Chunk(file, SHAM_DATA_SIZE);
            && z.r.expected == 1 + SHAM_DATA_SIZE + |late| <= |file| + 1 && z.r.output == file[..z.r.expected - 1]
            && Live(z.r.buffer, z.r.expected) == 0
            && Reply(z.r).window == RECEIVER_BUFFER_SIZE - |late| < RECEIVER_BUFFER_SIZE
  {
    hide Refill, Receive, Live, Held, Chunk, Inv, Boundary, Reaches;
    var p1, p2 := Data(1, Chunk(file, 0)), Data(1 + SHAM_DATA_SIZE, Chunk(file, SHAM_DATA_SIZE));
    RefillSendsTwo(y.s, file);
    InitialInv(y, file);
    NothingHeld(y.r.buffer);
    TwoCopies(y.r, file);
    ReachesSelf(y, file);
    var y1 := Next(y, file, SenderRefills);
    ReachesNext(y, file, y, SenderRefills);
    var y2 := Next(y1, file, ReceiverTakes(p2));
    ReachesNext(y, file, y1, ReceiverTakes(p2));
    var y3 := Next(y2, file, ReceiverTakes(p2));
    ReachesNext(y, file, y2, ReceiverTakes(p2));
    z := Next(y3, file, ReceiverTakes(p1));
    ReachesNext(y, file, y3, ReceiverTakes(p1));
    ReachedInv(y, file, z);
    OutputIs(z, file);
  }

  lemma ReachedInv(y: System, file: seq<byte>, z: System)
    requires Inv(y, file) && |file| + 1 < UINT32 && Reaches(y, file, z)
    ensures Inv(z, file)
  {
    hide Inv;
    var run :| CanRun(y, file, run) && After(y, file, run) == z;
    RunKeepsInv(y, file, run);
  }

  lemma OutputIs(y: System, file: seq<byte>)
    requires Inv(y, file)
    ensures 1 <= y.r.expected <= |file| + 1 && y.r.output == file[..y.r.expected - 1]
  {
  }

  lemma RefillSendsTwo(s: Sender, file: seq<byte>)
    requires s.base == 1 && s.next == 1 && !s.complete && s.window == 65535 && s.offset == 0 && Shaped(s)
    requires SHAM_DATA_SIZE < |file| && |file| + 1 < UINT32
    ensures Data(1, Chunk(file, 0)) in Refill(s, file).1
    ensures Data(1 + SHAM_DATA_SIZE, Chunk(file, SHAM_DATA_SIZE)) in Refill(s, file).1
  {
    var c1, c2 := Chunk(file, 0), Chunk(file, SHAM_DATA_SIZE);
    var s1 := SendChunk(s, c1);
    var s2 := SendChunk(s1, c2);
    assert Refill(s, file).1 == [Data(1, c1)] + Refill(s1, file).1;
    assert Refill(s1, file).1 == [Data(1 + SHAM_DATA_SIZE, c2)] + Refill(s2, file).1;
  }

  // The second segment, twice before the first.
  lemma TwoEarly(r: Receiver, p: Packet)
    requires r == Receiver(1, r.buffer, 0, []) && |r.buffer| == MAX_BUFFERED_PACKETS && (forall i | 0 <= i < |r.buffer| :: !r.buffer[i].valid)
    requires Accounts(r) && p.Data? && p.seqNum == 1 + SHAM_DATA_SIZE
    ensures var slot, q := Slot(true, p.seqNum, p.data), Receive(Receive(r, p), p);
            q.buffer == r.buffer[0 := slot][1 := slot] && q.bytes == 2 * |p.data| && q.expected == 1
  {
    hide Held;
    var r1 := Receive(r, p);
    assert !r.buffer[0].valid;
    assert FindFree(r.buffer) == 0;
    assert r1.buffer[0].valid && !r1.buffer[1].valid;
    assert FindFree(r1.buffer) == 1;
  }

  // Then the first: the drain takes one copy, and the other is passed.
  lemma ThenFirst(r: Receiver, p: Packet, slot: Slot, n: nat)
    requires Accounts(r) && r.expected == 1 && |r.buffer| == MAX_BUFFERED_PACKETS && r.bytes == 2 * n
    requires r.buffer[0] == r.buffer[1] == slot && slot.valid && slot.seqNum == 1 + SHAM_DATA_SIZE && |slot.data| == n && 0 < n <= SHAM_DATA_SIZE
    requires forall i | 2 <= i < |r.buffer| :: !r.buffer[i].valid
    requires p.Data? && p.seqNum == 1 && |p.data| == SHAM_DATA_SIZE
    ensures var q := Receive(r, p); q.expected == 1 + SHAM_DATA_SIZE + n && q.bytes == n && Live(q.buffer, q.expected) == 0
  {
    hide Held, Live, Drain;
    var a := Arrived(r, p);
    assert IsMatch(a.buffer[0], a.expected);
    assert FindMatch(a.buffer, a.expected) == 0;
    DrainOne(a);
    NoneLive(Deliver(a, 0).buffer, Deliver(a, 0).expected);
  }

  // What the server makes of the three packets.
  lemma TwoCopies(r: Receiver, file: seq<byte>)
    requires r == Receiver(1, r.buffer, 0, []) && |r.buffer| == MAX_BUFFERED_PACKETS && (forall i | 0 <= i < |r.buffer| :: !r.buffer[i].valid)
    requires SHAM_DATA_SIZE < |file| && |file| + 1 < UINT32 && Accounts(r)
    ensures var late := Chunk(file, SHAM_DATA_SIZE);
            var p1, p2 := Data(1, Chunk(file, 0)), Data(1 + SHAM_DATA_SIZE, late);
            var q := Receive(Receive(Receive(r, p2), p2), p1);
            && q.expected == 1 + SHAM_DATA_SIZE + |late| && q.bytes == |late| && 0 < |late| <= SHAM_DATA_SIZE && Live(q.buffer, q.expected) == 0
  {
    hide Held, Live, Drain, Receive, Accounts;
    var late := Chunk(file, SHAM_DATA_SIZE);
    var p1, p2 := Data(1, Chunk(file, 0)), Data(1 + SHAM_DATA_SIZE, late);
    TwoEarly(r, p2);
    ThenFirst(Receive(Receive(r, p2), p2), p1, Slot(true, p2.seqNum, late), |late|);
  }

  lemma DrainOne(a: Receiver)
    requires Accounts(a) && FindMatch(a.buffer, a.expected) == 0
    requires FindMatch(Deliver(a, 0).buffer, Deliver(a, 0).expected) < 0
    ensures Drain(a) == Deliver(a, 0)
  {
  }

  lemma {:induction false} NoneLive(buffer: seq<Slot>, expected: nat)
    requires forall i | 0 <= i < |buffer| && buffer[i].valid :: buffer[i].seqNum < expected
    ensures Live(buffer, expected) == 0
  {
    if buffer != [] { NoneLive(buffer[..|buffer| - 1], expected); }
  }
}
