// The data phase of S.H.A.M. on values: what one turn of the sender's loop
// (reliable-transport-protocol/client.c) and one received datagram
// (reliable-transport-protocol/server.c) do.

module ShamModel {
  import opened Bytes

  const SHAM_DATA_SIZE := 1024
  const CONGESTION_WINDOW_SIZE := 10
  const MAX_BUFFERED_PACKETS := 50
  const RECEIVER_BUFFER_SIZE := 20480
  const WINDOW_BYTES := CONGESTION_WINDOW_SIZE * SHAM_DATA_SIZE
  const UINT32: nat := 0x1_0000_0000

  function Add32(a: nat, b: nat): nat { (a + b) % UINT32 }

  function Sub32(a: nat, b: nat): nat { (a - b) % UINT32 }

  // A datagram from the client: data, or the closing FIN.
  datatype Packet = Data(seqNum: nat, data: seq<byte>) | Fin(seqNum: nat)

  datatype Ack = Ack(ackNum: nat, window: nat)

  // An element of window_buffer or packet_buffer.
  datatype Slot = Slot(valid: bool, seqNum: nat, data: seq<byte>)

  // offset is the read position of the input file.
  datatype Sender = Sender(base: nat, next: nat, complete: bool, ring: seq<Slot>, window: nat, lastAcked: nat, offset: nat)

  datatype Receiver = Receiver(expected: nat, buffer: seq<Slot>, bytes: nat, output: seq<byte>)

  // fread of up to SHAM_DATA_SIZE bytes: short only at the end of the file.
  function Chunk(file: seq<byte>, offset: nat): seq<byte> {
    if offset >= |file| then []
    else if offset + SHAM_DATA_SIZE <= |file| then file[offset..offset + SHAM_DATA_SIZE]
    else file[offset..]
  }

  function RingIndex(seqNum: nat): (i: nat)
    ensures i < CONGESTION_WINDOW_SIZE
  {
    (Sub32(seqNum, 1) / SHAM_DATA_SIZE) % CONGESTION_WINDOW_SIZE
  }

  // The condition of the sender's inner loop.
  predicate MaySend(s: Sender) {
    && s.next < Add32(s.base, WINDOW_BYTES)
    && Sub32(s.next, s.base) < s.window
    && !s.complete
  }

  predicate Shaped(s: Sender) {
    |s.ring| == CONGESTION_WINDOW_SIZE
  }

  // One turn of that loop that reads data.
  function SendChunk(s: Sender, chunk: seq<byte>): Sender
    requires Shaped(s)
  {
    s.(ring := s.ring[RingIndex(s.next) := Slot(true, s.next, chunk)],
       next := Add32(s.next, |chunk|),
       offset := s.offset + |chunk|)
  }

  // The whole inner loop, with what it sends.
  function Refill(s: Sender, file: seq<byte>): (Sender, seq<Packet>)
    requires Shaped(s)
    decreases |file| - s.offset
  {
    if !MaySend(s) then (s, [])
    else
      var chunk := Chunk(file, s.offset);
      if chunk == [] then (s.(complete := true), [])
      else
        var (r, sent) := Refill(SendChunk(s, chunk), file);
        (r, [Data(s.next, chunk)] + sent)
  }

  // From s, having sent these packets, the loop still reaches what it reaches from s0.
  ghost predicate Continues(s0: Sender, s: Sender, sent: seq<Packet>, file: seq<byte>)
    requires Shaped(s0) && Shaped(s)
  {
    Refill(s0, file).0 == Refill(s, file).0 && Refill(s0, file).1 == sent + Refill(s, file).1
  }

  lemma ContinuesFromStart(s: Sender, file: seq<byte>)
    requires Shaped(s)
    ensures Continues(s, s, [], file)
  {
  }

  lemma ContinuesSend(s0: Sender, s: Sender, sent: seq<Packet>, file: seq<byte>)
    requires Shaped(s0) && Shaped(s) && Continues(s0, s, sent, file) && MaySend(s)
    requires Chunk(file, s.offset) != []
    ensures var chunk := Chunk(file, s.offset);
            Continues(s0, SendChunk(s, chunk), sent + [Data(s.next, chunk)], file)
  {
    var chunk := Chunk(file, s.offset);
    var rest := Refill(SendChunk(s, chunk), file).1;
    assert sent + ([Data(s.next, chunk)] + rest) == (sent + [Data(s.next, chunk)]) + rest;
  }

  lemma ContinuesEnd(s0: Sender, s: Sender, sent: seq<Packet>, file: seq<byte>)
    requires Shaped(s0) && Shaped(s) && Continues(s0, s, sent, file)
    ensures !MaySend(s) ==> Refill(s0, file) == (s, sent)
    ensures MaySend(s) && Chunk(file, s.offset) == [] ==> Continues(s0, s.(complete := true), sent, file)
  {
    assert sent + [] == sent;
  }

  function TakeAck(s: Sender, a: Ack): Sender {
    if a.ackNum > s.base && a.ackNum > s.lastAcked
    then s.(base := a.ackNum, window := a.window, lastAcked := a.ackNum)
    else s
  }

  // One slot of the sweep that ends a turn of the outer loop.
  function Retire(slot: Slot, base: nat): Slot {
    if slot.valid && slot.seqNum < base then slot.(valid := false) else slot
  }

  predicate Retransmits(slot: Slot, base: nat, late: bool) {
    slot.valid && slot.seqNum >= base && late
  }

  // The first n slots of the sweep; late[i] says that slot i has timed out.
  function Swept(ring: seq<Slot>, base: nat, n: nat): (r: seq<Slot>)
    requires n <= |ring|
    ensures |r| == |ring|
    ensures forall i | 0 <= i < |ring| :: r[i] == if i < n then Retire(ring[i], base) else ring[i]
  {
    if n == 0 then ring else Swept(ring, base, n - 1)[n - 1 := Retire(ring[n - 1], base)]
  }

  function Resent(ring: seq<Slot>, base: nat, late: seq<bool>, n: nat): (ps: seq<Packet>)
    requires n <= |ring| == |late|
    ensures forall p | p in ps :: exists i :: 0 <= i < n && Retransmits(ring[i], base, late[i]) && p == Data(ring[i].seqNum, ring[i].data)
  {
    if n == 0 then []
    else
      var ps := Resent(ring, base, late, n - 1);
      var slot := ring[n - 1];
      if Retransmits(slot, base, late[n - 1]) then ps + [Data(slot.seqNum, slot.data)] else ps
  }

  // The outer loop's condition.
  predicate Running(s: Sender) {
    !s.complete || s.base < s.next
  }

  // Bytes in valid slots.
  function Held(buffer: seq<Slot>): nat {
    if buffer == [] then 0
    else Held(buffer[..|buffer| - 1]) + Size(buffer[|buffer| - 1])
  }

  function Size(slot: Slot): nat { if slot.valid then |slot.data| else 0 }

  lemma {:induction false} HeldUpdate(buffer: seq<Slot>, i: nat, slot: Slot)
    requires i < |buffer|
    ensures Held(buffer[i := slot]) == Held(buffer) - Size(buffer[i]) + Size(slot)
  {
    var n := |buffer| - 1;
    if i == n {
      assert buffer[i := slot][..n] == buffer[..n];
    } else {
      HeldUpdate(buffer[..n], i, slot);
      assert buffer[i := slot][..n] == buffer[..n][i := slot];
    }
  }

  lemma {:induction false} HeldAtLeast(buffer: seq<Slot>, i: nat)
    requires i < |buffer|
    ensures Held(buffer) >= Size(buffer[i])
  {
    HeldUpdate(buffer, i, Slot(false, 0, []));
  }

  predicate IsMatch(slot: Slot, seqNum: nat) {
    slot.valid && slot.seqNum == seqNum
  }

  ghost predicate FirstMatch(buffer: seq<Slot>, seqNum: nat, k: nat) {
    k < |buffer| && IsMatch(buffer[k], seqNum) && forall i | 0 <= i < k :: !IsMatch(buffer[i], seqNum)
  }

  // Index of the first buffered packet with this sequence number, or -1.
  function FindMatch(buffer: seq<Slot>, seqNum: nat): (r: int)
    ensures -1 <= r < |buffer|
    ensures if r >= 0 then FirstMatch(buffer, seqNum, r) else forall i | 0 <= i < |buffer| :: !IsMatch(buffer[i], seqNum)
  {
    if buffer == [] then -1
    else
      var n := |buffer| - 1;
      var r := FindMatch(buffer[..n], seqNum);
      assert forall i | 0 <= i < n :: buffer[i] == buffer[..n][i];
      if r >= 0 then r else if IsMatch(buffer[n], seqNum) then n else -1
  }

  ghost predicate FirstFree(buffer: seq<Slot>, k: nat) {
    k < |buffer| && !buffer[k].valid && forall i | 0 <= i < k :: buffer[i].valid
  }

  function FindFree(buffer: seq<Slot>): (r: int)
    ensures -1 <= r < |buffer|
    ensures if r >= 0 then FirstFree(buffer, r) else forall i | 0 <= i < |buffer| :: buffer[i].valid
  {
    if buffer == [] then -1
    else
      var n := |buffer| - 1;
      var r := FindFree(buffer[..n]);
      assert forall i | 0 <= i < n :: buffer[i] == buffer[..n][i];
      if r >= 0 then r else if !buffer[n].valid then n else -1
  }

  function ValidCount(buffer: seq<Slot>): nat {
    if buffer == [] then 0
    else ValidCount(buffer[..|buffer| - 1]) + (if buffer[|buffer| - 1].valid then 1 else 0)
  }

  lemma {:induction false} ValidCountDrops(buffer: seq<Slot>, i: nat)
    requires i < |buffer| && buffer[i].valid
    ensures ValidCount(buffer[i := buffer[i].(valid := false)]) == ValidCount(buffer) - 1
  {
    var n := |buffer| - 1;
    var b := buffer[i := buffer[i].(valid := false)];
    if i == n {
      assert b[..n] == buffer[..n];
    } else {
      ValidCountDrops(buffer[..n], i);
      assert b[..n] == buffer[..n][i := buffer[i].(valid := false)];
    }
  }

  // The subtraction in the drain loop cannot underflow.
  ghost predicate Accounts(r: Receiver) {
    Held(r.buffer) <= r.bytes
  }

  // Deliver the buffered packet at k.
  function Deliver(r: Receiver, k: nat): (d: Receiver)
    requires k < |r.buffer| && r.buffer[k].valid && Accounts(r)
    ensures Accounts(d) && ValidCount(d.buffer) < ValidCount(r.buffer)
  {
    var data := r.buffer[k].data;
    HeldAtLeast(r.buffer, k);
    HeldUpdate(r.buffer, k, r.buffer[k].(valid := false));
    ValidCountDrops(r.buffer, k);
    r.(output := r.output + data,
       expected := Add32(r.expected, |data|),
       bytes := r.bytes - |data|,
       buffer := r.buffer[k := r.buffer[k].(valid := false)])
  }

  // The drain loop. It ends because every turn empties a slot.
  function Drain(r: Receiver): (d: Receiver)
    requires Accounts(r)
    ensures Accounts(d) && FindMatch(d.buffer, d.expected) < 0
    decreases ValidCount(r.buffer)
  {
    var k := FindMatch(r.buffer, r.expected);
    if k < 0 then r else Drain(Deliver(r, k))
  }

  function Buffer(r: Receiver, p: Packet): (b: Receiver)
    requires p.Data? && Accounts(r)
    ensures Accounts(b)
  {
    var k := FindFree(r.buffer);
    if k < 0 then r.(bytes := r.bytes + |p.data|)
    else
      HeldUpdate(r.buffer, k, Slot(true, p.seqNum, p.data));
      r.(bytes := r.bytes + |p.data|, buffer := r.buffer[k := Slot(true, p.seqNum, p.data)])
  }

  // One data packet.
  function Receive(r: Receiver, p: Packet): (q: Receiver)
    requires p.Data? && Accounts(r)
    ensures Accounts(q)
  {
    if p.seqNum == r.expected then
      Drain(r.(output := r.output + p.data, expected := Add32(r.expected, |p.data|)))
    else if p.seqNum > r.expected then Buffer(r, p)
    else r
  }

  function Reply(r: Receiver): Ack {
    Ack(r.expected, if RECEIVER_BUFFER_SIZE > r.bytes then RECEIVER_BUFFER_SIZE - r.bytes else 0)
  }
}
