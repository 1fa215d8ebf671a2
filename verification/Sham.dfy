// The two programs: the file-sending loop of reliable-transport-protocol/client.c and
// the file-receiving loop of reliable-transport-protocol/server.c.

module Sham {
  import opened Bytes
  import opened ShamModel

  class Client {
    const file: seq<byte>
    var offset: nat              // read position of input_file
    var base: nat
    var next: nat                // next_seq_num
    var complete: bool           // file_read_complete
    const ring: array<Slot>      // window_buffer
    var window: nat              // server_window
    var lastAcked: nat

    ghost function State(): Sender
      reads this, ring
    {
      Sender(base, next, complete, ring[..], window, lastAcked, offset)
    }

    constructor (file: seq<byte>)
      ensures this.file == file && fresh(ring) && ring.Length == CONGESTION_WINDOW_SIZE
      ensures State() == Sender(1, 1, false, ring[..], 65535, 0, 0)
      ensures forall i | 0 <= i < ring.Length :: !ring[i].valid
    {
      this.file := file;
      offset, base, next, complete, window, lastAcked := 0, 1, 1, false, 65535, 0;
      ring := new Slot[CONGESTION_WINDOW_SIZE](_ => Slot(false, 0, []));
    }

    // The inner loop: fill the window.
    method Refill() returns (sent: seq<Packet>)
      requires ring.Length == CONGESTION_WINDOW_SIZE
      modifies `offset, `next, `complete, ring
      ensures (State(), sent) == ShamModel.Refill(old(State()), file)
    {
      hide RingIndex, ShamModel.Refill, Continues;
      sent := [];
      var unacknowledged := Sub32(next, base);
      ghost var s0 := State();
      ContinuesFromStart(s0, file);
      while next < Add32(base, WINDOW_BYTES) && unacknowledged < window && !complete
        invariant unacknowledged == Sub32(next, base) && Continues(s0, State(), sent, file)
        decreases |file| - offset, !complete
      {
        ghost var s := State();
        ContinuesEnd(s0, s, sent, file);
        var chunk := Chunk(file, offset);
        if |chunk| > 0 {
          ContinuesSend(s0, s, sent, file);
          var index := RingIndex(next);
          ring[index] := Slot(true, next, chunk);
          offset := offset + |chunk|;
          sent := sent + [Data(next, chunk)];
          next := Add32(next, |chunk|);
          unacknowledged := Sub32(next, base);
          assert State() == SendChunk(s, chunk);
        } else {
          complete := true;
        }
      }
      ContinuesEnd(s0, State(), sent, file);
    }

    // An ACK arrives.
    method TakeAck(a: Ack)
      modifies `base, `window, `lastAcked
      ensures State() == ShamModel.TakeAck(old(State()), a)
    {
      if a.ackNum > base && a.ackNum > lastAcked {
        base := a.ackNum;
        window := a.window;
        lastAcked := base;
      }
    }

    // The sweep: drop what is acknowledged, send again what has timed out.
    method Sweep(late: seq<bool>) returns (resent: seq<Packet>)
      requires |late| == ring.Length
      modifies ring
      ensures resent == Resent(old(ring[..]), base, late, ring.Length)
      ensures State() == old(State()).(ring := Swept(old(ring[..]), base, ring.Length))
    {
      resent := [];
      for i := 0 to ring.Length
        invariant resent == Resent(old(ring[..]), base, late, i)
        invariant ring[..] == Swept(old(ring[..]), base, i)
      {
        assert ring[i] == old(ring[..])[i];
        if ring[i].valid && ring[i].seqNum < base {
          ring[i] := ring[i].(valid := false);
        }
        if ring[i].valid && ring[i].seqNum >= base {
          if late[i] {
            resent := resent + [Data(ring[i].seqNum, ring[i].data)];
          }
        }
      }
    }
  }

  class Server {
    var expected: nat            // expected_seq_num
    const buffer: array<Slot>    // packet_buffer
    var bytes: nat               // bytes_in_buffer
    var output: seq<byte>        // output_file

    ghost function State(): Receiver
      reads this, buffer
    {
      Receiver(expected, buffer[..], bytes, output)
    }

    constructor ()
      ensures fresh(buffer) && buffer.Length == MAX_BUFFERED_PACKETS && State() == Receiver(1, buffer[..], 0, [])
      ensures forall i | 0 <= i < buffer.Length :: !buffer[i].valid
    {
      expected, bytes, output := 1, 0, [];
      buffer := new Slot[MAX_BUFFERED_PACKETS](_ => Slot(false, 0, []));
    }

    // The drain loop.
    method Drain()
      requires Accounts(State())
      modifies `expected, `bytes, `output, buffer
      ensures Accounts(State()) && State() == ShamModel.Drain(old(State()))
    {
      while true
        invariant Accounts(State()) && ShamModel.Drain(State()) == ShamModel.Drain(old(State()))
        decreases ValidCount(buffer[..])
      {
        var found := DeliverNext();
        if !found { break; }
      }
    }

    // One search through the buffer.
    method DeliverNext() returns (found: bool)
      requires Accounts(State())
      modifies `expected, `bytes, `output, buffer
      ensures found <==> FindMatch(old(buffer[..]), old(expected)) >= 0
      ensures !found ==> State() == old(State())
      ensures found ==> State() == Deliver(old(State()), FindMatch(old(buffer[..]), old(expected)))
    {
      var i := 0;
      while i < buffer.Length
        invariant 0 <= i <= buffer.Length
        invariant forall j | 0 <= j < i :: !IsMatch(buffer[j], expected)
      {
        if buffer[i].valid && buffer[i].seqNum == expected {
          ghost var r := State();
          assert FirstMatch(r.buffer, expected, i);
          HeldAtLeast(r.buffer, i);
          var size := |buffer[i].data|;
          output := output + buffer[i].data;
          expected := Add32(expected, size);
          bytes := bytes - size;
          buffer[i] := buffer[i].(valid := false);
          assert buffer[..] == r.buffer[i := r.buffer[i].(valid := false)];
          return true;
        }
        i := i + 1;
      }
      return false;
    }

    // A data packet arrives and is acknowledged.
    method Receive(p: Packet) returns (ack: Ack)
      requires p.Data? && Accounts(State())
      modifies `expected, `bytes, `output, buffer
      ensures State() == ShamModel.Receive(old(State()), p)
      ensures ack == Reply(State())
    {
      if p.seqNum == expected {
        output := output + p.data;
        expected := Add32(expected, |p.data|);
        Drain();
      } else if p.seqNum > expected {
        bytes := bytes + |p.data|;
        var i := 0;
        while i < buffer.Length
          invariant 0 <= i <= buffer.Length
          invariant forall j | 0 <= j < i :: buffer[j].valid
          invariant State() == old(State()).(bytes := bytes)
        {
          if !buffer[i].valid {
            assert FirstFree(old(buffer[..]), i);
            buffer[i] := Slot(true, p.seqNum, p.data);
            assert buffer[..] == old(buffer[..])[i := Slot(true, p.seqNum, p.data)];
            break;
          }
          i := i + 1;
        }
      }
      var window := if RECEIVER_BUFFER_SIZE > bytes then RECEIVER_BUFFER_SIZE - bytes else 0;
      ack := Ack(expected, window);
    }
  }
}
