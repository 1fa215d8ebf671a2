// S.H.A.M. over a network in which a datagram that is lost or delivered is gone, unless the network
// has made another of it: what the client sends again, and that this is enough to go on.

module ShamNetwork {
  import opened Bytes
  import opened ShamModel
  import opened ShamDelivery
  import opened ShamStall
  import opened ShamShut

  // How many of the first n slots are sent again.
  function LateCount(ring: seq<Slot>, base: nat, late: seq<bool>, n: nat): nat
    requires n <= |ring| == |late|
  {
    if n == 0 then 0
    else LateCount(ring, base, late, n - 1) + (if ring[n - 1].valid && ring[n - 1].seqNum >= base && late[n - 1] then 1 else 0)
  }

  // Every late slot that is not acknowledged is sent again, once, in the order of the slots, and
  // no other.
  lemma {:induction false} LateIsResent(ring: seq<Slot>, base: nat, late: seq<bool>, n: nat, i: nat)
    requires i < n <= |ring| == |late| && ring[i].valid && ring[i].seqNum >= base && late[i]
    ensures |Resent(ring, base, late, n)| == LateCount(ring, base, late, n)
    ensures var k := LateCount(ring, base, late, i);
            k < |Resent(ring, base, late, n)| && Resent(ring, base, late, n)[k] == Data(ring[i].seqNum, ring[i].data)
  {
    hide Resent;
    ResentStep(ring, base, late, n);
    ResentCount(ring, base, late, n - 1);
    ResentCount(ring, base, late, n);
    if i < n - 1 { LateIsResent(ring, base, late, n - 1, i); }
  }

  lemma {:induction false} ResentCount(ring: seq<Slot>, base: nat, late: seq<bool>, n: nat)
    requires n <= |ring| == |late|
    ensures |Resent(ring, base, late, n)| == LateCount(ring, base, late, n)
  {
    hide Resent;
    ResentNone(ring, base, late);
    if n > 0 {
      ResentStep(ring, base, late, n);
      ResentCount(ring, base, late, n - 1);
    }
  }

  lemma ResentNone(ring: seq<Slot>, base: nat, late: seq<bool>)
    requires |ring| == |late|
    ensures Resent(ring, base, late, 0) == []
  {
  }

  lemma ResentStep(ring: seq<Slot>, base: nat, late: seq<bool>, n: nat)
    requires 0 < n <= |ring| == |late|
    ensures Resent(ring, base, late, n) == Resent(ring, base, late, n - 1)
              + if ring[n - 1].valid && ring[n - 1].seqNum >= base && late[n - 1] then [Data(ring[n - 1].seqNum, ring[n - 1].data)] else []
  {
  }

  // After a sweep the slots in use are those not acknowledged, unchanged.
  lemma SweptKeeps(ring: seq<Slot>, base: nat, i: nat)
    requires i < |ring|
    ensures var r := Swept(ring, base, |ring|);
            r[i] == ring[i].(valid := ring[i].valid && ring[i].seqNum >= base)
  {
  }

  // Both ends, and what is on its way.
  datatype Net = Net(s: Sender, r: Receiver, closed: bool, packets: multiset<Packet>, acks: multiset<Ack>)

  datatype Event =
    | Sends                      // the client's inner loop
    | Hears(a: Ack)              // an ACK arrives
    | Resends(late: seq<bool>)   // the sweep
    | Finishes                   // FIN
    | Gets(p: Packet)            // a datagram arrives at the server
    | Loses(p: Packet)           // or does not
    | Misses(a: Ack)             // an ACK does not
    | Doubles(p: Packet)         // the network makes another of a datagram
    | Echoes(a: Ack)             // or of an ACK

  ghost predicate May(n: Net, e: Event) {
    match e
    case Sends => Running(n.s) && Shaped(n.s)
    case Hears(a) => a in n.acks
    case Resends(late) => |late| == |n.s.ring|
    case Finishes => !Running(n.s)
    case Gets(p) => !n.closed && p in n.packets && Accounts(n.r)
    case Loses(p) => p in n.packets
    case Misses(a) => a in n.acks
    case Doubles(p) => p in n.packets
    case Echoes(a) => a in n.acks
  }

  ghost function Then(n: Net, file: seq<byte>, e: Event): Net
    requires May(n, e)
  {
    match e
    case Sends =>
      var (s, sent) := Refill(n.s, file);
      n.(s := s, packets := n.packets + multiset(sent))
    case Hears(a) => n.(s := TakeAck(n.s, a), acks := n.acks - multiset{a})
    case Resends(late) =>
      n.(s := n.s.(ring := Swept(n.s.ring, n.s.base, |n.s.ring|)),
         packets := n.packets + multiset(Resent(n.s.ring, n.s.base, late, |n.s.ring|)))
    case Finishes => n.(packets := n.packets + multiset{Fin(n.s.next)})
    case Gets(p) =>
      if p.Fin? then n.(closed := true, packets := n.packets - multiset{p})
      else
        var r := Receive(n.r, p);
        n.(r := r, packets := n.packets - multiset{p}, acks := n.acks + multiset{Reply(r)})
    case Loses(p) => n.(packets := n.packets - multiset{p})
    case Misses(a) => n.(acks := n.acks - multiset{a})
    case Doubles(p) => n.(packets := n.packets + multiset{p})
    case Echoes(a) => n.(acks := n.acks + multiset{a})
  }

  // What the network does by itself.
  predicate Fate(e: Event) { e.Loses? || e.Misses? || e.Doubles? || e.Echoes? }

  // The same with nothing ever taken off the network.
  ghost function Kept(n: Net): System {
    System(n.s, n.r, n.closed, Elements(n.packets), Elements(n.acks))
  }

  ghost function Elements<T(!new)>(m: multiset<T>): set<T> { set x | x in m }

  lemma ElementsMore<T(!new)>(m: multiset<T>, xs: seq<T>)
    ensures Elements(m + multiset(xs)) == Elements(m) + set x | x in xs
  {
  }

  lemma ElementsChange<T(!new)>(m: multiset<T>, x: T)
    ensures Elements(m + multiset{x}) == Elements(m) + {x} && Elements(m - multiset{x}) <= Elements(m)
    ensures x in m <==> x in Elements(m)
  {
  }

  ghost predicate Good(n: Net, file: seq<byte>) { Inv(Kept(n), file) && |file| + 1 < UINT32 }

  lemma LessKeepsInv(y: System, z: System, file: seq<byte>)
    requires Inv(y, file) && z == y.(packets := z.packets, acks := z.acks) && z.packets <= y.packets && z.acks <= y.acks
    ensures Inv(z, file)
  {
    hide SenderInv, ReceiverInv, Sent, Boundary;
  }

  lemma ThenIsGood(n: Net, file: seq<byte>, e: Event)
    requires Good(n, file) && May(n, e)
    ensures Good(Then(n, file, e), file)
  {
    hide Inv, Elements;
    if Fate(e) {
      FateIsLess(n, file, e);
      LessKeepsInv(Kept(n), Kept(Then(n, file, e)), file);
    } else {
      var y := Kept(n);
      KeptStep(n, file, e);
      NextKeepsInv(y, file, StepOf(e));
      LessKeepsInv(Next(y, file, StepOf(e)), Kept(Then(n, file, e)), file);
    }
  }

  // The network by itself brings nothing new.
  lemma FateIsLess(n: Net, file: seq<byte>, e: Event)
    requires May(n, e) && Fate(e)
    ensures var y, z := Kept(n), Kept(Then(n, file, e));
            z == y.(packets := z.packets, acks := z.acks) && z.packets <= y.packets && z.acks <= y.acks
            && (e.Doubles? || e.Echoes? ==> z == y)
  {
    hide Elements;
    match e
    case Loses(p) => ElementsChange(n.packets, p);
    case Misses(a) => ElementsChange(n.acks, a);
    case Doubles(p) => ElementsChange(n.packets, p);
    case Echoes(a) => ElementsChange(n.acks, a);
  }

  function StepOf(e: Event): Step
    requires !Fate(e)
  {
    match e
    case Sends => SenderRefills
    case Hears(a) => SenderTakes(a)
    case Resends(late) => SenderSweeps(late)
    case Finishes => SenderFinishes
    case Gets(p) => ReceiverTakes(p)
  }

  // What happens here happens there too, only that here less is left on the way.
  lemma KeptStep(n: Net, file: seq<byte>, e: Event)
    requires May(n, e) && !Fate(e)
    ensures Enabled(Kept(n), StepOf(e))
    ensures var y, z := Next(Kept(n), file, StepOf(e)), Kept(Then(n, file, e));
            z == y.(packets := z.packets, acks := z.acks) && z.packets <= y.packets && z.acks <= y.acks
  {
    hide Refill, Receive, Swept, Resent, Accounts, Running, Elements;
    match e
    case Sends => ElementsMore(n.packets, Refill(n.s, file).1);
    case Hears(a) => ElementsChange(n.acks, a);
    case Resends(late) => ElementsMore(n.packets, Resent(n.s.ring, n.s.base, late, |n.s.ring|));
    case Finishes => ElementsChange(n.packets, Fin(n.s.next));
    case Gets(p) =>
      ElementsChange(n.packets, p);
      if p.Data? { ElementsChange(n.acks, Reply(Receive(n.r, p))); }
  }

  ghost predicate Leads(n: Net, file: seq<byte>, events: seq<Event>, t: Net)
    decreases |events|
  {
    if events == [] then t == n else May(n, events[0]) && Leads(Then(n, file, events[0]), file, events[1..], t)
  }

  lemma LeadsOne(n: Net, file: seq<byte>, e: Event)
    requires May(n, e)
    ensures Leads(n, file, [e], Then(n, file, e))
  {
    hide May, Then;
    assert [e][1..] == [];
  }

  lemma {:induction false} LeadsOn(n: Net, file: seq<byte>, events: seq<Event>, m: Net, more: seq<Event>, t: Net)
    requires Leads(n, file, events, m) && Leads(m, file, more, t)
    ensures Leads(n, file, events + more, t)
    decreases |events|
  {
    hide May, Then;
    if events == [] {
      assert events + more == more;
    } else {
      LeadsOn(Then(n, file, events[0]), file, events[1..], m, more, t);
      assert (events + more)[1..] == events[1..] + more;
    }
  }

  lemma {:induction false} RunIsGood(n: Net, file: seq<byte>, events: seq<Event>, t: Net)
    requires Good(n, file) && Leads(n, file, events, t)
    ensures Good(t, file)
    decreases |events|
  {
    hide Good, May, Then;
    if events != [] {
      ThenIsGood(n, file, events[0]);
      RunIsGood(Then(n, file, events[0]), file, events[1..], t);
    }
  }

  // Once all has timed out, the first segment that is not acknowledged is on its way.
  lemma BaseIsResent(n: Net, file: seq<byte>)
    requires Good(n, file) && n.s.base < n.s.next
    ensures |n.s.ring| == 10
    ensures var late := seq(10, _ => true); Data(n.s.base, Chunk(file, n.s.base - 1)) in Resent(n.s.ring, n.s.base, late, 10)
  {
    hide ReceiverInv, Resent, RingIndex;
    var s, late := n.s, seq(10, _ => true);
    assert Start(s.base);
    assert Retained(s.ring, s.base);
    var i := RingIndex(s.base);
    assert Sent(s.ring[i].seqNum, s.ring[i].data, s.next, file);
    LateIsResent(s.ring, s.base, late, 10, i);
  }

  // The server answers it with an ACK that goes further.
  lemma BaseIsAnswered(n: Net, file: seq<byte>, p: Packet)
    requires Good(n, file) && n.s.base < n.s.next && p == Data(n.s.base, Chunk(file, n.s.base - 1))
    ensures Accounts(n.r) && Reply(Receive(n.r, p)).ackNum > n.s.base
  {
    hide RingInv, BufferInv, Drain, Chunk;
    if n.s.base == n.r.expected {
      NextBoundary(n.s.base, n.s.next, file);
      ChunkEnds(file, n.s.base);
      SmallAdd(n.s.base, |p.data|);
      DrainKeepsInv(n.r.(output := n.r.output + p.data, expected := Add32(n.r.expected, |p.data|)), n.s.next, file);
    }
  }

  lemma RunningOn(n: Net, file: seq<byte>)
    requires Good(n, file) && Running(n.s)
    ensures !n.closed
  {
    hide SenderInv, ReceiverInv;
  }

  // Whatever has been lost: from every state in which segments are not acknowledged, the sweep
  // after all of them have timed out, one datagram that gets there and one answer that gets back
  // take the client further.
  lemma GoesFurther(n: Net, file: seq<byte>) returns (p: Packet, a: Ack, t: Net)
    requires Good(n, file) && n.s.base < n.s.next
    ensures Leads(n, file, [Resends(seq(10, _ => true)), Gets(p), Hears(a)], t)
    ensures Good(t, file) && t.s.base > n.s.base && t.s.next == n.s.next && t.s.complete == n.s.complete && t.closed == n.closed
  {
    hide Good, Receive, Swept, Resent, Chunk, Accounts;
    SenderBounds(n, file);
    var late := seq(10, _ => true);
    p := Data(n.s.base, Chunk(file, n.s.base - 1));
    BaseIsResent(n, file);
    var n1 := Then(n, file, Resends(late));
    ThenIsGood(n, file, Resends(late));
    RunningOn(n1, file);
    BaseIsAnswered(n1, file, p);
    var n2 := Then(n1, file, Gets(p));
    ThenIsGood(n1, file, Gets(p));
    a := Reply(n2.r);
    t := Then(n2, file, Hears(a));
    ThenIsGood(n2, file, Hears(a));
    AckIsTaken(n2, file, a);
    LeadsOne(n, file, Resends(late));
    LeadsOne(n1, file, Gets(p));
    LeadsOne(n2, file, Hears(a));
    LeadsOn(n, file, [Resends(late)], n1, [Gets(p)], n2);
    LeadsOn(n, file, [Resends(late)] + [Gets(p)], n2, [Hears(a)], t);
    assert [Resends(late)] + [Gets(p)] + [Hears(a)] == [Resends(late), Gets(p), Hears(a)];
  }

  lemma AckIsTaken(n: Net, file: seq<byte>, a: Ack)
    requires Good(n, file) && a.ackNum > n.s.base
    ensures TakeAck(n.s, a).base == a.ackNum && TakeAck(n.s, a).next == n.s.next && TakeAck(n.s, a).complete == n.s.complete
  {
    hide RingInv, ReceiverInv;
  }

  // The transfer is over, and the server has the file.
  ghost predicate Delivered(n: Net, file: seq<byte>) { n.closed && n.r.output == file }

  // Nothing in flight and nothing to be sent, although the file goes on: one of the two stops.
  ghost predicate Stopped(n: Net) {
    n.s.base == n.s.next && !n.s.complete && (n.s.window == 0 || n.s.base >= UINT32 - WINDOW_BYTES)
  }

  // From every state there is a run that ends the transfer, with the whole file at the server,
  // or comes to one of the stops.
  lemma {:induction false} EndsOrStops(n: Net, file: seq<byte>) returns (events: seq<Event>, t: Net)
    requires Good(n, file) && !n.closed
    ensures Leads(n, file, events, t) && Good(t, file) && (Delivered(t, file) || Stopped(t))
    decreases |file| + 1 - n.s.base, |file| + 1 - n.s.next, !n.s.complete
  {
    hide Good, Leads, May, Then, Delivered;
    SenderBounds(n, file);
    if n.s.base < n.s.next {
      var p, a, m := GoesFurther(n, file);
      SenderBounds(m, file);
      events, t := EndsOrStops(m, file);
      LeadsOn(n, file, [Resends(seq(10, _ => true)), Gets(p), Hears(a)], m, events, t);
      events := [Resends(seq(10, _ => true)), Gets(p), Hears(a)] + events;
    } else if n.s.complete {
      events, t := Closes(n, file);
    } else if Stopped(n) {
      events, t := [], n;
      LeadsNone(n, file);
    } else {
      var m := SendsMore(n, file);
      SenderBounds(m, file);
      events, t := EndsOrStops(m, file);
      LeadsOn(n, file, [Sends], m, events, t);
      events := [Sends] + events;
    }
  }

  lemma LeadsNone(n: Net, file: seq<byte>)
    ensures Leads(n, file, [], n)
  {
  }

  lemma SenderBounds(n: Net, file: seq<byte>)
    requires Good(n, file)
    ensures 1 <= n.s.base <= n.s.next <= |file| + 1
  {
    hide RingInv, ReceiverInv;
  }

  // All is acknowledged: FIN.
  lemma Closes(n: Net, file: seq<byte>) returns (events: seq<Event>, t: Net)
    requires Good(n, file) && !n.closed && n.s.base == n.s.next && n.s.complete
    ensures Leads(n, file, events, t) && Good(t, file) && Delivered(t, file)
  {
    hide Good, Leads;
    var fin := Fin(n.s.next);
    GoodAccounts(n, file);
    var m := Then(n, file, Finishes);
    ThenIsGood(n, file, Finishes);
    t := Then(m, file, Gets(fin));
    ThenIsGood(m, file, Gets(fin));
    LeadsOne(n, file, Finishes);
    LeadsOne(m, file, Gets(fin));
    LeadsOn(n, file, [Finishes], m, [Gets(fin)], t);
    events := [Finishes] + [Gets(fin)];
    ClosedHasAll(t, file);
  }

  lemma GoodAccounts(n: Net, file: seq<byte>)
    requires Good(n, file)
    ensures Accounts(n.r) && Shaped(n.s)
  {
    hide BufferInv;
  }

  lemma ClosedHasAll(n: Net, file: seq<byte>)
    requires Good(n, file) && n.closed
    ensures n.r.output == file
  {
    hide RingInv, BufferInv;
  }

  // Nothing is in flight, and the client may send: it sends, or meets the end of the file.
  lemma SendsMore(n: Net, file: seq<byte>) returns (m: Net)
    requires Good(n, file) && !n.closed && n.s.base == n.s.next && !n.s.complete && !Stopped(n)
    ensures Leads(n, file, [Sends], m) && Good(m, file) && !m.closed && m.s.base == n.s.base
    ensures m.s.next > n.s.next || (m.s.next == n.s.next && m.s.complete)
  {
    hide Good, Leads;
    GoodAccounts(n, file);
    SenderBounds(n, file);
    m := Then(n, file, Sends);
    ThenIsGood(n, file, Sends);
    LeadsOne(n, file, Sends);
    FirstSend(n, file);
  }

  lemma FirstSend(n: Net, file: seq<byte>)
    requires Good(n, file) && n.s.base == n.s.next && !n.s.complete && !Stopped(n)
    ensures Shaped(n.s)
    ensures var t := Refill(n.s, file).0; t.base == n.s.base && (t.next > n.s.next || (t.next == n.s.next && t.complete))
  {
    hide RingInv, ReceiverInv, RingIndex, Start;
    SenderShaped(n.s, file);
    QuietIff(n.s);
    if n.s.offset < |file| {
      var t := SendChunk(n.s, Chunk(file, n.s.offset));
      SendKeepsInv(n.s, file);
      RefillMoves(t, file);
    }
  }

  // From the start, with nothing on the way.
  ghost predicate Begun(n: Net) { Initial(Kept(n)) }

  // Over every run from the start on such a network the output is a prefix of the file, and all
  // of it once the server has taken a FIN; and as long as it has not, some run goes on to that,
  // or to one of the two stops.
  lemma TransferCanEnd(n: Net, file: seq<byte>, events: seq<Event>, m: Net) returns (more: seq<Event>, t: Net)
    requires Begun(n) && |file| + 1 < UINT32 && Leads(n, file, events, m)
    ensures m.r.output <= file && (m.closed ==> m.r.output == file)
    ensures Leads(m, file, more, t) && (Delivered(t, file) || Stopped(t))
  {
    hide Good, Leads, Stopped;
    InitialInv(Kept(n), file);
    assert Good(n, file) by { GoodIs(n, file); }
    RunIsGood(n, file, events, m);
    OutputIsPrefix(m, file);
    if m.closed {
      more, t := [], m;
      LeadsNone(m, file);
    } else {
      more, t := EndsOrStops(m, file);
    }
  }

  lemma GoodIs(n: Net, file: seq<byte>)
    requires Inv(Kept(n), file) && |file| + 1 < UINT32
    ensures Good(n, file)
  {
  }

  lemma OutputIsPrefix(n: Net, file: seq<byte>)
    requires Good(n, file)
    ensures n.r.output <= file && (n.closed ==> n.r.output == file)
  {
    hide RingInv, BufferInv;
    if n.closed { ClosedHasAll(n, file); }
  }
}
