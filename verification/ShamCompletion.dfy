// Which files are safe from both stops: the runs over a network that loses and doubles datagrams
// against those in which none is ever taken away.

module ShamCompletion {
  import opened Bytes
  import opened ShamModel
  import opened ShamDelivery
  import opened ShamShut
  import opened ShamNetwork

  // y is at n, with more on the way.
  ghost predicate Covers(y: System, n: Net) {
    y == Kept(n).(packets := y.packets, acks := y.acks) && Elements(n.packets) <= y.packets && Elements(n.acks) <= y.acks
  }

  lemma MoreStep(k: System, y: System, file: seq<byte>, e: Step)
    requires Enabled(k, e) && y == k.(packets := y.packets, acks := y.acks) && k.packets <= y.packets && k.acks <= y.acks
    ensures Enabled(y, e)
    ensures var l, z := Next(k, file, e), Next(y, file, e);
            z == l.(packets := z.packets, acks := z.acks) && l.packets <= z.packets && l.acks <= z.acks
  {
    hide Refill, Receive, Swept, Resent, Accounts, Running, Reply;
  }

  lemma ThenIsCovered(y0: System, y: System, n: Net, file: seq<byte>, e: Event) returns (z: System)
    requires Reaches(y0, file, y) && Covers(y, n) && May(n, e)
    ensures Reaches(y0, file, z) && Covers(z, Then(n, file, e))
  {
    hide Reaches, Next, Enabled, Then, May, Elements;
    if Fate(e) {
      FateIsLess(n, file, e);
      z := y;
    } else {
      KeptStep(n, file, e);
      MoreStep(Kept(n), y, file, StepOf(e));
      ReachesNext(y0, file, y, StepOf(e));
      z := Next(y, file, StepOf(e));
    }
  }

  // Every run over the network has a run beside it in which nothing is taken away.
  lemma {:induction false} RunIsCovered(y0: System, y: System, n: Net, file: seq<byte>, events: seq<Event>, t: Net) returns (z: System)
    requires Reaches(y0, file, y) && Covers(y, n) && Leads(n, file, events, t)
    ensures Reaches(y0, file, z) && Covers(z, t)
    decreases |events|
  {
    hide Reaches, Covers, Then, May;
    z := y;
    if events != [] {
      var y1 := ThenIsCovered(y0, y, n, file, events[0]);
      z := RunIsCovered(y0, y1, Then(n, file, events[0]), file, events[1..], t);
    }
  }

  // A step that takes nothing away is taken here by doubling first what it takes.
  lemma StepIsFollowed(n: Net, file: seq<byte>, e: Step) returns (events: seq<Event>, t: Net)
    requires Enabled(Kept(n), e)
    ensures Leads(n, file, events, t) && Kept(t) == Next(Kept(n), file, e)
  {
    hide Refill, Receive, Swept, Resent, Accounts, Running, Elements, Leads, Reply;
    match e
    case SenderRefills =>
      ElementsMore(n.packets, Refill(n.s, file).1);
      events, t := [Sends], Then(n, file, Sends);
      LeadsOne(n, file, Sends);
    case SenderSweeps(late) =>
      ElementsMore(n.packets, Resent(n.s.ring, n.s.base, late, |n.s.ring|));
      events, t := [Resends(late)], Then(n, file, Resends(late));
      LeadsOne(n, file, Resends(late));
    case SenderFinishes =>
      ElementsChange(n.packets, Fin(n.s.next));
      events, t := [Finishes], Then(n, file, Finishes);
      LeadsOne(n, file, Finishes);
    case SenderTakes(a) =>
      events, t := HearsAgain(n, file, a);
    case ReceiverTakes(p) =>
      events, t := GetsAgain(n, file, p);
  }

  lemma HearsAgain(n: Net, file: seq<byte>, a: Ack) returns (events: seq<Event>, t: Net)
    requires Enabled(Kept(n), SenderTakes(a))
    ensures Leads(n, file, events, t) && Kept(t) == Next(Kept(n), file, SenderTakes(a))
  {
    hide Elements, Leads;
    ElementsChange(n.acks, a);
    var m := Then(n, file, Echoes(a));
    assert m.acks - multiset{a} == n.acks;
    t := Then(m, file, Hears(a));
    events := Both(n, file, Echoes(a), Hears(a));
  }

  lemma GetsAgain(n: Net, file: seq<byte>, p: Packet) returns (events: seq<Event>, t: Net)
    requires Enabled(Kept(n), ReceiverTakes(p))
    ensures Leads(n, file, events, t) && Kept(t) == Next(Kept(n), file, ReceiverTakes(p))
  {
    hide Receive, Accounts, Elements, Leads, Reply;
    ElementsChange(n.packets, p);
    var m := Then(n, file, Doubles(p));
    assert m.packets - multiset{p} == n.packets;
    t := Then(m, file, Gets(p));
    events := Both(n, file, Doubles(p), Gets(p));
    if p.Data? { ElementsChange(n.acks, Reply(Receive(n.r, p))); }
  }

  lemma Both(n: Net, file: seq<byte>, e: Event, f: Event) returns (events: seq<Event>)
    requires May(n, e) && May(Then(n, file, e), f)
    ensures events == [e, f] && Leads(n, file, events, Then(Then(n, file, e), file, f))
  {
    hide Leads, May, Then;
    LeadsOne(n, file, e);
    LeadsOne(Then(n, file, e), file, f);
    LeadsOn(n, file, [e], Then(n, file, e), [f], Then(Then(n, file, e), file, f));
    events := [e] + [f];
  }

  lemma {:induction false} RunIsFollowed(n: Net, file: seq<byte>, run: seq<Step>) returns (events: seq<Event>, t: Net)
    requires CanRun(Kept(n), file, run)
    ensures Leads(n, file, events, t) && Kept(t) == After(Kept(n), file, run)
    decreases |run|
  {
    hide Enabled, Next, Leads, Kept;
    if run == [] {
      events, t := [], n;
      LeadsNone(n, file);
    } else {
      var es, m := StepIsFollowed(n, file, run[0]);
      events, t := RunIsFollowed(m, file, run[1..]);
      LeadsOn(n, file, es, m, events, t);
      events := es + events;
    }
  }

  // The transfer can still be ended, with the whole file at the server.
  ghost predicate CanEnd(m: Net, file: seq<byte>) {
    exists events, t :: Leads(m, file, events, t) && Delivered(t, file)
  }

  // Whatever has happened since the start.
  ghost predicate AlwaysCanEnd(n: Net, file: seq<byte>) {
    forall events, m :: Leads(n, file, events, m) && !m.closed ==> CanEnd(m, file)
  }

  // No run comes to either stop with a shorter file.
  lemma StopsAreLate(n: Net, file: seq<byte>, events: seq<Event>, t: Net)
    requires Begun(n) && |file| + 1 < UINT32 && Leads(n, file, events, t) && Stopped(t)
    ensures |file| >= 10240
  {
    hide Leads, Reaches, Initial, Good, Elements;
    var y := Kept(n);
    InitialInv(y, file);
    GoodIs(n, file);
    RunIsGood(n, file, events, t);
    SenderBounds(t, file);
    ReachesSelf(y, file);
    var z := RunIsCovered(y, y, n, file, events, t);
    assert t.s.window == 0 ==> Shut(z);
    ShutsIff(y, file);
  }

  lemma ShortFileCanEnd(n: Net, file: seq<byte>, events: seq<Event>, m: Net)
    requires Begun(n) && |file| < 10240 && Leads(n, file, events, m) && !m.closed
    ensures CanEnd(m, file)
  {
    hide Begun, Leads, Delivered, Stopped;
    var more, t := TransferCanEnd(n, file, events, m);
    if Stopped(t) {
      LeadsOn(n, file, events, m, more, t);
      StopsAreLate(n, file, events + more, t);
    }
  }

  // From the first stop on nothing is delivered, over this network either.
  lemma ShutNeverEnds(m: Net, file: seq<byte>)
    requires Good(m, file) && Shut(Kept(m))
    ensures !m.closed && !CanEnd(m, file)
  {
    hide Leads, Inv, Reaches, Shut, CanRun, After, Elements;
    var y := Kept(m);
    NothingRun(y, file);
    ShutForever(y, file, []);
    forall events, t | Leads(m, file, events, t)
      ensures !Delivered(t, file)
    {
      ReachesSelf(y, file);
      var z := RunIsCovered(y, y, m, file, events, t);
      NeverCloses(y, file, z);
    }
  }

  lemma NothingRun(y: System, file: seq<byte>)
    ensures CanRun(y, file, []) && After(y, file, []) == y
  {
  }

  lemma NeverCloses(y: System, file: seq<byte>, z: System)
    requires Inv(y, file) && |file| + 1 < UINT32 && Shut(y) && Reaches(y, file, z)
    ensures !z.closed
  {
    hide CanRun, After, Inv, Shut;
    var run :| CanRun(y, file, run) && After(y, file, run) == z;
    ShutForever(y, file, run);
  }

  lemma LongFileMayNot(n: Net, file: seq<byte>) returns (events: seq<Event>, m: Net)
    requires Begun(n) && 10240 <= |file| && |file| + 1 < UINT32
    ensures Leads(n, file, events, m) && !m.closed && !CanEnd(m, file)
  {
    hide CanRun, After, Inv, Shut, Leads, Initial, CanEnd, Good;
    var y := Kept(n);
    InitialInv(y, file);
    GoodIs(n, file);
    var z := FullWindowShuts(y, file);
    var run :| CanRun(y, file, run) && After(y, file, run) == z;
    events, m := RunIsFollowed(n, file, run);
    RunIsGood(n, file, events, m);
    ShutNeverEnds(m, file);
  }

  // A transfer can be ended from whatever state the network brings it to, without anybody giving
  // up, if and only if the file has fewer than 10240 bytes.
  lemma CompletesIff(n: Net, file: seq<byte>)
    requires Begun(n) && |file| + 1 < UINT32
    ensures AlwaysCanEnd(n, file) <==> |file| < 10240
  {
    hide Begun, Leads, CanEnd;
    if |file| < 10240 {
      forall events, m | Leads(n, file, events, m) && !m.closed
        ensures CanEnd(m, file)
      {
        ShortFileCanEnd(n, file, events, m);
      }
    } else {
      var events, m := LongFileMayNot(n, file);
      assert Leads(n, file, events, m) && !m.closed && !CanEnd(m, file);
    }
  }
}
