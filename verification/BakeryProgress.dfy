// Nobody is kept in the bakery: from every state everybody inside can be served and leave, and
// how long that takes at most.

module BakeryProgress {
  import opened BakeryModel

  // How many steps a customer inside still has to take, or to have taken for it.
  function Rest(c: Customer): nat {
    match c.stage
    case Inside => 7
    case Standing => 6
    case Seated => 5
    case Waiting => if c.baking == 0 then 4 else 3
    case Paying => if c.accepted == 0 then 2 else 1
    case _ => 0
  }

  function Work(s: Shop, n: nat): nat
    requires n <= |s.customers|
  {
    if n == 0 then 0 else Work(s, n - 1) + Rest(s.customers[n - 1])
  }

  lemma {:induction false} WorkSame(s: Shop, t: Shop, n: nat)
    requires n <= |s.customers| == |t.customers| && forall c | 0 <= c < n :: t.customers[c] == s.customers[c]
    ensures Work(t, n) == Work(s, n)
  {
    if n > 0 { WorkSame(s, t, n - 1); }
  }

  lemma {:induction false} WorkDrops(s: Shop, t: Shop, n: nat, b: nat)
    requires n <= |s.customers| == |t.customers| && b < n && Rest(t.customers[b]) < Rest(s.customers[b])
    requires forall c | 0 <= c < n && c != b :: t.customers[c] == s.customers[c]
    ensures Work(t, n) < Work(s, n)
  {
    if b < n - 1 { WorkDrops(s, t, n - 1, b); } else { WorkSame(s, t, n - 1); }
  }

  lemma {:induction false} WorkBound(s: Shop, n: nat)
    requires n <= |s.customers|
    ensures Work(s, n) <= 7 * n
    ensures Work(s, n) == 0 ==> forall c | 0 <= c < n :: Rest(s.customers[c]) == 0
  {
    if n > 0 { WorkBound(s, n - 1); }
  }

  // Nobody is busy for more than two units.
  ghost predicate Soon(s: Shop) {
    s.register <= s.now + 2 && forall k | 0 <= k < |s.busy| :: s.busy[k] <= s.now + 2
  }

  lemma StepKeepsSoon(s: Shop, a: Act)
    requires Soon(s) && Ready(s, a)
    ensures Soon(Next(s, a))
  {
  }

  // All that has been begun is over.
  ghost predicate Ripe(s: Shop) {
    && s.register <= s.now && (forall k | 0 <= k < |s.busy| :: s.busy[k] <= s.now)
    && forall c | 0 <= c < |s.customers| :: Past(s.customers[c], s.now)
  }

  predicate Past(c: Customer, now: nat) {
    && (InShop(c) ==> c.enter + 2 <= now) && (c.sit != 0 ==> c.sit + 2 <= now) && (c.request != 0 ==> c.request + 2 <= now)
    && (c.baking != 0 ==> c.baking + 2 <= now) && (c.pay != 0 ==> c.pay + 2 <= now) && (c.accepted != 0 ==> c.accepted + 2 <= now)
  }

  lemma TwoTicks(s: Shop) returns (t: Shop)
    requires Inv(s) && Soon(s)
    ensures t == s.(now := s.now + 2) && Run(s, [Tick, Tick], t) && Inv(t) && Soon(t) && Ripe(t)
  {
    hide LineOk, Counted, Spaced;
    var m := Next(s, Tick);
    t := Next(m, Tick);
    StepKeepsInv(s, Tick);
    StepKeepsInv(m, Tick);
    assert [Tick, Tick][1..] == [Tick] && [Tick][1..] == [];
    forall c | 0 <= c < |s.customers| ensures Past(t.customers[c], t.now) { assert TimesOk(s, s.customers[c]); }
  }

  lemma {:induction false} SomebodyPays(s: Shop, n: nat, c: nat) returns (b: nat)
    requires c < n <= |s.customers| && CanAccept(s, s.customers[c])
    ensures b < n && FirstToPay(s, n, b)
    decreases n
  {
    if exists j :: 0 <= j < n - 1 && CanAccept(s, s.customers[j]) {
      var j :| 0 <= j < n - 1 && CanAccept(s, s.customers[j]);
      b := SomebodyPays(s, n - 1, j);
      if CanAccept(s, s.customers[n - 1]) && s.customers[n - 1].pay < s.customers[b].pay { b := n - 1; }
    } else {
      b := c;
    }
  }

  lemma {:induction false} SomebodyOrdered(s: Shop, n: nat, c: nat, k: nat) returns (b: nat)
    requires c < n <= |s.customers| && k < |s.busy| && CanBake(s, s.customers[c], k)
    ensures b < n && FirstToBake(s, n, b, k)
    decreases n
  {
    if exists j :: 0 <= j < n - 1 && CanBake(s, s.customers[j], k) {
      var j :| 0 <= j < n - 1 && CanBake(s, s.customers[j], k);
      b := SomebodyOrdered(s, n - 1, j, k);
      if CanBake(s, s.customers[n - 1], k) && s.customers[n - 1].request < s.customers[b].request { b := n - 1; }
    } else {
      b := c;
    }
  }

  // Whoever is in the line has four in front on the sofa.
  lemma LineHasSitters(s: Shop) returns (c: nat)
    requires LineOk(s) && Counted(s) && s.line != []
    ensures c < |s.customers| && (OwnStep(s, c) != Tick || s.customers[c].stage.Paying? || s.customers[c].stage.Waiting?)
  {
    assert |Sitters(s)| == 4;
    c :| c in Sitters(s);
  }

  ghost predicate Advances(s: Shop, a: Act) {
    && Ready(s, a) && !a.Tick? && !a.Enter? && 0 <= Actor(a) < |s.customers| == |Next(s, a).customers|
    && Rest(Next(s, a).customers[Actor(a)]) < Rest(s.customers[Actor(a)])
  }

  // There is always something to do for somebody inside.
  lemma SomethingToDo(s: Shop, c: nat) returns (a: Act)
    requires Inv(s) && Ripe(s) && |s.busy| >= 2 && c < |s.customers| && InShop(s.customers[c])
    ensures Advances(s, a)
  {
    hide Spaced;
    if i: nat :| i < |s.customers| && OwnStep(s, i) != Tick {
      a := OwnStep(s, i);
      OwnAdvances(s, i);
    } else if i: nat :| i < |s.customers| && s.customers[i].stage.Paying? {
      assert OwnStep(s, i) == Tick && TimesOk(s, s.customers[i]) && Past(s.customers[i], s.now);
      var b := SomebodyPays(s, |s.customers|, i);
      a := Accept(1, b);
      assert TimesOk(s, s.customers[b]);
    } else if i: nat :| i < |s.customers| && s.customers[i].stage.Waiting? {
      assert OwnStep(s, i) == Tick && TimesOk(s, s.customers[i]) && Past(s.customers[i], s.now);
      var b := SomebodyOrdered(s, |s.customers|, i, 1);
      a := Bake(1, b);
      assert TimesOk(s, s.customers[b]);
      forall j | 0 <= j < |s.customers| ensures !CanAccept(s, s.customers[j]) { assert TimesOk(s, s.customers[j]); }
    } else {
      assert OwnStep(s, c) == Tick;
      var d := LineHasSitters(s);
      assert false;
    }
  }

  // The next step of a customer who waits for nobody, or Tick.
  function OwnStep(s: Shop, c: nat): Act
    requires c < |s.customers|
  {
    var k := s.customers[c];
    match k.stage
    case Inside => Sit(c)
    case Standing => if c in s.line then Tick else Notice(c)
    case Seated => Request(c)
    case Waiting => if k.baking != 0 then Pay(c) else Tick
    case Paying => if k.accepted != 0 then Leave(c) else Tick
    case _ => Tick
  }

  lemma OwnAdvances(s: Shop, c: nat)
    requires Inv(s) && Ripe(s) && c < |s.customers| && OwnStep(s, c) != Tick
    ensures Advances(s, OwnStep(s, c))
  {
    hide LineOk, Counted, Spaced;
    assert TimesOk(s, s.customers[c]) && Past(s.customers[c], s.now);
  }

  // Whoever is outside stays there meanwhile, and everybody inside leaves, after at most two
  // units for each step that is still to take.
  lemma {:induction false} EmptiesFrom(s: Shop) returns (acts: seq<Act>, t: Shop)
    requires Inv(s) && Soon(s) && |s.busy| >= 2
    ensures Run(s, acts, t) && |t.customers| == |s.customers| && t.now <= s.now + 2 * Work(s, |s.customers|)
    ensures forall c | 0 <= c < |s.customers| ::
              if InShop(s.customers[c]) then t.customers[c].stage.Left? else t.customers[c] == s.customers[c]
    decreases Work(s, |s.customers|)
  {
    hide Inv, Run, Soon, Ripe, Advances, Ready, Next;
    WorkBound(s, |s.customers|);
    if exists c: nat :: c < |s.customers| && InShop(s.customers[c]) {
      var c: nat :| c < |s.customers| && InShop(s.customers[c]);
      var m := TwoTicks(s);
      var a := SomethingToDo(m, c);
      AdvanceIs(m, a);
      var u := Next(m, a);
      StepKeepsInv(m, a);
      StepKeepsSoon(m, a);
      WorkSame(s, m, |s.customers|);
      WorkDrops(m, u, |m.customers|, Actor(a));
      var rest;
      rest, t := EmptiesFrom(u);
      acts := [Tick, Tick] + ([a] + rest);
      RunFirst(m, a, rest, t);
      RunOn(s, [Tick, Tick], m, [a] + rest, t);
    } else {
      acts, t := [], s;
      RunNone(s);
    }
  }

  lemma RunNone(s: Shop)
    ensures Run(s, [], s)
  {
  }

  lemma RunFirst(s: Shop, a: Act, rest: seq<Act>, t: Shop)
    requires Ready(s, a) && Run(Next(s, a), rest, t)
    ensures Run(s, [a] + rest, t)
  {
    assert ([a] + rest)[1..] == rest;
  }

  lemma AdvanceIs(s: Shop, a: Act)
    requires Advances(s, a)
    ensures Ready(s, a)
    ensures var t := Next(s, a);
            && |t.customers| == |s.customers| && |t.busy| == |s.busy| && t.now == s.now
            && 0 <= Actor(a) < |s.customers| && Rest(t.customers[Actor(a)]) < Rest(s.customers[Actor(a)])
            && InShop(s.customers[Actor(a)]) && (InShop(t.customers[Actor(a)]) || t.customers[Actor(a)].stage.Left?)
            && forall c | 0 <= c < |s.customers| && c != Actor(a) :: t.customers[c] == s.customers[c]
  {
    OnlyActor(s, a);
  }

  lemma {:induction false} RunKeepsSoon(s: Shop, acts: seq<Act>, t: Shop)
    requires Soon(s) && Run(s, acts, t)
    ensures Soon(t)
    decreases |acts|
  {
    hide Soon, Ready, Next;
    if acts != [] {
      StepKeepsSoon(s, acts[0]);
      RunKeepsSoon(Next(s, acts[0]), acts[1..], t);
    }
  }

  // With one chef or more: whatever has happened since opening, the shop can be emptied, and
  // within fourteen units for each customer there ever is.
  lemma ShopCanEmpty(s: Shop, acts: seq<Act>, m: Shop) returns (more: seq<Act>, t: Shop)
    requires Opening(s) && |s.busy| >= 2 && Run(s, acts, m)
    ensures Run(m, more, t) && |t.customers| == |m.customers| == |s.customers| && t.now <= m.now + 14 * |s.customers|
    ensures forall c | 0 <= c < |m.customers| ::
              if InShop(m.customers[c]) then t.customers[c].stage.Left? else t.customers[c] == m.customers[c]
  {
    hide Inv, Run, Soon, Ready, Next;
    OpeningIsOk(s);
    assert Soon(s) by { OpeningSoon(s); }
    RunKeepsInv(s, acts, m);
    RunKeepsSoon(s, acts, m);
    more, t := EmptiesFrom(m);
    WorkBound(m, |m.customers|);
  }

  lemma OpeningSoon(s: Shop)
    requires Opening(s)
    ensures Soon(s)
  {
  }
}
