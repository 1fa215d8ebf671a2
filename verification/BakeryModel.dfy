// The bakery of bakery.c as a state machine: every critical section under shop_mutex is one
// step, and the steps of customers, chefs and the timer interleave in any order.

module BakeryModel {
  const MAX_CAPACITY := 25
  const SOFA_CAPACITY := 4
  const NUM_CHEFS := 4
  const NUM_OVENS := 4

  // Where a customer's thread is.
  datatype Stage =
    | Outside   // has not tried to enter
    | Away      // found the shop full
    | Inside    // entered, not yet at the sofa
    | Standing  // was put in the line, and has not noticed a seat
    | Seated
    | Waiting   // has asked for cake
    | Paying    // has paid
    | Left

  // 0 stands for "not yet" in every time but the arrival.
  datatype Customer = Customer(
    arrival: int, stage: Stage, enter: nat, sit: nat, request: nat, baking: nat, pay: nat, accepted: nat, chef: nat)

  // line: standing_customers[..standing_count]; register: cash_register_busy_until; busy:
  // chef_busy_until, where entry 0 is no chef's.
  datatype Shop = Shop(
    now: nat, inShop: int, onSofa: int, line: seq<nat>, customers: seq<Customer>, register: nat, busy: seq<nat>)

  predicate InShop(c: Customer) { c.stage.Inside? || c.stage.Standing? || c.stage.Seated? || c.stage.Waiting? || c.stage.Paying? }

  predicate Asked(c: Customer) { c.stage.Waiting? || c.stage.Paying? || c.stage.Left? }

  predicate HasSeat(s: Shop, c: nat)
    requires c < |s.customers|
  {
    var st := s.customers[c].stage;
    st.Seated? || st.Waiting? || st.Paying? || (st.Standing? && c !in s.line)
  }

  ghost function Insiders(s: Shop): set<nat> { set c: nat | c < |s.customers| && InShop(s.customers[c]) }

  ghost function Sitters(s: Shop): set<nat> { set c: nat | c < |s.customers| && HasSeat(s, c) }

  // A customer whose payment, or whose order, a chef can take now.
  predicate CanAccept(s: Shop, c: Customer) {
    c.pay > 0 && c.accepted == 0 && s.now >= c.pay + 1 && s.now >= s.register
  }

  predicate CanBake(s: Shop, c: Customer, k: nat)
    requires k < |s.busy|
  {
    c.request > 0 && c.baking == 0 && s.now >= c.request + 1 && s.now >= s.busy[k]
  }

  // The first of those who paid earliest.
  predicate FirstToPay(s: Shop, n: nat, b: nat)
    requires b < n <= |s.customers|
  {
    && CanAccept(s, s.customers[b])
    && (forall j | 0 <= j < n && CanAccept(s, s.customers[j]) ::
          s.customers[b].pay <= s.customers[j].pay && (j < b ==> s.customers[b].pay < s.customers[j].pay))
  }

  predicate FirstToBake(s: Shop, n: nat, b: nat, k: nat)
    requires b < n <= |s.customers| && k < |s.busy|
  {
    && CanBake(s, s.customers[b], k)
    && (forall j | 0 <= j < n && CanBake(s, s.customers[j], k) ::
          s.customers[b].request <= s.customers[j].request && (j < b ==> s.customers[b].request < s.customers[j].request))
  }

  datatype Act =
    | Tick
    | Enter(c: nat)
    | Sit(c: nat)
    | Notice(c: nat)
    | Request(c: nat)
    | Pay(c: nat)
    | Leave(c: nat)
    | Accept(k: nat, b: nat)
    | Bake(k: nat, b: nat)

  // What each thread waits for before its next critical section.
  predicate Ready(s: Shop, a: Act) {
    match a
    case Tick => true
    case Enter(c) => c < |s.customers| && s.customers[c].stage.Outside? && s.now >= s.customers[c].arrival
    case Sit(c) => c < |s.customers| && s.customers[c].stage.Inside? && s.now >= s.customers[c].enter + 1
    case Notice(c) => c < |s.customers| && s.customers[c].stage.Standing? && c !in s.line
    case Request(c) => c < |s.customers| && s.customers[c].stage.Seated? && s.now >= s.customers[c].sit + 1
    case Pay(c) => c < |s.customers| && s.customers[c].stage.Waiting? && s.customers[c].baking != 0 && s.now >= s.customers[c].baking + 2
    case Leave(c) => c < |s.customers| && s.customers[c].stage.Paying? && s.customers[c].accepted != 0 && s.now >= s.customers[c].accepted + 2
    case Accept(k, b) => 1 <= k < |s.busy| && s.now >= s.busy[k] && b < |s.customers| && FirstToPay(s, |s.customers|, b)
    case Bake(k, b) =>
      && 1 <= k < |s.busy| && s.now >= s.busy[k] && b < |s.customers| && FirstToBake(s, |s.customers|, b, k)
      && forall j | 0 <= j < |s.customers| :: !CanAccept(s, s.customers[j])
  }

  function With(s: Shop, c: nat, k: Customer): Shop
    requires c < |s.customers|
  {
    s.(customers := s.customers[c := k])
  }

  function Next(s: Shop, a: Act): Shop
    requires Ready(s, a)
  {
    match a
    case Tick => s.(now := s.now + 1)
    case Enter(c) =>
      if s.inShop >= MAX_CAPACITY then With(s, c, s.customers[c].(stage := Away))
      else With(s, c, s.customers[c].(stage := Inside, enter := s.now)).(inShop := s.inShop + 1)
    case Sit(c) =>
      if s.onSofa < SOFA_CAPACITY then With(s, c, s.customers[c].(stage := Seated, sit := s.now)).(onSofa := s.onSofa + 1)
      else With(s, c, s.customers[c].(stage := Standing)).(line := s.line + [c])
    case Notice(c) => With(s, c, s.customers[c].(stage := Seated, sit := s.now))
    case Request(c) => With(s, c, s.customers[c].(stage := Waiting, request := s.now))
    case Pay(c) => With(s, c, s.customers[c].(stage := Paying, pay := s.now))
    case Leave(c) =>
      var t := With(s, c, s.customers[c].(stage := Left)).(inShop := s.inShop - 1);
      if s.line == [] then t.(onSofa := s.onSofa - 1) else t.(line := s.line[1..])
    case Accept(k, b) =>
      With(s, b, s.customers[b].(accepted := s.now)).(register := s.now + 2, busy := s.busy[k := s.now + 2])
    case Bake(k, b) => With(s, b, s.customers[b].(baking := s.now, chef := k)).(busy := s.busy[k := s.now + 2])
  }

  // The line: distinct customers, all standing.
  ghost predicate LineOk(s: Shop) {
    && (forall i | 0 <= i < |s.line| :: s.line[i] < |s.customers| && s.customers[s.line[i]].stage.Standing?)
    && (forall i, j | 0 <= i < j < |s.line| :: s.line[i] != s.line[j])
  }

  // What a customer's times say about where it is, and in which order they come.
  ghost predicate TimesOk(s: Shop, c: Customer) {
    && c.enter <= s.now && c.sit <= s.now && c.request <= s.now && c.baking <= s.now && c.pay <= s.now && c.accepted <= s.now
    && (c.request != 0 <==> Asked(c))
    && (c.pay != 0 <==> c.stage.Paying? || c.stage.Left?)
    && (c.stage.Left? ==> c.accepted != 0 && c.accepted + 2 <= s.now)
    && (!c.stage.Outside? ==> c.arrival <= s.now) && (InShop(c) || c.stage.Left? ==> c.arrival <= c.enter)
    && (c.stage.Standing? ==> c.enter + 1 <= s.now)
    && (c.stage.Seated? || Asked(c) ==> c.enter + 1 <= c.sit)
    && (c.request != 0 ==> c.sit + 1 <= c.request)
    && (c.baking != 0 ==> c.request != 0 && c.request + 1 <= c.baking && 1 <= c.chef < |s.busy| && c.baking + 2 <= s.busy[c.chef])
    && (c.pay != 0 ==> c.baking != 0 && c.baking + 2 <= c.pay)
    && (c.accepted != 0 ==> c.pay != 0 && c.pay + 1 <= c.accepted && c.accepted + 2 <= s.register)
  }

  predicate Apart(x: nat, y: nat) { x + 2 <= y || y + 2 <= x }

  // Payments are two apart, and so are one chef's cakes.
  ghost predicate Spaced(s: Shop) {
    && (forall i, j | 0 <= i < j < |s.customers| && s.customers[i].accepted != 0 && s.customers[j].accepted != 0 ::
          Apart(s.customers[i].accepted, s.customers[j].accepted))
    && (forall i, j | 0 <= i < j < |s.customers| && s.customers[i].baking != 0 && s.customers[j].baking != 0
                      && s.customers[i].chef == s.customers[j].chef ::
          Apart(s.customers[i].baking, s.customers[j].baking))
  }

  ghost predicate Counted(s: Shop) {
    && s.inShop == |Insiders(s)| <= MAX_CAPACITY
    && s.onSofa == |Sitters(s)| <= SOFA_CAPACITY
    && (s.line != [] ==> s.onSofa == SOFA_CAPACITY)
  }

  ghost predicate Inv(s: Shop) {
    && LineOk(s) && Counted(s) && Spaced(s)
    && (forall c | 0 <= c < |s.customers| :: TimesOk(s, s.customers[c]))
  }

  ghost predicate Opening(s: Shop) {
    && s.now == 0 && s.inShop == 0 && s.onSofa == 0 && s.line == [] && s.register == 0
    && (forall k | 0 <= k < |s.busy| :: s.busy[k] == 0)
    && (forall c | 0 <= c < |s.customers| :: s.customers[c] == Customer(s.customers[c].arrival, Outside, 0, 0, 0, 0, 0, 0, 0))
  }

  lemma OpeningIsOk(s: Shop)
    requires Opening(s)
    ensures Inv(s)
  {
    assert Insiders(s) == {};
    assert Sitters(s) == {};
  }

  ghost function InLine(s: Shop): set<nat> { set i | 0 <= i < |s.line| :: s.line[i] }

  lemma {:induction false} DistinctCount(q: seq<nat>)
    requires forall i, j | 0 <= i < j < |q| :: q[i] != q[j]
    ensures |set i | 0 <= i < |q| :: q[i]| == |q|
  {
    if q != [] {
      var n := |q| - 1;
      var front := q[..n];
      DistinctCount(front);
      assert (set i | 0 <= i < |q| :: q[i]) == (set i | 0 <= i < |front| :: front[i]) + {q[n]};
    }
  }

  // Everybody in the line or on the sofa is in the shop.
  lemma Room(s: Shop)
    requires Inv(s)
    ensures s.onSofa + |s.line| <= s.inShop <= MAX_CAPACITY
    ensures |s.line| <= MAX_CAPACITY - SOFA_CAPACITY
    ensures forall c: nat | c < |s.customers| && s.customers[c].stage.Inside? :: s.onSofa + |s.line| < s.inShop
  {
    hide Spaced, TimesOk;
    DistinctCount(s.line);
    var both := InLine(s) + Sitters(s);
    Apartness(s);
    assert |both| == |s.line| + s.onSofa;
    Fits(both, Insiders(s));
    forall c: nat | c < |s.customers| && s.customers[c].stage.Inside?
      ensures s.onSofa + |s.line| < s.inShop
    {
      Fits(both + {c}, Insiders(s));
    }
  }

  lemma Apartness(s: Shop)
    requires LineOk(s)
    ensures InLine(s) * Sitters(s) == {} && InLine(s) + Sitters(s) <= Insiders(s)
    ensures forall c: nat | c < |s.customers| && s.customers[c].stage.Inside? :: c in Insiders(s) && c !in InLine(s) + Sitters(s)
  {
  }

  lemma {:induction false} Fits(a: set<nat>, b: set<nat>)
    requires a <= b
    ensures |a| <= |b|
  {
    if a != {} {
      var x :| x in a;
      Fits(a - {x}, b - {x});
    }
  }

  // How a step changes who is inside, and who has a seat.
  lemma InsidersAfter(s: Shop, a: Act)
    requires LineOk(s) && Ready(s, a)
    ensures Insiders(Next(s, a)) ==
            if a.Enter? && s.inShop < MAX_CAPACITY then Insiders(s) + {a.c}
            else if a.Leave? then Insiders(s) - {a.c}
            else Insiders(s)
  {
    var t := Next(s, a);
    assert |t.customers| == |s.customers|;
  }

  lemma LineChange(s: Shop, a: Act)
    requires LineOk(s) && Ready(s, a)
    ensures forall c ::
              c in Next(s, a).line <==>
              if a.Leave? && s.line != [] then c in s.line && c != s.line[0]
              else c in s.line || (a.Sit? && s.onSofa >= SOFA_CAPACITY && c == a.c)
  {
    if a.Leave? && s.line != [] {
      assert s.line == [s.line[0]] + s.line[1..];
    }
  }

  lemma SittersAfter(s: Shop, a: Act)
    requires LineOk(s) && Ready(s, a)
    ensures Sitters(Next(s, a)) ==
            if a.Sit? && s.onSofa < SOFA_CAPACITY then Sitters(s) + {a.c}
            else if a.Leave? then Sitters(s) - {a.c} + (if s.line == [] then {} else {s.line[0]})
            else Sitters(s)
  {
    hide FirstToPay, FirstToBake, CanAccept, CanBake;
    var t := Next(s, a);
    LineChange(s, a);
    assert |t.customers| == |s.customers|;
  }

  // What a step does to the counters.
  lemma CountersAfter(s: Shop, a: Act)
    requires Ready(s, a)
    ensures Next(s, a).inShop == s.inShop + if a.Enter? && s.inShop < MAX_CAPACITY then 1 else if a.Leave? then -1 else 0
    ensures Next(s, a).onSofa == s.onSofa + if a.Sit? && s.onSofa < SOFA_CAPACITY then 1 else if a.Leave? && s.line == [] then -1 else 0
    ensures Next(s, a).line != [] ==> s.line != [] || (a.Sit? && s.onSofa >= SOFA_CAPACITY)
    ensures Next(s, a).line != [] && a.Leave? ==> s.line != []
  {
    hide FirstToPay, FirstToBake, CanAccept, CanBake;
  }

  // Who comes in was not in before, and who leaves was.
  lemma ComesAndGoes(s: Shop, a: Act)
    requires LineOk(s) && Ready(s, a)
    ensures a.Enter? ==> a.c !in Insiders(s)
    ensures a.Sit? ==> a.c !in Sitters(s)
    ensures a.Leave? ==> a.c in Insiders(s) && a.c in Sitters(s)
    ensures a.Leave? && s.line != [] ==> s.line[0] !in Sitters(s) && s.line[0] != a.c
  {
    hide FirstToPay, FirstToBake, CanAccept, CanBake;
  }

  lemma CountedAfter(s: Shop, a: Act)
    requires Inv(s) && Ready(s, a)
    ensures Counted(Next(s, a))
  {
    hide LineOk, Spaced, TimesOk, Next, Ready, Insiders, Sitters;
    InsidersAfter(s, a);
    SittersAfter(s, a);
    CountersAfter(s, a);
    ComesAndGoes(s, a);
  }

  lemma LineAfter(s: Shop, a: Act)
    requires LineOk(s) && Ready(s, a)
    ensures LineOk(Next(s, a))
  {
    var t := Next(s, a);
    if a.Notice? {
      forall i | 0 <= i < |t.line| ensures t.line[i] != a.c { assert s.line[i] in s.line; }
    }
  }

  // What has been set for a customer.
  ghost predicate Kept(a: Customer, b: Customer) {
    && (a.baking != 0 ==> b.baking == a.baking && b.chef == a.chef)
    && (a.accepted != 0 ==> b.accepted == a.accepted)
    && (a.pay != 0 ==> b.pay == a.pay)
    && (a.request != 0 ==> b.request == a.request)
  }

  // Clocks only move forward.
  ghost predicate Later(s: Shop, t: Shop) {
    && s.now <= t.now && s.register <= t.register && |t.busy| == |s.busy|
    && forall k | 0 <= k < |s.busy| :: s.busy[k] <= t.busy[k]
  }

  lemma NextIsLater(s: Shop, a: Act)
    requires Ready(s, a)
    ensures Later(s, Next(s, a))
  {
  }

  lemma TimesLater(s: Shop, t: Shop, c: Customer)
    requires Later(s, t) && TimesOk(s, c)
    ensures TimesOk(t, c)
  {
  }

  // The customer a step is about.
  function Actor(a: Act): int {
    match a
    case Tick => -1
    case Accept(_, b) => b
    case Bake(_, b) => b
    case _ => a.c
  }

  lemma OnlyActor(s: Shop, a: Act)
    requires Ready(s, a)
    ensures |Next(s, a).customers| == |s.customers| && |Next(s, a).busy| == |s.busy|
    ensures forall c | 0 <= c < |s.customers| && c != Actor(a) :: Next(s, a).customers[c] == s.customers[c]
  {
  }

  lemma ActorTimes(s: Shop, a: Act)
    requires !a.Tick? && Ready(s, a) && TimesOk(s, s.customers[Actor(a)])
    ensures TimesOk(Next(s, a), Next(s, a).customers[Actor(a)])
    ensures Kept(s.customers[Actor(a)], Next(s, a).customers[Actor(a)])
    ensures Next(s, a).customers[Actor(a)].accepted == if a.Accept? then s.now else s.customers[Actor(a)].accepted
    ensures a.Accept? ==> s.customers[Actor(a)].accepted == 0
    ensures Next(s, a).customers[Actor(a)].baking == if a.Bake? then s.now else s.customers[Actor(a)].baking
    ensures a.Bake? ==> s.customers[Actor(a)].baking == 0
    ensures Next(s, a).customers[Actor(a)].chef == if a.Bake? then a.k else s.customers[Actor(a)].chef
    ensures Next(s, a).customers[Actor(a)].stage.Away? <== s.customers[Actor(a)].stage.Away?
  {
    hide FirstToPay, FirstToBake;
    match a
    case Accept(k, b) => FirstCanPay(s, |s.customers|, b);
    case Bake(k, b) => FirstCanBake(s, |s.customers|, b, k);
    case _ =>
  }

  lemma FirstCanPay(s: Shop, n: nat, b: nat)
    requires b < n <= |s.customers| && FirstToPay(s, n, b)
    ensures CanAccept(s, s.customers[b])
  {
  }

  lemma FirstCanBake(s: Shop, n: nat, b: nat, k: nat)
    requires b < n <= |s.customers| && k < |s.busy| && FirstToBake(s, n, b, k)
    ensures CanBake(s, s.customers[b], k)
  {
  }

  lemma TimesAfter(s: Shop, a: Act, c: nat)
    requires Inv(s) && Ready(s, a) && c < |s.customers|
    ensures |Next(s, a).customers| == |s.customers| && TimesOk(Next(s, a), Next(s, a).customers[c])
  {
    hide LineOk, Counted, Spaced, TimesOk, Next, Ready;
    OnlyActor(s, a);
    NextIsLater(s, a);
    if c == Actor(a) { ActorTimes(s, a); } else { TimesLater(s, Next(s, a), s.customers[c]); }
  }

  // Any earlier payment ended before the register was free, any earlier cake of a chef
  // before that chef was.
  lemma SpacedAfter(s: Shop, a: Act)
    requires Inv(s) && Ready(s, a)
    ensures Spaced(Next(s, a))
  {
    hide LineOk, Counted, TimesOk, Next, Kept, FirstToPay, FirstToBake;
    var t := Next(s, a);
    OnlyActor(s, a);
    if !a.Tick? { ActorTimes(s, a); }
    forall i, j | 0 <= i < j < |t.customers| && t.customers[i].accepted != 0 && t.customers[j].accepted != 0
      ensures Apart(t.customers[i].accepted, t.customers[j].accepted)
    {
      EndOf(s, s.customers[i]);
      EndOf(s, s.customers[j]);
      if a.Accept? { FirstCanPay(s, |s.customers|, a.b); }
    }
    forall i, j | 0 <= i < j < |t.customers| && t.customers[i].baking != 0 && t.customers[j].baking != 0
                  && t.customers[i].chef == t.customers[j].chef
      ensures Apart(t.customers[i].baking, t.customers[j].baking)
    {
      EndOf(s, s.customers[i]);
      EndOf(s, s.customers[j]);
    }
  }

  lemma EndOf(s: Shop, c: Customer)
    requires TimesOk(s, c)
    ensures c.accepted != 0 ==> c.accepted + 2 <= s.register
    ensures c.baking != 0 ==> c.chef < |s.busy| && c.baking + 2 <= s.busy[c.chef]
  {
  }

  // No step breaks the invariant.
  lemma StepKeepsInv(s: Shop, a: Act)
    requires Inv(s) && Ready(s, a)
    ensures Inv(Next(s, a))
  {
    hide LineOk, Counted, Spaced, TimesOk, Next, Ready;
    LineAfter(s, a);
    CountedAfter(s, a);
    SpacedAfter(s, a);
    OnlyActor(s, a);
    forall c | 0 <= c < |s.customers| ensures TimesOk(Next(s, a), Next(s, a).customers[c]) { TimesAfter(s, a, c); }
  }

  // Runs: any interleaving.
  ghost predicate Run(s: Shop, acts: seq<Act>, t: Shop)
    decreases |acts|
  {
    if acts == [] then s == t else Ready(s, acts[0]) && Run(Next(s, acts[0]), acts[1..], t)
  }

  lemma {:induction false} RunKeepsInv(s: Shop, acts: seq<Act>, t: Shop)
    requires Inv(s) && Run(s, acts, t)
    ensures Inv(t) && |t.customers| == |s.customers| && |t.busy| == |s.busy|
    decreases |acts|
  {
    if acts != [] {
      StepKeepsInv(s, acts[0]);
      OnlyActor(s, acts[0]);
      RunKeepsInv(Next(s, acts[0]), acts[1..], t);
    }
  }

  // However the threads interleave: never more than 25 customers in the shop or four on the
  // sofa, nobody stands while a seat is free, and the line fits in its 21 places.
  lemma CapacityIsKept(s: Shop, acts: seq<Act>, t: Shop)
    requires Opening(s) && Run(s, acts, t)
    ensures |Insiders(t)| <= 25 && |Sitters(t)| <= 4
    ensures t.line != [] ==> |Sitters(t)| == 4
    ensures |t.line| <= 21
  {
    OpeningIsOk(s);
    RunKeepsInv(s, acts, t);
    Room(t);
  }

  // Cakes in the oven at time `when`.
  ghost function Baking(s: Shop, when: int): set<nat> {
    set c: nat | c < |s.customers| && s.customers[c].baking != 0 && s.customers[c].baking <= when < s.customers[c].baking + 2
  }

  lemma BakersDiffer(s: Shop, c: nat, d: nat, when: int)
    requires Spaced(s) && c < d && c in Baking(s, when) && d in Baking(s, when)
    ensures s.customers[c].chef != s.customers[d].chef
  {
  }

  // There are never more cakes baking than ovens, although no one counts ovens.
  lemma OvensSuffice(s: Shop, acts: seq<Act>, t: Shop, when: int)
    requires Opening(s) && |s.busy| == NUM_CHEFS + 1 && Run(s, acts, t)
    ensures |Baking(t, when)| <= NUM_OVENS
  {
    OpeningIsOk(s);
    RunKeepsInv(s, acts, t);
    var cakes := Baking(t, when);
    forall c, d | c in cakes && d in cakes && c != d
      ensures t.customers[c].chef != t.customers[d].chef
    {
      if c < d { BakersDiffer(t, c, d, when); } else { BakersDiffer(t, d, c, when); }
    }
    forall c | c in cakes ensures 1 <= t.customers[c].chef <= NUM_CHEFS { assert TimesOk(t, t.customers[c]); }
    OnePerChef(t, cakes, NUM_CHEFS);
  }

  lemma {:induction false} OnePerChef(s: Shop, cakes: set<nat>, n: nat)
    requires forall c | c in cakes :: c < |s.customers| && 1 <= s.customers[c].chef <= n
    requires forall c, d | c in cakes && d in cakes && c != d :: s.customers[c].chef != s.customers[d].chef
    ensures |cakes| <= n
  {
    if n == 0 {
      assert cakes == {};
    } else if exists c :: c in cakes && s.customers[c].chef == n {
      var c :| c in cakes && s.customers[c].chef == n;
      OnePerChef(s, cakes - {c}, n - 1);
    } else {
      OnePerChef(s, cakes, n - 1);
    }
  }

  // A customer is baked for once and charged once, whatever happens later.
  lemma {:induction false} ServedOnce(s: Shop, acts: seq<Act>, t: Shop, c: nat)
    requires Inv(s) && Run(s, acts, t) && c < |s.customers|
    ensures |t.customers| == |s.customers| && Kept(s.customers[c], t.customers[c])
    decreases |acts|
  {
    hide LineOk, Counted, Spaced, TimesOk, Next, Ready;
    if acts != [] {
      var a := acts[0];
      StepKeepsInv(s, a);
      OnlyActor(s, a);
      if c == Actor(a) { ActorTimes(s, a); }
      ServedOnce(Next(s, a), acts[1..], t, c);
    }
  }

  // Who stood in line at s: the first k have been handed a seat, the rest still head the line.
  ghost predicate Served(s: Shop, t: Shop, k: nat) {
    && k <= |s.line| && |t.customers| == |s.customers| && s.line[k..] <= t.line
    && (forall i | 0 <= i < k :: s.line[i] !in t.line && s.line[i] < |t.customers|
                                 && !t.customers[s.line[i]].stage.Inside? && !t.customers[s.line[i]].stage.Outside?)
  }

  lemma ServedStep(s: Shop, m: Shop, k: nat, a: Act)
    requires LineOk(s) && LineOk(m) && Ready(m, a) && Served(s, m, k)
    ensures exists k2: nat :: Served(s, Next(m, a), k2)
  {
    var t := Next(m, a);
    if a.Leave? && m.line != [] && k < |s.line| {
      assert m.line[0] == s.line[k..][0] == s.line[k];
      assert s.line[k + 1..] == s.line[k..][1..] <= m.line[1..];
      forall i | 0 <= i < k + 1
        ensures s.line[i] !in t.line && !t.customers[s.line[i]].stage.Inside? && !t.customers[s.line[i]].stage.Outside?
      {
        forall j | 0 <= j < |t.line|
          ensures t.line[j] != s.line[i]
        {
          assert t.line[j] == m.line[j + 1];
          assert i < k ==> m.line[j + 1] in m.line;
        }
      }
      assert Served(s, t, k + 1);
    } else {
      if a.Leave? && m.line != [] {
        assert s.line[k..] == [];
        forall x | x in t.line ensures x in m.line { var j :| 0 <= j < |t.line| && t.line[j] == x; assert m.line[j + 1] == x; }
      }
      if a.Sit? { assert forall x | x in t.line :: x in m.line || x == a.c; }
      assert Served(s, t, k);
    }
  }

  lemma {:induction false} ServedRun(s: Shop, m: Shop, k: nat, acts: seq<Act>, t: Shop) returns (k2: nat)
    requires LineOk(s) && LineOk(m) && Served(s, m, k) && Run(m, acts, t)
    ensures Served(s, t, k2)
    decreases |acts|
  {
    if acts == [] {
      k2 := k;
    } else {
      ServedStep(s, m, k, acts[0]);
      LineAfter(m, acts[0]);
      var k1: nat :| Served(s, Next(m, acts[0]), k1);
      k2 := ServedRun(s, Next(m, acts[0]), k1, acts[1..], t);
    }
  }

  // Seats are handed out in the order of the line: nobody is called before those ahead.
  lemma SeatsInOrder(s: Shop, acts: seq<Act>, t: Shop, i: nat, j: nat)
    requires Inv(s) && Run(s, acts, t) && i < j < |s.line|
    ensures s.line[i] in t.line ==> s.line[j] in t.line
  {
    assert s.line[0..] == s.line;
    assert Served(s, s, 0);
    var k := ServedRun(s, s, 0, acts, t);
    if s.line[i] in t.line {
      assert k <= i;
      assert s.line[j] == s.line[k..][j - k] == t.line[j - k];
    }
  }

  // The test chef_thread makes before it ends.
  predicate AllDone(s: Shop) {
    forall c | 0 <= c < |s.customers| :: s.customers[c].accepted != 0 && s.now >= s.customers[c].accepted + 2
  }

  lemma AwayIsUnpaid(s: Shop, c: Customer)
    requires TimesOk(s, c) && c.stage.Away?
    ensures c.accepted == 0
  {
  }

  // Once a customer has been turned away, no chef ever finds all customers done.
  lemma {:induction false} TurnedAwayKeepsChefs(s: Shop, acts: seq<Act>, t: Shop, c: nat)
    requires Inv(s) && Run(s, acts, t) && c < |s.customers| && s.customers[c].stage.Away?
    ensures !AllDone(t)
    decreases |acts|
  {
    hide LineOk, Counted, Spaced, TimesOk, Next, Ready;
    if acts == [] {
      AwayIsUnpaid(s, s.customers[c]);
    } else {
      var a := acts[0];
      StepKeepsInv(s, a);
      OnlyActor(s, a);
      if c == Actor(a) { ActorTimes(s, a); }
      TurnedAwayKeepsChefs(Next(s, a), acts[1..], t, c);
    }
  }

  // When everybody has gone, the chefs stop exactly if nobody was turned away.
  lemma ChefsStopIff(s: Shop)
    requires Inv(s) && s.now >= s.register
    requires forall c | 0 <= c < |s.customers| :: s.customers[c].stage.Left? || s.customers[c].stage.Away?
    ensures AllDone(s) && s.inShop == 0 <==> forall c | 0 <= c < |s.customers| :: !s.customers[c].stage.Away?
  {
    forall c | 0 <= c < |s.customers| ensures TimesOk(s, s.customers[c]) {}
    assert Insiders(s) == {};
  }

  lemma {:induction false} RunOn(s: Shop, acts: seq<Act>, t: Shop, more: seq<Act>, u: Shop)
    requires Run(s, acts, t) && Run(t, more, u)
    ensures Run(s, acts + more, u)
    decreases |acts|
  {
    hide Ready, Next;
    if acts == [] {
      assert acts + more == more;
    } else {
      RunOn(Next(s, acts[0]), acts[1..], t, more, u);
      assert (acts + more)[1..] == acts[1..] + more;
    }
  }

  // Time passes, and nothing else.
  lemma {:induction false} TimePasses(s: Shop, until: nat) returns (acts: seq<Act>)
    requires s.now <= until
    ensures Run(s, acts, s.(now := until))
    decreases until - s.now
  {
    if s.now == until {
      acts := [];
    } else {
      var rest := TimePasses(Next(s, Tick), until);
      acts := [Tick] + rest;
      assert acts[1..] == rest;
    }
  }

  lemma {:induction false} LastArrival(customers: seq<Customer>) returns (latest: nat)
    ensures forall c | 0 <= c < |customers| :: customers[c].arrival <= latest
  {
    if customers == [] {
      latest := 0;
    } else {
      var n := |customers| - 1;
      var before := LastArrival(customers[..n]);
      latest := if customers[n].arrival > before then customers[n].arrival else before;
    }
  }

  // The first k customers are in, and the others, who have all arrived, outside.
  ghost predicate Entered(s: Shop, k: nat) {
    && k <= MAX_CAPACITY < |s.customers| && s.inShop == k
    && forall c | k <= c < |s.customers| :: s.customers[c].stage.Outside? && s.customers[c].arrival <= s.now
  }

  lemma {:induction false} ShopFills(s: Shop, k: nat) returns (acts: seq<Act>, t: Shop)
    requires Entered(s, k)
    ensures Run(s, acts, t) && |t.customers| == |s.customers| && t.customers[MAX_CAPACITY].stage.Away?
    decreases MAX_CAPACITY - k
  {
    var u := Next(s, Enter(k));
    if k == MAX_CAPACITY {
      acts, t := [Enter(k)], u;
      assert acts[1..] == [];
    } else {
      var rest, v := ShopFills(u, k + 1);
      acts, t := [Enter(k)] + rest, v;
      assert acts[1..] == rest;
    }
  }

  // All come at once, and the twenty-sixth is turned away.
  lemma FillsUp(s: Shop) returns (acts: seq<Act>, t: Shop)
    requires Opening(s) && |s.customers| > MAX_CAPACITY
    ensures Run(s, acts, t) && |t.customers| == |s.customers| && t.customers[MAX_CAPACITY].stage.Away?
  {
    hide Run, Ready, Next;
    var latest := LastArrival(s.customers);
    var wait := TimePasses(s, latest);
    var open := s.(now := latest);
    var enters;
    enters, t := ShopFills(open, 0);
    acts := wait + enters;
    RunOn(s, wait, open, enters, t);
  }

  // So with more than 25 customers there is a run after which the chefs never stop.
  lemma ChefsMayNeverStop(s: Shop) returns (acts: seq<Act>, t: Shop)
    requires Opening(s) && |s.customers| > MAX_CAPACITY
    ensures Run(s, acts, t) && forall more, u | Run(t, more, u) :: !AllDone(u)
  {
    hide Run, Ready, Next, AllDone;
    acts, t := FillsUp(s);
    OpeningIsOk(s);
    RunKeepsInv(s, acts, t);
    forall more, u | Run(t, more, u)
      ensures !AllDone(u)
    {
      TurnedAwayKeepsChefs(t, more, u, MAX_CAPACITY);
    }
  }

  predicate NobodyAway(s: Shop) { forall c | 0 <= c < |s.customers| :: !s.customers[c].stage.Away? }

  // With room for all there is room for the next.
  lemma StepTurnsNobodyAway(s: Shop, a: Act)
    requires Inv(s) && Ready(s, a) && |s.customers| <= MAX_CAPACITY && NobodyAway(s)
    ensures NobodyAway(Next(s, a))
  {
    hide TimesOk, LineOk, Spaced, FirstToPay, FirstToBake;
    OnlyActor(s, a);
    if a.Enter? {
      FewBelow(Insiders(s) + {a.c}, |s.customers|);
    }
  }

  lemma {:induction false} FewBelow(a: set<nat>, n: nat)
    requires forall x | x in a :: x < n
    ensures |a| <= n
    decreases n
  {
    if n > 0 { FewBelow(a - {n - 1}, n - 1); } else { assert a == {}; }
  }

  lemma {:induction false} RunTurnsNobodyAway(s: Shop, acts: seq<Act>, t: Shop)
    requires Inv(s) && |s.customers| <= MAX_CAPACITY && NobodyAway(s) && Run(s, acts, t)
    ensures NobodyAway(t)
    decreases |acts|
  {
    hide Inv, NobodyAway, Ready, Next;
    if acts != [] {
      StepTurnsNobodyAway(s, acts[0]);
      StepKeepsInv(s, acts[0]);
      OnlyActor(s, acts[0]);
      RunTurnsNobodyAway(Next(s, acts[0]), acts[1..], t);
    }
  }

  // Somebody can be turned away exactly when there are more than 25 customers in all.
  lemma TurnedAwayIff(s: Shop)
    requires Opening(s)
    ensures (exists acts, t :: Run(s, acts, t) && !NobodyAway(t)) <==> |s.customers| > 25
  {
    hide Run;
    OpeningIsOk(s);
    if |s.customers| > MAX_CAPACITY {
      var acts, t := FillsUp(s);
      assert Run(s, acts, t) && !NobodyAway(t);
    } else {
      forall acts, t | Run(s, acts, t)
        ensures NobodyAway(t)
      {
        RunTurnsNobodyAway(s, acts, t);
      }
    }
  }

  predicate WorksOf(a: Act, k: nat) { (a.Accept? || a.Bake?) && a.k == k }

  lemma {:induction false} RunIsLater(s: Shop, acts: seq<Act>, t: Shop)
    requires Run(s, acts, t)
    ensures Later(s, t)
    decreases |acts|
  {
    hide Ready, Next;
    if acts != [] {
      NextIsLater(s, acts[0]);
      RunIsLater(Next(s, acts[0]), acts[1..], t);
    }
  }

  // Whatever a chef does, a payment or a cake, takes two units: however the threads interleave,
  // the next thing that chef does starts no sooner.
  lemma ChefIsBusy(s: Shop, a: Act, acts: seq<Act>, t: Shop, b: Act, k: nat)
    requires Ready(s, a) && WorksOf(a, k) && Run(Next(s, a), acts, t) && Ready(t, b) && WorksOf(b, k)
    ensures t.now >= s.now + 2
  {
    hide Run;
    RunIsLater(Next(s, a), acts, t);
  }

  // Who paid first is served first at the register, and who ordered first has a cake begun first.
  ghost predicate InOrder(s: Shop) {
    && (forall c, d | 0 <= c < |s.customers| && 0 <= d < |s.customers| :: PaidInOrder(s.customers[c], s.customers[d]))
    && (forall c, d | 0 <= c < |s.customers| && 0 <= d < |s.customers| :: BakedInOrder(s.customers[c], s.customers[d]))
  }

  predicate PaidInOrder(c: Customer, d: Customer) {
    0 < c.pay < d.pay && d.accepted != 0 ==> c.accepted != 0 && c.accepted + 2 <= d.accepted
  }

  predicate BakedInOrder(c: Customer, d: Customer) {
    0 < c.request < d.request && d.baking != 0 ==> 0 < c.baking <= d.baking
  }

  lemma StepKeepsOrder(s: Shop, a: Act)
    requires Inv(s) && Ready(s, a) && InOrder(s)
    ensures InOrder(Next(s, a))
  {
    hide LineOk, Counted, Spaced, FirstToPay, FirstToBake, PaidInOrder, BakedInOrder;
    OnlyActor(s, a);
    var t := Next(s, a);
    forall c, d | 0 <= c < |s.customers| && 0 <= d < |s.customers|
      ensures PaidInOrder(t.customers[c], t.customers[d]) && BakedInOrder(t.customers[c], t.customers[d])
    {
      if c == Actor(a) || d == Actor(a) { PairInOrder(s, a, c, d); }
    }
  }

  lemma PairInOrder(s: Shop, a: Act, c: nat, d: nat)
    requires Inv(s) && Ready(s, a) && InOrder(s) && c < |s.customers| && d < |s.customers| && (c == Actor(a) || d == Actor(a))
    ensures |Next(s, a).customers| == |s.customers|
    ensures PaidInOrder(Next(s, a).customers[c], Next(s, a).customers[d]) && BakedInOrder(Next(s, a).customers[c], Next(s, a).customers[d])
  {
    hide LineOk, Counted, Spaced;
    assert PaidInOrder(s.customers[c], s.customers[d]) && BakedInOrder(s.customers[c], s.customers[d]);
    assert PaidInOrder(s.customers[d], s.customers[c]) && BakedInOrder(s.customers[d], s.customers[c]);
    assert TimesOk(s, s.customers[c]) && TimesOk(s, s.customers[d]);
  }

  lemma {:induction false} RunKeepsOrder(s: Shop, acts: seq<Act>, t: Shop)
    requires Inv(s) && InOrder(s) && Run(s, acts, t)
    ensures InOrder(t)
    decreases |acts|
  {
    hide Inv, InOrder, Ready, Next;
    if acts != [] {
      StepKeepsOrder(s, acts[0]);
      StepKeepsInv(s, acts[0]);
      RunKeepsOrder(Next(s, acts[0]), acts[1..], t);
    }
  }

  // From opening on, in every interleaving.
  lemma ServedInOrder(s: Shop, acts: seq<Act>, t: Shop, c: nat, d: nat)
    requires Opening(s) && Run(s, acts, t) && c < |t.customers| && d < |t.customers|
    ensures 0 < t.customers[c].pay < t.customers[d].pay && t.customers[d].accepted != 0 ==>
              0 < t.customers[c].accepted && t.customers[c].accepted + 2 <= t.customers[d].accepted
    ensures 0 < t.customers[c].request < t.customers[d].request && t.customers[d].baking != 0 ==>
              0 < t.customers[c].baking <= t.customers[d].baking
  {
    hide Inv, Ready, Next, Run;
    OpeningIsOk(s);
    RunKeepsOrder(s, acts, t);
  }

  // No cake is begun while a payment made a unit ago waits and the register is free.
  lemma PaymentsFirst(s: Shop, k: nat, b: nat, c: nat)
    requires Ready(s, Bake(k, b)) && c < |s.customers|
    ensures var p := s.customers[c]; p.pay > 0 && p.pay + 1 <= s.now && s.register <= s.now ==> p.accepted != 0
  {
  }
}
