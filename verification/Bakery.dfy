// The critical sections of customer_thread, chef_thread and timer_thread of bakery.c.

module Bakery {
  import opened BakeryModel

  class Shared {
    var now: nat
    var inShop: int
    var onSofa: int
    const standing: array<nat>
    var count: nat
    const customers: array<Customer>
    var register: nat
    const busy: array<nat>

    ghost predicate Ok()
      reads this, standing, customers, busy
    {
      && standing.Length == MAX_CAPACITY - SOFA_CAPACITY && count <= standing.Length
      && busy.Length == NUM_CHEFS + 1 && busy != standing
      && Inv(State())
    }

    ghost function State(): Shop
      requires count <= standing.Length
      reads this, standing, customers, busy
    {
      Shop(now, inShop, onSofa, standing[..count], customers[..], register, busy[..])
    }

    // main, before it starts the threads
    constructor (arrivals: seq<int>)
      ensures Ok() && fresh(standing) && fresh(customers) && fresh(busy) && Opening(State())
      ensures customers.Length == |arrivals| && forall c | 0 <= c < |arrivals| :: customers[c].arrival == arrivals[c]
    {
      now, inShop, onSofa, count, register := 0, 0, 0, 0, 0;
      standing := new nat[MAX_CAPACITY - SOFA_CAPACITY];
      busy := new nat[NUM_CHEFS + 1](_ => 0);
      customers := new Customer[|arrivals|](c requires 0 <= c < |arrivals| => Customer(arrivals[c], Outside, 0, 0, 0, 0, 0, 0, 0));
      new;
      OpeningIsOk(State());
    }

    // timer_thread
    method Tick()
      requires Ok()
      modifies `now
      ensures Ok() && State() == Next(old(State()), Act.Tick)
    {
      StepKeepsInv(State(), Act.Tick);
      now := now + 1;
    }

    // "Try to enter shop"
    method TryEnter(c: nat) returns (entered: bool)
      requires Ok() && Ready(State(), Enter(c))
      modifies `inShop, customers
      ensures Ok() && State() == Next(old(State()), Enter(c))
      ensures entered <==> customers[c].stage.Inside?
    {
      hide Inv;
      StepKeepsInv(State(), Enter(c));
      ghost var was := customers[..];
      if inShop >= MAX_CAPACITY {
        customers[c] := customers[c].(stage := Away);
        assert customers[..] == was[c := customers[c]];
        return false;
      }
      inShop := inShop + 1;
      customers[c] := customers[c].(stage := Inside, enter := now);
      assert customers[..] == was[c := customers[c]];
      entered := true;
    }

    // "Try to sit on sofa"
    method TakeSeat(c: nat) returns (seated: bool)
      requires Ok() && Ready(State(), Sit(c))
      modifies `onSofa, `count, customers, standing
      ensures Ok() && State() == Next(old(State()), Sit(c))
      ensures seated <==> customers[c].stage.Seated?
    {
      hide Inv;
      StepKeepsInv(State(), Sit(c));
      Room(State());
      ghost var was, line := customers[..], standing[..count];
      if onSofa < SOFA_CAPACITY {
        onSofa := onSofa + 1;
        customers[c] := customers[c].(stage := Seated, sit := now);
        assert customers[..] == was[c := customers[c]];
        return true;
      }
      standing[count] := c;
      count := count + 1;
      customers[c] := customers[c].(stage := Standing);
      assert customers[..] == was[c := customers[c]];
      assert standing[..count] == line + [c];
      seated := false;
    }

    // One look at the line, while standing.
    method LookForSeat(c: nat) returns (seated: bool)
      requires Ok() && c < customers.Length && customers[c].stage.Standing?
      modifies customers
      ensures Ok() && (seated <==> c !in old(standing[..count]))
      ensures State() == if seated then Next(old(State()), Notice(c)) else old(State())
    {
      hide Inv;
      ghost var was := customers[..];
      seated := true;
      for i := 0 to count
        invariant seated <==> c !in standing[..i]
      {
        if standing[i] == c {
          seated := false;
          break;
        }
      }
      if seated {
        StepKeepsInv(State(), Notice(c));
        customers[c] := customers[c].(stage := Seated, sit := now);
        assert customers[..] == was[c := customers[c]];
      }
    }

    // "Request cake"
    method RequestCake(c: nat)
      requires Ok() && Ready(State(), Request(c))
      modifies customers
      ensures Ok() && State() == Next(old(State()), Request(c))
    {
      hide Inv;
      StepKeepsInv(State(), Request(c));
      ghost var was := customers[..];
      customers[c] := customers[c].(stage := Waiting, request := now);
      assert customers[..] == was[c := customers[c]];
    }

    // "Pay (after baking completes)"
    method PayForCake(c: nat)
      requires Ok() && Ready(State(), Pay(c))
      modifies customers
      ensures Ok() && State() == Next(old(State()), Pay(c))
    {
      hide Inv;
      StepKeepsInv(State(), Pay(c));
      ghost var was := customers[..];
      customers[c] := customers[c].(stage := Paying, pay := now);
      assert customers[..] == was[c := customers[c]];
    }

    // The first in the line goes, and the others move up.
    method MoveUp()
      requires 0 < count <= standing.Length
      modifies `count, standing
      ensures count == old(count) - 1 && standing[..count] == old(standing[..count])[1..]
    {
      ghost var line := standing[..count];
      for i := 1 to count
        invariant count == old(count)
        invariant forall j | 0 <= j < i - 1 :: standing[j] == line[j + 1]
        invariant forall j | i - 1 <= j < count :: standing[j] == line[j]
      {
        standing[i - 1] := standing[i];
      }
      count := count - 1;
      assert standing[..count] == line[1..];
    }

    // "Leave"
    method LeaveShop(c: nat)
      requires Ok() && Ready(State(), Leave(c))
      modifies `inShop, `onSofa, `count, customers, standing
      ensures Ok() && State() == Next(old(State()), Leave(c))
    {
      hide Inv;
      StepKeepsInv(State(), Leave(c));
      ghost var s := State();
      customers[c] := customers[c].(stage := Left);
      assert customers[..] == s.customers[c := customers[c]];
      inShop := inShop - 1;
      onSofa := onSofa - 1;
      if count > 0 {
        MoveUp();
        onSofa := onSofa + 1;
        assert s.line != [];
      } else {
        assert s.line == [];
      }
    }

    // The payment to accept: -1 if none.
    method FindPayment() returns (best: int)
      requires Ok()
      ensures -1 <= best < customers.Length
      ensures best >= 0 ==> FirstToPay(State(), customers.Length, best)
      ensures best == -1 ==> forall j | 0 <= j < customers.Length :: !CanAccept(State(), customers[j])
    {
      hide Inv;
      best := -1;
      var earliest: int := -1;
      for i := 0 to customers.Length
        invariant -1 <= best < i
        invariant best >= 0 ==> FirstToPay(State(), i, best) && earliest == customers[best].pay
        invariant best == -1 ==> earliest == -1 && forall j | 0 <= j < i :: !CanAccept(State(), customers[..][j])
      {
        var cust := customers[i];
        assert cust == State().customers[i];
        if cust.pay > 0 && cust.accepted == 0 {
          if now >= cust.pay + 1 && now >= register {
            if earliest == -1 || cust.pay < earliest {
              earliest := cust.pay;
              best := i;
            }
          }
        }
      }
    }

    // The order to bake: -1 if none.
    method FindOrder(k: nat) returns (best: int)
      requires Ok() && k < busy.Length
      ensures -1 <= best < customers.Length
      ensures best >= 0 ==> FirstToBake(State(), customers.Length, best, k)
      ensures best == -1 ==> forall j | 0 <= j < customers.Length :: !CanBake(State(), customers[j], k)
    {
      hide Inv;
      best := -1;
      var earliest: int := -1;
      for i := 0 to customers.Length
        invariant -1 <= best < i
        invariant best >= 0 ==> FirstToBake(State(), i, best, k) && earliest == customers[best].request
        invariant best == -1 ==> earliest == -1 && forall j | 0 <= j < i :: !CanBake(State(), customers[..][j], k)
      {
        var cust := customers[i];
        assert cust == State().customers[i];
        if cust.request > 0 && cust.baking == 0 {
          if now >= cust.request + 1 && now >= busy[k] {
            if earliest == -1 || cust.request < earliest {
              earliest := cust.request;
              best := i;
            }
          }
        }
      }
    }

    // One turn of chef k, whose last work has ended.
    method ChefTurn(k: nat) returns (worked: bool)
      requires Ok() && 1 <= k < busy.Length && now >= busy[k]
      modifies `register, customers, busy
      ensures Ok()
      ensures worked ==> exists b: nat :: (Ready(old(State()), Accept(k, b)) && State() == Next(old(State()), Accept(k, b)))
                                         || (Ready(old(State()), Bake(k, b)) && State() == Next(old(State()), Bake(k, b)))
      ensures !worked ==> State() == old(State())
                          && forall j | 0 <= j < customers.Length :: !CanAccept(State(), customers[j]) && !CanBake(State(), customers[j], k)
    {
      hide Inv, FirstToPay, FirstToBake, CanAccept, CanBake;
      ghost var s := State();
      var b := FindPayment();
      if b >= 0 {
        StepKeepsInv(s, Accept(k, b));
        customers[b] := customers[b].(accepted := now);
        register := now + 2;
        busy[k] := now + 2;
        assert State() == Next(s, Accept(k, b));
        return true;
      }
      b := FindOrder(k);
      if b >= 0 {
        StepKeepsInv(s, Bake(k, b));
        customers[b] := customers[b].(baking := now, chef := k);
        busy[k] := now + 2;
        assert State() == Next(s, Bake(k, b));
        return true;
      }
      worked := false;
    }
  }
}
