// Admission to the log: begin_op, log_write and end_op of kernel/log.c as steps on
// the in-memory log header and the set of running operations.

module LogAdmission {
  import opened BufferCacheModel
  import opened LogModel

  // lh is lh.block[0..lh.n]; ops maps each running operation to the blocks it has
  // logged so far, so that outstanding is |ops|.
  datatype Admission = Admission(lh: seq<nat>, ops: map<nat, set<nat>>, committing: bool)

  // One turn of begin_op's loop. None: the caller sleeps.
  function Begin(a: Admission, op: nat): Option<Admission> {
    if a.committing then None
    else if |a.lh| + (|a.ops| + 1) * MAXOPBLOCKS > LOGBLOCKS then None
    else Some(a.(ops := a.ops[op := {}]))
  }

  // log_write. None: one of its two panics.
  function LogBlock(a: Admission, op: nat, bn: nat): Option<Admission>
    requires op in a.ops
  {
    if |a.lh| >= LOGBLOCKS || |a.ops| < 1 then None
    else Some(a.(lh := if bn in a.lh then a.lh else a.lh + [bn], ops := a.ops[op := a.ops[op] + {bn}]))
  }

  // end_op up to the release of log.lock. None: the "log.committing" panic.
  function End(a: Admission, op: nat): Option<Admission>
    requires op in a.ops
  {
    if a.committing then None
    else Some(a.(ops := a.ops - {op}, committing := |a.ops| == 1))
  }

  // The rest of end_op, for the last operation.
  function Committed(a: Admission): Admission {
    a.(lh := [], committing := false)
  }

  // Ten blocks for each running operation, less those it has logged already.
  ghost function Unused(ops: map<nat, set<nat>>): int {
    if ops == map[] then 0
    else
      var o :| o in ops;
      MAXOPBLOCKS - |ops[o]| + Unused(ops - {o})
  }

  lemma {:induction false} UnusedSplit(ops: map<nat, set<nat>>, o: nat)
    requires o in ops
    ensures Unused(ops) == MAXOPBLOCKS - |ops[o]| + Unused(ops - {o})
    decreases |ops|
  {
    var p :| p in ops && Unused(ops) == MAXOPBLOCKS - |ops[p]| + Unused(ops - {p});
    if p != o {
      UnusedSplit(ops - {p}, o);
      UnusedSplit(ops - {o}, p);
      assert ops - {p} - {o} == ops - {o} - {p};
    }
  }

  lemma {:induction false} UnusedBounds(ops: map<nat, set<nat>>)
    requires forall o | o in ops :: |ops[o]| <= MAXOPBLOCKS
    ensures 0 <= Unused(ops) <= MAXOPBLOCKS * |ops|
    decreases |ops|
  {
    if ops != map[] {
      var o :| o in ops;
      UnusedSplit(ops, o);
      assert (ops - {o}).Keys == ops.Keys - {o};
      assert |ops - {o}| == |ops| - 1;
      UnusedBounds(ops - {o});
    }
  }

  // What every step keeps, when no operation logs more than limit different blocks.
  ghost predicate Sound(a: Admission, limit: nat) {
    && (forall i, j | 0 <= i < j < |a.lh| :: a.lh[i] != a.lh[j])
    && (a.committing ==> a.ops == map[])
    && (forall o | o in a.ops :: |a.ops[o]| <= limit && forall b | b in a.ops[o] :: b in a.lh)
    && |a.lh| + Unused(a.ops) <= LOGBLOCKS
    && |a.lh| <= LOGBLOCKS - (MAXOPBLOCKS - limit)
  }

  lemma BeginKeepsSound(a: Admission, op: nat, limit: nat)
    requires limit <= MAXOPBLOCKS && Sound(a, limit) && op !in a.ops
    ensures Begin(a, op).Some? ==> Sound(Begin(a, op).value, limit)
  {
    if Begin(a, op).Some? {
      UnusedSplit(a.ops[op := {}], op);
      assert a.ops[op := {}] - {op} == a.ops;
      UnusedBounds(a.ops);
    }
  }

  // What the other operations have left, and what this one has.
  lemma UnusedRest(ops: map<nat, set<nat>>, op: nat, used: set<nat>)
    requires op in ops && forall o | o in ops :: |ops[o]| <= MAXOPBLOCKS
    ensures |ops| >= 1
    ensures Unused(ops) >= MAXOPBLOCKS - |ops[op]|
    ensures Unused(ops[op := used]) == Unused(ops) + |ops[op]| - |used|
  {
    assert op in ops.Keys;
    UnusedSplit(ops, op);
    UnusedSplit(ops[op := used], op);
    assert ops[op := used] - {op} == ops - {op};
    UnusedBounds(ops - {op});
  }

  // With room left for the operation, log_write panics exactly when the log is full.
  lemma LogBlockKeepsSound(a: Admission, op: nat, bn: nat, limit: nat)
    requires limit <= MAXOPBLOCKS && Sound(a, limit) && op in a.ops && |a.ops[op] + {bn}| <= limit
    ensures LogBlock(a, op, bn).None? <==> |a.lh| == LOGBLOCKS
    ensures LogBlock(a, op, bn).Some? ==> Sound(LogBlock(a, op, bn).value, limit)
  {
    hide Unused;
    var used := a.ops[op] + {bn};
    UnusedRest(a.ops, op, used);
    OneMore(a.ops[op], bn);
  }

  lemma OneMore(s: set<nat>, b: nat)
    ensures |s + {b}| == |s| + (if b in s then 0 else 1)
  {
    assert b in s ==> s + {b} == s;
  }

  // The log is full only when every running operation has used up its ten blocks; so
  // the write that panics is one of a block already in the log, which needs no room.
  lemma FullLogIsUsedUp(a: Admission, op: nat, bn: nat)
    requires Sound(a, MAXOPBLOCKS) && op in a.ops && |a.ops[op] + {bn}| <= MAXOPBLOCKS && |a.lh| == LOGBLOCKS
    ensures bn in a.lh
    ensures forall o | o in a.ops :: |a.ops[o]| == MAXOPBLOCKS
  {
    forall o | o in a.ops
      ensures |a.ops[o]| == MAXOPBLOCKS
    {
      UnusedRest(a.ops, o, {});
    }
    OneMore(a.ops[op], bn);
  }

  // end_op never finds a commit in progress.
  lemma EndKeepsSound(a: Admission, op: nat, limit: nat)
    requires limit <= MAXOPBLOCKS && Sound(a, limit) && op in a.ops
    ensures End(a, op).Some? && Sound(End(a, op).value, limit)
    ensures End(a, op).value.committing <==> End(a, op).value.ops == map[]
  {
    UnusedSplit(a.ops, op);
    var rest := a.ops - {op};
    assert rest.Keys == a.ops.Keys - {op};
    assert |rest| == |a.ops| - 1;
    assert rest == map[] <==> |rest| == 0;
  }

  datatype Action = BeginOp(op: nat) | Write(op: nat, bn: nat) | EndOp(op: nat) | FinishCommit

  // An operation calls begin_op when it is not running, the other two when it is, and
  // logs at most limit different blocks. The committing process alone finishes a commit.
  ghost predicate Allowed(a: Admission, s: Action, limit: nat) {
    match s
    case BeginOp(op) => op !in a.ops
    case Write(op, bn) => op in a.ops && |a.ops[op] + {bn}| <= limit
    case EndOp(op) => op in a.ops
    case FinishCommit => a.committing
  }

  // None: a panic. An operation that has to sleep leaves the state alone.
  ghost function Step(a: Admission, s: Action): Option<Admission>
    requires Allowed(a, s, MAXOPBLOCKS)
  {
    match s
    case BeginOp(op) => if Begin(a, op).Some? then Begin(a, op) else Some(a)
    case Write(op, bn) => LogBlock(a, op, bn)
    case EndOp(op) => End(a, op)
    case FinishCommit => Some(Committed(a))
  }

  ghost predicate Run(a: Admission, steps: seq<Action>, limit: nat)
    requires limit <= MAXOPBLOCKS
    decreases |steps|
  {
    steps == [] || (Allowed(a, steps[0], limit) && (Step(a, steps[0]).Some? ==> Run(Step(a, steps[0]).value, steps[1..], limit)))
  }

  // The state a run ends in, or None if it panics on the way.
  ghost function Outcome(a: Admission, steps: seq<Action>, limit: nat): Option<Admission>
    requires limit <= MAXOPBLOCKS && Run(a, steps, limit)
    decreases |steps|
  {
    if steps == [] then Some(a)
    else if Step(a, steps[0]).None? then None
    else Outcome(Step(a, steps[0]).value, steps[1..], limit)
  }

  // Over every interleaving of operations: the log and the reservations of running
  // operations always fit in LOGBLOCKS, a commit excludes running operations, and if
  // no operation logs more than nine different blocks nothing panics and the log
  // always leaves at least one of the LOGBLOCKS places free.
  lemma {:induction false} RunStaysSound(a: Admission, steps: seq<Action>, limit: nat)
    requires limit <= MAXOPBLOCKS && Sound(a, limit) && Run(a, steps, limit)
    ensures Outcome(a, steps, limit).Some? ==> Sound(Outcome(a, steps, limit).value, limit)
    ensures limit < MAXOPBLOCKS ==> Outcome(a, steps, limit).Some?
    ensures limit < MAXOPBLOCKS ==> |Outcome(a, steps, limit).value.lh| < LOGBLOCKS
    decreases |steps|
  {
    if steps != [] {
      match steps[0] {
        case BeginOp(op) => BeginKeepsSound(a, op, limit);
        case Write(op, bn) => LogBlockKeepsSound(a, op, bn, limit);
        case EndOp(op) => EndKeepsSound(a, op, limit);
        case FinishCommit =>
      }
      if Step(a, steps[0]).Some? {
        RunStaysSound(Step(a, steps[0]).value, steps[1..], limit);
      }
    }
  }

  // Room is kept for ten blocks of each running operation, in a log of thirty. So a second
  // operation is let in while at most ten blocks are logged, and the first in any case while
  // at most twenty are; whoever is let in has logged nothing, and nothing else changes.
  lemma BeginAdmits(a: Admission, op: nat)
    requires op !in a.ops
    ensures Begin(a, op).Some? <==> !a.committing && |a.lh| + 10 * |a.ops| <= 20
    ensures Begin(a, op).Some? ==>
              var b := Begin(a, op).value;
              b.lh == a.lh && !b.committing && b.ops.Keys == a.ops.Keys + {op} && b.ops[op] == {} && forall o | o in a.ops :: b.ops[o] == a.ops[o]
  {
  }

  // Between the operations of a group the log is empty.
  ghost predicate Emptied(a: Admission) { a.ops == map[] && !a.committing ==> a.lh == [] }

  lemma {:induction false} RunKeepsEmptied(a: Admission, steps: seq<Action>, limit: nat)
    requires limit <= MAXOPBLOCKS && Emptied(a) && Run(a, steps, limit)
    ensures Outcome(a, steps, limit).Some? ==> Emptied(Outcome(a, steps, limit).value)
    decreases |steps|
  {
    if steps != [] && Step(a, steps[0]).Some? {
      StepKeepsEmptied(a, steps[0]);
      RunKeepsEmptied(Step(a, steps[0]).value, steps[1..], limit);
    }
  }

  lemma StepKeepsEmptied(a: Admission, s: Action)
    requires Emptied(a) && Allowed(a, s, MAXOPBLOCKS) && Step(a, s).Some?
    ensures Emptied(Step(a, s).value)
  {
    match s
    case EndOp(op) => LastEnds(a, op);
    case Write(op, bn) => assert op in Step(a, s).value.ops;
    case BeginOp(op) => assert Begin(a, op).Some? ==> op in Step(a, s).value.ops;
    case FinishCommit =>
  }

  lemma LastEnds(a: Admission, op: nat)
    requires op in a.ops && !a.committing
    ensures End(a, op).value.committing <==> End(a, op).value.ops == map[]
    ensures |End(a, op).value.ops| == |a.ops| - 1
  {
    var rest := a.ops - {op};
    assert rest.Keys == a.ops.Keys - {op};
    assert |rest| == |a.ops| - 1 && (rest == map[] <==> |rest| == 0);
  }

  // Nobody waits in begin_op for ever: once the running operations have ended and their commit
  // is done, whoever waits is let in.
  lemma {:induction false} CanBegin(a: Admission, op: nat, limit: nat) returns (steps: seq<Action>)
    requires limit <= MAXOPBLOCKS && Sound(a, limit) && Emptied(a) && op !in a.ops
    ensures (forall i | 0 <= i < |steps| :: !steps[i].Write? && (steps[i].BeginOp? ==> i == |steps| - 1 && steps[i] == BeginOp(op)))
    ensures Run(a, steps, limit) && Outcome(a, steps, limit).Some? && op in Outcome(a, steps, limit).value.ops
    decreases |a.ops|, a.committing
  {
    hide Unused, Begin;
    var first, rest: seq<Action>;
    if a.committing {
      first := FinishCommit;
      rest := CanBegin(Committed(a), op, limit);
    } else if a.ops == map[] {
      first := BeginOp(op);
      rest := [];
      BeginAdmits(a, op);
      assert Outcome(Begin(a, op).value, rest, limit) == Some(Begin(a, op).value);
    } else {
      var o :| o in a.ops;
      first := EndOp(o);
      EndKeepsSound(a, o, limit);
      LastEnds(a, o);
      rest := CanBegin(End(a, o).value, op, limit);
    }
    steps := [first] + rest;
    assert steps[1..] == rest;
  }

  // Operations 0, 1 and 2 are running and have logged blocks 0 .. n - 1, ten each, in order.
  ghost predicate Filling(a: Admission, n: nat) {
    && |a.lh| == n && (forall i | 0 <= i < n :: a.lh[i] == i)
    && !a.committing && a.ops.Keys == {0, 1, 2}
    && (forall k, b | k in a.ops && b in a.ops[k] :: b < n)
    && (forall k | k in a.ops :: |a.ops[k]| == Share(n, k))
    && (n > 0 ==> 0 in a.ops[0])
  }

  function Share(n: nat, k: nat): nat {
    if n <= 10 * k then 0 else if n <= 10 * k + 10 then n - 10 * k else 10
  }

  // They log the remaining blocks up to 29; then the last steps follow.
  ghost function FillUp(n: nat, last: seq<Action>): seq<Action>
    requires n <= LOGBLOCKS
    decreases LOGBLOCKS - n
  {
    if n == LOGBLOCKS then last else [Write(n / 10, n)] + FillUp(n + 1, last)
  }

  lemma Shares(n: nat, k: nat, j: nat)
    requires 10 * k <= n < 10 * k + 10
    ensures Share(n + 1, j) == Share(n, j) + (if j == k then 1 else 0)
    ensures Share(n, k) < 10
  {
  }

  lemma FillingStep(a: Admission, n: nat, k: nat)
    requires Filling(a, n) && k < 3 && 10 * k <= n < 10 * k + 10
    ensures Allowed(a, Write(k, n), MAXOPBLOCKS)
    ensures n < LOGBLOCKS && Step(a, Write(k, n)).Some? && Filling(Step(a, Write(k, n)).value, n + 1)
  {
    hide Share;
    OneMore(a.ops[k], n);
    assert n !in a.lh && |a.ops| == 3 by { assert |a.ops| == |a.ops.Keys|; }
    var b := Admission(a.lh + [n], a.ops[k := a.ops[k] + {n}], false);
    Shares(n, k, k);
    assert Step(a, Write(k, n)) == Some(b);
    FillingOn(a, n, k, b);
  }

  lemma FillingOn(a: Admission, n: nat, k: nat, b: Admission)
    requires Filling(a, n) && k < 3 && 10 * k <= n < 10 * k + 10 && |a.ops[k] + {n}| == |a.ops[k]| + 1
    requires b == Admission(a.lh + [n], a.ops[k := a.ops[k] + {n}], false)
    ensures Filling(b, n + 1)
  {
    hide Share;
    assert b.ops.Keys == a.ops.Keys;
    forall j | j in b.ops ensures |b.ops[j]| == Share(n + 1, j) { Shares(n, k, j); }
  }

  lemma {:induction false} FillsTheLog(a: Admission, n: nat, last: seq<Action>) returns (full: Admission)
    requires n <= LOGBLOCKS && Filling(a, n)
    ensures Filling(full, LOGBLOCKS)
    ensures Run(full, last, MAXOPBLOCKS) ==>
              (Run(a, FillUp(n, last), MAXOPBLOCKS) && Outcome(a, FillUp(n, last), MAXOPBLOCKS) == Outcome(full, last, MAXOPBLOCKS))
    decreases LOGBLOCKS - n
  {
    hide Run, Outcome, Step, Filling, Allowed;
    if n == LOGBLOCKS {
      full := a;
    } else {
      FillingStep(a, n, n / 10);
      full := FillsTheLog(Step(a, Write(n / 10, n)).value, n + 1, last);
      StepFirst(a, Write(n / 10, n), FillUp(n + 1, last));
    }
  }

  // From an empty log: the three operations begin, and fill it.
  lemma FillsFromEmpty(last: seq<Action>) returns (steps: seq<Action>, full: Admission)
    ensures Filling(full, LOGBLOCKS)
    ensures var a := Admission([], map[], false);
            Run(full, last, MAXOPBLOCKS) ==>
              (Run(a, steps, MAXOPBLOCKS) && Outcome(a, steps, MAXOPBLOCKS) == Outcome(full, last, MAXOPBLOCKS))
  {
    hide Run, Outcome, FillUp;
    var a := Admission([], map[], false);
    var b := Started(a, 0);
    var c := Started(b, 1);
    var d := Started(c, 2);
    full := FillsTheLog(d, 0, last);
    StepFirst(c, BeginOp(2), FillUp(0, last));
    StepFirst(b, BeginOp(1), [BeginOp(2)] + FillUp(0, last));
    StepFirst(a, BeginOp(0), [BeginOp(1)] + ([BeginOp(2)] + FillUp(0, last)));
    steps := [BeginOp(0)] + ([BeginOp(1)] + ([BeginOp(2)] + FillUp(0, last)));
  }

  lemma Started(a: Admission, op: nat) returns (b: Admission)
    requires op !in a.ops && |a.ops| < 3 && a.lh == [] && !a.committing
    ensures Step(a, BeginOp(op)) == Some(b)
    ensures |b.ops| == |a.ops| + 1 && b == a.(ops := b.ops) && b.ops == a.ops[op := {}]
  {
    b := a.(ops := a.ops[op := {}]);
    assert b.ops.Keys == a.ops.Keys + {op};
  }

  lemma StepFirst(a: Admission, s: Action, rest: seq<Action>)
    requires Allowed(a, s, MAXOPBLOCKS) && Step(a, s).Some?
    ensures var b := Step(a, s).value;
            Run(b, rest, MAXOPBLOCKS) ==> Run(a, [s] + rest, MAXOPBLOCKS) && Outcome(a, [s] + rest, MAXOPBLOCKS) == Outcome(b, rest, MAXOPBLOCKS)
  {
    assert ([s] + rest)[1..] == rest;
  }

  // With the full ten blocks each, the bound does not rule out the panic: a run in
  // which three operations log ten blocks each, and one of them then logs again a block
  // the log already holds, ends in "too big a transaction". The test for a full log
  // comes before the search for the block.
  lemma AbsorbedWriteCanPanic()
    ensures exists steps :: Run(Admission([], map[], false), steps, MAXOPBLOCKS) && Outcome(Admission([], map[], false), steps, MAXOPBLOCKS).None?
  {
    var steps, full := FillsFromEmpty([Write(0, 0)]);
    OneMore(full.ops[0], 0);
  }

  // And if instead the three end, the log that is committed is full.
  lemma FullLogIsCommitted() returns (steps: seq<Action>, full: Admission)
    ensures Run(Admission([], map[], false), steps, MAXOPBLOCKS)
    ensures Outcome(Admission([], map[], false), steps, MAXOPBLOCKS) == Some(full)
    ensures full.committing && full.ops == map[] && |full.lh| == LOGBLOCKS
    ensures forall i, j | 0 <= i < j < |full.lh| :: full.lh[i] != full.lh[j]
  {
    hide Run, Outcome;
    var ends := [EndOp(0)] + ([EndOp(1)] + ([EndOp(2)] + []));
    var s, a := FillsFromEmpty(ends);
    var b := Ended(a, 0, {1, 2});
    var c := Ended(b, 1, {2});
    full := Ended(c, 2, {});
    RunNothing(full);
    StepFirst(c, EndOp(2), []);
    StepFirst(b, EndOp(1), [EndOp(2)] + []);
    StepFirst(a, EndOp(0), [EndOp(1)] + ([EndOp(2)] + []));
    steps := s;
  }

  lemma RunNothing(a: Admission)
    ensures Run(a, [], MAXOPBLOCKS) && Outcome(a, [], MAXOPBLOCKS) == Some(a)
  {
  }

  lemma Ended(a: Admission, op: nat, rest: set<nat>) returns (b: Admission)
    requires op !in rest && a.ops.Keys == rest + {op} && !a.committing
    ensures Allowed(a, EndOp(op), MAXOPBLOCKS) && Step(a, EndOp(op)) == Some(b)
    ensures b.ops.Keys == rest && b.lh == a.lh && (b.committing <==> rest == {})
  {
    assert |a.ops| == |a.ops.Keys| == |rest| + 1;
    b := End(a, op).value;
    assert b.ops.Keys == rest;
  }
}
