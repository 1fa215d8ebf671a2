// The parser of user/sh.c: a recursive descent over positions of the command line, and
// nulterminate, which makes the words C strings in place.

module Shell {
  import opened ShellGrammar
  import opened ShellLexer

  // A command as the parser builds it: words are still places in the line.
  datatype Redirection = Redirection(file: Span, mode: Mode)

  datatype Cmd =
    | ExecCmd(argv: seq<Span>)
    | RedirCmd(cmd: Cmd, to: Redirection)
    | PipeCmd(left: Cmd, right: Cmd)
    | ListCmd(first: Cmd, rest: Cmd)
    | BackCmd(job: Cmd)

  // panic, or a command and where the parser stands.
  datatype Outcome = Failed | Built(cmd: Cmd, at: nat)

  ghost predicate AllWords(s: string, ws: seq<Span>) { forall i | 0 <= i < |ws| :: IsWord(s, ws[i]) }

  ghost predicate Places(s: string, rs: seq<Redirection>) { forall i | 0 <= i < |rs| :: IsWord(s, rs[i].file) }

  // All places in the command are words of the line.
  ghost predicate Sound(s: string, c: Cmd) {
    match c
    case ExecCmd(argv) => AllWords(s, argv)
    case RedirCmd(d, to) => Sound(s, d) && IsWord(s, to.file)
    case PipeCmd(l, r) => Sound(s, l) && Sound(s, r)
    case ListCmd(l, r) => Sound(s, l) && Sound(s, r)
    case BackCmd(d) => Sound(s, d)
  }

  // The command with its words read off the line.
  ghost function Texts(s: string, ws: seq<Span>): (r: seq<string>)
    requires AllWords(s, ws)
    ensures |r| == |ws|
  {
    seq(|ws|, i requires 0 <= i < |ws| => Text(s, ws[i]))
  }

  ghost function TargetsAt(s: string, rs: seq<Redirection>): (r: seq<Target>)
    requires Places(s, rs)
    ensures |r| == |rs|
  {
    seq(|rs|, i requires 0 <= i < |rs| => Target(Text(s, rs[i].file), rs[i].mode))
  }

  ghost function TreeOf(s: string, c: Cmd): Tree
    requires Sound(s, c)
  {
    match c
    case ExecCmd(argv) => Exec(Texts(s, argv))
    case RedirCmd(d, to) => Redir(TreeOf(s, d), Text(s, to.file), to.mode)
    case PipeCmd(l, r) => Pipe(TreeOf(s, l), TreeOf(s, r))
    case ListCmd(l, r) => List(TreeOf(s, l), TreeOf(s, r))
    case BackCmd(d) => Back(TreeOf(s, d))
  }

  // o is what the parser should make of the tokens from i on, when it should make p.
  ghost predicate Agrees(s: string, i: nat, o: Outcome, p: Parsed) {
    && (o.Failed? <==> p.Panic?)
    && (o.Built? ==> i <= o.at <= |s| && Sound(s, o.cmd) && p.Done? && p.tree == TreeOf(s, o.cmd) && p.rest == Tokens(s, o.at))
  }

  // Putting redirections around a command.
  function WrapCmd(c: Cmd, rs: seq<Redirection>): Cmd
    decreases |rs|
  {
    if rs == [] then c else WrapCmd(RedirCmd(c, rs[0]), rs[1..])
  }

  lemma {:induction false} WrapIsSound(s: string, c: Cmd, rs: seq<Redirection>)
    requires Sound(s, c) && Places(s, rs)
    ensures Sound(s, WrapCmd(c, rs)) && TreeOf(s, WrapCmd(c, rs)) == Wrap(TreeOf(s, c), TargetsAt(s, rs))
    decreases |rs|
  {
    if rs != [] {
      WrapIsSound(s, RedirCmd(c, rs[0]), rs[1..]);
      assert TargetsAt(s, rs)[1..] == TargetsAt(s, rs[1..]);
    }
  }

  // The redirections that come next.
  datatype Taken = Bad | Took(reds: seq<Target>, rest: seq<Token>)

  function Take(acc: seq<Target>, ts: seq<Token>): Taken
    decreases |ts|
  {
    if !StartsRedir(ts) then Took(acc, ts)
    else if |ts| < 2 || !ts[1].Word? then Bad
    else Take(acc + [Target(ts[1].text, ModeOf(ts[0].c))], ts[2..])
  }

  lemma {:induction false} RedirsTake(t: Tree, acc: seq<Target>, ts: seq<Token>)
    ensures Redirs(Wrap(t, acc), ts) == match Take(acc, ts) case Bad => Panic case Took(r, rest) => Done(Wrap(t, r), rest)
    ensures Take(acc, ts).Took? ==> !StartsRedir(Take(acc, ts).rest)
    decreases |ts|
  {
    if StartsRedir(ts) && |ts| >= 2 && ts[1].Word? {
      var next := Target(ts[1].text, ModeOf(ts[0].c));
      WrapSnoc(t, acc, next);
      RedirsTake(t, acc + [next], ts[2..]);
    }
  }

  lemma {:induction false} SimpleTake(args: seq<string>, acc: seq<Target>, ts: seq<Token>)
    ensures Simple(args, acc, ts) == match Take(acc, ts) case Bad => Panic case Took(r, rest) => Simple(args, r, rest)
    ensures Take(acc, ts).Took? ==> !StartsRedir(Take(acc, ts).rest)
    decreases |ts|
  {
    if StartsRedir(ts) && |ts| >= 2 && ts[1].Word? {
      SimpleTake(args, acc + [Target(ts[1].text, ModeOf(ts[0].c))], ts[2..]);
    }
  }

  // What the redirections from i on come to.
  ghost predicate TakenAt(s: string, i: nat, ok: bool, rs: seq<Redirection>, p: nat)
    requires i <= |s|
  {
    var t := Take([], Tokens(s, i));
    && (ok <==> t.Took?)
    && i <= p <= |s|
    && (ok ==> Places(s, rs) && t.reds == TargetsAt(s, rs) && t.rest == Tokens(s, p))
  }

  // One redirection more.
  lemma TakeOne(s: string, i: nat, rs: seq<Redirection>, p: nat, op: Lexeme, file: Lexeme)
    requires i <= |s| && p <= |s| && Places(s, rs) && Take([], Tokens(s, i)) == Take(TargetsAt(s, rs), Tokens(s, p))
    requires StartsRedir(Tokens(s, p)) && op == Get(s, p) && file == Get(s, op.next)
    ensures p < op.next <= file.next
    ensures file.kind != 'a' ==> Take([], Tokens(s, i)) == Bad
    ensures file.kind == 'a' && IsWord(s, Span(file.q, file.eq)) ==>
              var more := rs + [Redirection(Span(file.q, file.eq), ModeOf(op.kind))];
              Places(s, more) && Take([], Tokens(s, i)) == Take(TargetsAt(s, more), Tokens(s, file.next))
  {
    hide Get, Tokens, IsWord, TargetsAt, Take, Places, StartsRedir;
    var ts := Tokens(s, p);
    GetTakes(s, p);
    GetTakes(s, op.next);
    RedirIsOp(ts);
    TakeIs(TargetsAt(s, rs), ts);
    if |ts| >= 2 {
      assert ts[2..] == ts[1..][1..] && ts[1] == ts[1..][0];
    }
    if file.kind == 'a' && IsWord(s, Span(file.q, file.eq)) {
      TargetsMore(s, rs, Redirection(Span(file.q, file.eq), ModeOf(op.kind)));
    }
  }

  lemma RedirIsOp(ts: seq<Token>)
    requires StartsRedir(ts)
    ensures ts != [] && ts[0].Op?
  {
  }

  lemma TakeIs(acc: seq<Target>, ts: seq<Token>)
    requires StartsRedir(ts)
    ensures Take(acc, ts) == if |ts| < 2 || !ts[1].Word? then Bad else Take(acc + [Target(ts[1].text, ModeOf(ts[0].c))], ts[2..])
  {
  }

  lemma TargetsMore(s: string, rs: seq<Redirection>, r: Redirection)
    requires Places(s, rs) && IsWord(s, r.file)
    ensures Places(s, rs + [r]) && TargetsAt(s, rs + [r]) == TargetsAt(s, rs) + [Target(Text(s, r.file), r.mode)]
  {
    hide IsWord;
  }

  // parseredirs: the redirections to put around the command.
  method ParseRedirs(s: string, i: nat) returns (ok: bool, rs: seq<Redirection>, p: nat)
    requires i <= |s| && IsLine(s)
    ensures TakenAt(s, i, ok, rs, p)
  {
    hide Get, Tokens, IsWord, TargetsAt;
    rs, p := [], i;
    assert TargetsAt(s, rs) == [];
    var found: bool;
    found, p := Peek(s, p, "<>");
    while found
      invariant i <= p <= |s| && Places(s, rs) && Take([], Tokens(s, i)) == Take(TargetsAt(s, rs), Tokens(s, p))
      invariant found <==> StartsRedir(Tokens(s, p))
      decreases |s| - p
    {
      var op := GetToken(s, p);
      var file := GetToken(s, op.next);
      TakeOne(s, i, rs, p, op, file);
      if file.kind != 'a' {
        return false, [], p;
      }
      rs := rs + [Redirection(Span(file.q, file.eq), ModeOf(op.kind))];
      found, p := Peek(s, file.next, "<>");
    }
    ok := true;
  }

  lemma {:induction false} TakeAfter(before: seq<Target>, acc: seq<Target>, ts: seq<Token>)
    ensures Take(before + acc, ts) == match Take(acc, ts) case Bad => Bad case Took(r, rest) => Took(before + r, rest)
    decreases |ts|
  {
    if StartsRedir(ts) && |ts| >= 2 && ts[1].Word? {
      var next := Target(ts[1].text, ModeOf(ts[0].c));
      assert (before + acc) + [next] == before + (acc + [next]);
      TakeAfter(before, acc + [next], ts[2..]);
    }
  }

  // parseexec has come to p with these arguments and redirections.
  ghost predicate AtArg(s: string, i: nat, argv: seq<Span>, rs: seq<Redirection>, p: nat)
    requires i <= |s|
  {
    && i <= p <= |s| && AllWords(s, argv) && Places(s, rs) && |argv| < MAXARGS && !StartsRedir(Tokens(s, p))
    && Simple([], [], Tokens(s, i)) == Simple(Texts(s, argv), TargetsAt(s, rs), Tokens(s, p))
  }

  lemma ArgStart(s: string, i: nat, ok: bool, rs: seq<Redirection>, p: nat)
    requires i <= |s| && TakenAt(s, i, ok, rs, p)
    ensures if ok then AtArg(s, i, [], rs, p) else Simple([], [], Tokens(s, i)) == Panic
  {
    hide Simple, Take, Tokens, IsWord, TargetsAt, Text;
    SimpleTake([], [], Tokens(s, i));
    assert Texts(s, []) == [];
  }

  // One word more, and the redirections after it.
  lemma ArgStep(s: string, i: nat, argv: seq<Span>, rs: seq<Redirection>, p: nat, l: Lexeme)
    requires i <= |s| && AtArg(s, i, argv, rs, p) && !StopsExec(Tokens(s, p)) && l == Get(s, p)
    ensures Tokens(s, p) != [] && p < l.next
    ensures l.kind != 'a' || |argv| + 1 >= MAXARGS ==> Simple([], [], Tokens(s, i)) == Panic
    ensures l.kind == 'a' && IsWord(s, Span(l.q, l.eq)) && |argv| + 1 < MAXARGS ==>
              Simple([], [], Tokens(s, i)) == Simple(Texts(s, argv + [Span(l.q, l.eq)]), TargetsAt(s, rs), Tokens(s, l.next))
  {
    hide Get, Tokens, TargetsAt, IsWord, Text;
    GetTakes(s, p);
    if l.kind == 'a' && IsWord(s, Span(l.q, l.eq)) {
      assert Texts(s, argv + [Span(l.q, l.eq)]) == Texts(s, argv) + [Text(s, Span(l.q, l.eq))];
      TokenIsText(s, l);
    }
  }

  lemma TokenIsText(s: string, l: Lexeme)
    requires l.q <= l.eq <= |s| && l.kind == 'a'
    ensures TokenOf(s, l) == Word(Text(s, Span(l.q, l.eq)))
  {
  }

  lemma ArgNext(s: string, i: nat, argv: seq<Span>, rs: seq<Redirection>, q: nat, ok: bool, more: seq<Redirection>, p: nat)
    requires i <= q <= |s| && TakenAt(s, q, ok, more, p) && AllWords(s, argv) && Places(s, rs) && |argv| < MAXARGS
    requires Simple([], [], Tokens(s, i)) == Simple(Texts(s, argv), TargetsAt(s, rs), Tokens(s, q))
    ensures if ok then AtArg(s, i, argv, rs + more, p) else Simple([], [], Tokens(s, i)) == Panic
  {
    hide Simple, Take, Tokens, IsWord, Text, Texts;
    var ts := Tokens(s, q);
    SimpleTake(Texts(s, argv), TargetsAt(s, rs), ts);
    assert TargetsAt(s, rs) + [] == TargetsAt(s, rs);
    TakeAfter(TargetsAt(s, rs), [], ts);
    if ok { assert TargetsAt(s, rs + more) == TargetsAt(s, rs) + TargetsAt(s, more); }
  }

  lemma ArgStop(s: string, i: nat, argv: seq<Span>, rs: seq<Redirection>, p: nat)
    requires i <= |s| && AtArg(s, i, argv, rs, p) && StopsExec(Tokens(s, p)) && !Starts(Tokens(s, i), '(')
    ensures Agrees(s, i, Built(WrapCmd(ExecCmd(argv), rs), p), ParseExec(Tokens(s, i)))
  {
    hide Tokens, IsWord, Text, Texts, TargetsAt, WrapCmd, Wrap;
    WrapIsSound(s, ExecCmd(argv), rs);
  }

  // parseexec, but for the parenthesis
  method BuildSimple(s: string, i: nat) returns (o: Outcome)
    requires i <= |s| && IsLine(s) && !Starts(Tokens(s, i), '(')
    ensures Agrees(s, i, o, ParseExec(Tokens(s, i)))
    decreases |s| - i
  {
    hide Get, Tokens, IsWord, Texts, TargetsAt, Simple, WrapCmd, TakenAt, Starts, StopsExec, AtArg, Sound;
    var argv: seq<Span> := [];
    var ok, rs, p := ParseRedirs(s, i);
    ArgStart(s, i, ok, rs, p);
    if !ok { return Failed; }
    var found: bool;
    AtBounds(s, i, argv, rs, p);
    found, p := PeekStop(s, i, argv, rs, p);
    while !found
      invariant p <= |s| && AtArg(s, i, argv, rs, p) && (found <==> StopsExec(Tokens(s, p)))
      decreases |s| - p
    {
      var l := GetToken(s, p);
      ArgStep(s, i, argv, rs, p, l);
      AtBounds(s, i, argv, rs, p);
      if l.kind != 'a' { return Failed; }
      argv := argv + [Span(l.q, l.eq)];
      if |argv| >= MAXARGS { return Failed; }
      var more;
      var q := l.next;
      ok, more, p := ParseRedirs(s, q);
      ArgNext(s, i, argv, rs, q, ok, more, p);
      if !ok { return Failed; }
      rs := rs + more;
      TakenBounds(s, q, ok, more, p);
      found, p := PeekStop(s, i, argv, rs, p);
    }
    ArgStop(s, i, argv, rs, p);
    o := Built(WrapCmd(ExecCmd(argv), rs), p);
  }

  lemma AtBounds(s: string, i: nat, argv: seq<Span>, rs: seq<Redirection>, p: nat)
    requires i <= |s| && AtArg(s, i, argv, rs, p)
    ensures i <= p <= |s| && AllWords(s, argv) && Places(s, rs) && |argv| < MAXARGS
  {
  }

  lemma TakenBounds(s: string, q: nat, ok: bool, rs: seq<Redirection>, p: nat)
    requires q <= |s| && TakenAt(s, q, ok, rs, p)
    ensures q <= p <= |s|
  {
  }

  // The test of parseexec's loop, with its first break.
  method PeekStop(s: string, ghost i: nat, ghost argv: seq<Span>, ghost rs: seq<Redirection>, p: nat) returns (found: bool, q: nat)
    requires IsLine(s) && i <= |s| && p <= |s| && AtArg(s, i, argv, rs, p)
    ensures p <= q <= |s| && AtArg(s, i, argv, rs, q) && (found <==> StopsExec(Tokens(s, q)))
  {
    hide Tokens, IsWord, Texts, TargetsAt, Simple, StartsRedir, Get;
    found, q := Peek(s, p, "|)&;");
    if !found {
      var l := GetToken(s, q);
      GetTakes(s, q);
      found := l.kind == '\0';
    }
  }

  // An operator at p is taken off.
  lemma TakesOp(s: string, p: nat, c: char)
    requires p <= |s| && Starts(Tokens(s, p), c)
    ensures p < Get(s, p).next <= |s| && Tokens(s, p)[1..] == Tokens(s, Get(s, p).next)
  {
    hide Get, Tokens;
    GetTakes(s, p);
  }

  lemma BlockMakes(s: string, p: nat, q: nat, inner: Outcome, close: nat, after: nat, ok: bool, rs: seq<Redirection>, at: nat)
    requires p < q <= |s| && Starts(Tokens(s, p), '(') && Tokens(s, p)[1..] == Tokens(s, q)
    requires inner.Built? && Agrees(s, q, inner, ParseLine(Tokens(s, q)))
    requires inner.at <= close < after <= |s| && Tokens(s, close) == Tokens(s, inner.at) && Starts(Tokens(s, close), ')')
    requires Tokens(s, close)[1..] == Tokens(s, after) && TakenAt(s, after, ok, rs, at)
    ensures Agrees(s, p, if ok then Built(WrapCmd(inner.cmd, rs), at) else Failed, ParseExec(Tokens(s, p)))
  {
    hide Tokens, IsWord, Text, Texts, TargetsAt, WrapCmd, Redirs, ParseLine, Take, Sound, TreeOf, Simple;
    RedirsTake(TreeOf(s, inner.cmd), [], Tokens(s, after));
    if ok { WrapIsSound(s, inner.cmd, rs); }
  }

  // parseblock
  method BuildBlock(s: string, i: nat) returns (o: Outcome)
    requires i <= |s| && IsLine(s) && Starts(Tokens(s, i), '(')
    ensures Agrees(s, i, o, ParseExec(Tokens(s, i)))
    decreases |s| - i, 0
  {
    hide Get, Tokens, Sound, TreeOf, Simple, Redirs, WrapCmd, TakenAt, ParseLine;
    var open, p := Peek(s, i, "(");
    var l := GetToken(s, p);
    TakesOp(s, p, '(');
    var inner := BuildLine(s, l.next);
    if inner.Failed? { return Failed; }
    var found, q := Peek(s, inner.at, ")");
    if !found { return Failed; }
    var close := GetToken(s, q);
    TakesOp(s, q, ')');
    var ok, rs, at := ParseRedirs(s, close.next);
    BlockMakes(s, p, l.next, inner, q, close.next, ok, rs, at);
    if !ok { return Failed; }
    o := Built(WrapCmd(inner.cmd, rs), at);
  }

  // parseexec
  method BuildExec(s: string, i: nat) returns (o: Outcome)
    requires i <= |s| && IsLine(s)
    ensures Agrees(s, i, o, ParseExec(Tokens(s, i)))
    decreases |s| - i, 1
  {
    hide Get, Tokens, Sound, TreeOf, ParseExec;
    var found, p := Peek(s, i, "(");
    if found {
      o := BuildBlock(s, p);
    } else {
      o := BuildSimple(s, p);
    }
  }

  // parsepipe
  method BuildPipe(s: string, i: nat) returns (o: Outcome)
    requires i <= |s| && IsLine(s)
    ensures Agrees(s, i, o, ParsePipe(Tokens(s, i)))
    decreases |s| - i, 2
  {
    hide Get, Tokens, ParseExec;
    o := BuildExec(s, i);
    if o.Failed? { return; }
    var found, p := Peek(s, o.at, "|");
    if found {
      var l := GetToken(s, p);
      TakesOp(s, p, '|');
      var right := BuildPipe(s, l.next);
      if right.Failed? { return Failed; }
      o := Built(PipeCmd(o.cmd, right.cmd), right.at);
    } else {
      o := Built(o.cmd, p);
    }
  }

  // parseline
  method BuildLine(s: string, i: nat) returns (o: Outcome)
    requires i <= |s| && IsLine(s)
    ensures Agrees(s, i, o, ParseLine(Tokens(s, i)))
    decreases |s| - i, 3
  {
    hide Get, Tokens, ParsePipe;
    o := BuildPipe(s, i);
    if o.Failed? { return; }
    ghost var pipe := ParsePipe(Tokens(s, i));
    var found, p := Peek(s, o.at, "&");
    var cmd := o.cmd;
    while found
      invariant i <= p <= |s| && Sound(s, cmd) && (found <==> Starts(Tokens(s, p), '&'))
      invariant Backs(pipe.tree, pipe.rest) == Backs(TreeOf(s, cmd), Tokens(s, p))
      decreases |s| - p
    {
      var l := GetToken(s, p);
      TakesOp(s, p, '&');
      cmd := BackCmd(cmd);
      found, p := Peek(s, l.next, "&");
    }
    found, p := Peek(s, p, ";");
    if found {
      var l := GetToken(s, p);
      TakesOp(s, p, ';');
      var more := BuildLine(s, l.next);
      if more.Failed? { return Failed; }
      o := Built(ListCmd(cmd, more.cmd), more.at);
    } else {
      o := Built(cmd, p);
    }
  }

  // Where nulterminate writes NULs.
  ghost function Ends(c: Cmd): set<nat> {
    match c
    case ExecCmd(argv) => set i | 0 <= i < |argv| :: argv[i].eq
    case RedirCmd(d, to) => Ends(d) + {to.file.eq}
    case PipeCmd(l, r) => Ends(l) + Ends(r)
    case ListCmd(l, r) => Ends(l) + Ends(r)
    case BackCmd(d) => Ends(d)
  }

  // nulterminate
  method NulTerminate(c: Cmd, buf: array<char>, ghost s: string)
    requires |s| < buf.Length && Sound(s, c)
    modifies buf
    ensures forall k: nat | k < buf.Length :: buf[k] == if k in Ends(c) then '\0' else old(buf[k])
    decreases c
  {
    match c
    case ExecCmd(argv) =>
      for i := 0 to |argv|
        invariant forall k: nat | k < buf.Length ::
          buf[k] == if k in (set j | 0 <= j < i :: argv[j].eq) then '\0' else old(buf[k])
      {
        assert IsWord(s, argv[i]);
        buf[argv[i].eq] := '\0';
        assert (set j | 0 <= j < i + 1 :: argv[j].eq) == (set j | 0 <= j < i :: argv[j].eq) + {argv[i].eq};
      }
    case RedirCmd(d, to) =>
      NulTerminate(d, buf, s);
      buf[to.file.eq] := '\0';
    case PipeCmd(l, r) =>
      NulTerminate(l, buf, s);
      NulTerminate(r, buf, s);
    case ListCmd(l, r) =>
      NulTerminate(l, buf, s);
      NulTerminate(r, buf, s);
    case BackCmd(d) =>
      NulTerminate(d, buf, s);
  }

  // The C string at position q.
  function CString(b: string, q: nat): string
    requires q <= |b|
    decreases |b| - q
  {
    if q == |b| || b[q] == '\0' then "" else [b[q]] + CString(b, q + 1)
  }

  // The command as runcmd reads it from the buffer.
  ghost function Reads(b: string, c: Cmd): Tree
    requires InRange(|b|, c)
  {
    match c
    case ExecCmd(argv) => Exec(seq(|argv|, i requires 0 <= i < |argv| => CString(b, argv[i].q)))
    case RedirCmd(d, to) => Redir(Reads(b, d), CString(b, to.file.q), to.mode)
    case PipeCmd(l, r) => Pipe(Reads(b, l), Reads(b, r))
    case ListCmd(l, r) => List(Reads(b, l), Reads(b, r))
    case BackCmd(d) => Back(Reads(b, d))
  }

  ghost predicate InRange(n: nat, c: Cmd) {
    match c
    case ExecCmd(argv) => forall i | 0 <= i < |argv| :: argv[i].q <= n
    case RedirCmd(d, to) => InRange(n, d) && to.file.q <= n
    case PipeCmd(l, r) => InRange(n, l) && InRange(n, r)
    case ListCmd(l, r) => InRange(n, l) && InRange(n, r)
    case BackCmd(d) => InRange(n, d)
  }

  // b is the line s with NULs at the ends of words only.
  ghost predicate Terminated(s: string, b: string, ends: set<nat>) {
    && |s| < |b|
    && (forall e | e in ends :: e <= |s| && b[e] == '\0' && (e < |s| ==> !WordChar(s[e])))
    && (forall k: nat | k < |s| && k !in ends :: b[k] == s[k])
  }

  lemma {:induction false} StringAt(s: string, b: string, ends: set<nat>, q: nat, eq: nat)
    requires Terminated(s, b, ends) && q <= eq <= |s| && eq in ends
    requires forall k | q <= k < eq :: WordChar(s[k])
    ensures CString(b, q) == s[q..eq]
    decreases eq - q
  {
    if q < eq {
      assert WordChar(s[q]) && q !in ends;
      StringAt(s, b, ends, q + 1, eq);
      assert s[q..eq] == [s[q]] + s[q + 1..eq];
    }
  }

  // Once the ends of all its words are NUL, a command reads as it was parsed: no word is cut
  // short by the end of another.
  lemma {:induction false} ReadsBack(s: string, b: string, ends: set<nat>, c: Cmd)
    requires Sound(s, c) && Terminated(s, b, ends) && Ends(c) <= ends
    ensures InRange(|b|, c) && Reads(b, c) == TreeOf(s, c)
  {
    match c
    case ExecCmd(argv) =>
      forall i | 0 <= i < |argv|
        ensures argv[i].q <= |b| && CString(b, argv[i].q) == Text(s, argv[i])
      {
        assert IsWord(s, argv[i]) && argv[i].eq in Ends(c);
        StringAt(s, b, ends, argv[i].q, argv[i].eq);
      }
      assert Reads(b, c).argv == Texts(s, argv);
    case RedirCmd(d, to) =>
      ReadsBack(s, b, ends, d);
      StringAt(s, b, ends, to.file.q, to.file.eq);
    case PipeCmd(l, r) =>
      ReadsBack(s, b, ends, l);
      ReadsBack(s, b, ends, r);
    case ListCmd(l, r) =>
      ReadsBack(s, b, ends, l);
      ReadsBack(s, b, ends, r);
    case BackCmd(d) =>
      ReadsBack(s, b, ends, d);
  }

  lemma {:induction false} EndsAreEnds(s: string, c: Cmd)
    requires Sound(s, c)
    ensures forall e | e in Ends(c) :: e <= |s| && (e < |s| ==> !WordChar(s[e]))
  {
    match c
    case ExecCmd(argv) =>
      forall e | e in Ends(c) ensures e <= |s| && (e < |s| ==> !WordChar(s[e])) {
        var i :| 0 <= i < |argv| && argv[i].eq == e;
        assert IsWord(s, argv[i]);
      }
    case RedirCmd(d, to) => EndsAreEnds(s, d);
    case PipeCmd(l, r) => EndsAreEnds(s, l); EndsAreEnds(s, r);
    case ListCmd(l, r) => EndsAreEnds(s, l); EndsAreEnds(s, r);
    case BackCmd(d) => EndsAreEnds(s, d);
  }

  // strlen
  method StrLen(buf: array<char>) returns (n: nat)
    requires '\0' in buf[..]
    ensures n < buf.Length && buf[n] == '\0' && IsLine(buf[..n])
  {
    n := 0;
    while buf[n] != '\0'
      invariant n < buf.Length && IsLine(buf[..n]) && '\0' in buf[n..]
      decreases buf.Length - n
    {
      n := n + 1;
    }
  }

  // parsecmd: panics exactly on the lines that are not commands, and otherwise leaves a
  // buffer from which the command reads as the line was written.
  method ParseCmd(buf: array<char>) returns (r: Outcome, ghost s: string)
    requires '\0' in buf[..]
    modifies buf
    ensures |s| < buf.Length && s == old(buf[..])[..|s|] && IsLine(s) && old(buf[|s|]) == '\0'
    ensures r.Failed? <==> ParseCommand(Tokens(s, 0)).Panic?
    ensures r.Failed? ==> buf[..] == old(buf[..])
    ensures r.Built? ==> InRange(buf.Length, r.cmd) && ParseCommand(Tokens(s, 0)) == Done(Reads(buf[..], r.cmd), [])
  {
    hide Tokens, ParseLine, Sound, TreeOf, Reads, InRange, Ends;
    var n := StrLen(buf);
    var line := buf[..n];
    s := line;
    r := BuildLine(line, 0);
    if r.Failed? { return; }
    var found, p := Peek(line, r.at, "");
    if p != n {
      return Failed, s;
    }
    EndsAreEnds(s, r.cmd);
    NulTerminate(r.cmd, buf, s);
    ReadsBack(s, buf[..], Ends(r.cmd), r.cmd);
  }
}
