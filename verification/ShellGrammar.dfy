// The command language of user/sh.c on tokens: what the parser accepts and the tree it
// builds, and how a tree is written.

module ShellGrammar {
  const MAXARGS := 10

  // A word, or one of < | > & ; ( ), with + for >>
  datatype Token = Word(text: string) | Op(c: char)

  // What a redirection opens: < > >>
  datatype Mode = Input | Output | Append

  datatype Tree =
    | Exec(argv: seq<string>)
    | Redir(cmd: Tree, file: string, mode: Mode)
    | Pipe(left: Tree, right: Tree)
    | List(first: Tree, rest: Tree)
    | Back(job: Tree)

  // panic, or a tree and the tokens that are left.
  datatype Parsed = Panic | Done(tree: Tree, rest: seq<Token>)

  predicate Starts(ts: seq<Token>, c: char) { ts != [] && ts[0] == Op(c) }

  predicate StartsRedir(ts: seq<Token>) { Starts(ts, '<') || Starts(ts, '>') || Starts(ts, '+') }

  function ModeOf(c: char): Mode { if c == '<' then Input else if c == '>' then Output else Append }

  // parseredirs
  function Redirs(t: Tree, ts: seq<Token>): (r: Parsed)
    ensures r.Done? ==> |r.rest| <= |ts|
    decreases |ts|
  {
    if !StartsRedir(ts) then Done(t, ts)
    else if |ts| < 2 || !ts[1].Word? then Panic
    else Redirs(Redir(t, ts[1].text, ModeOf(ts[0].c)), ts[2..])
  }

  // A redirection: the file and how it is opened.
  datatype Target = Target(file: string, mode: Mode)

  // The first redirection is the innermost.
  function Wrap(t: Tree, reds: seq<Target>): Tree
    decreases |reds|
  {
    if reds == [] then t else Wrap(Redir(t, reds[0].file, reds[0].mode), reds[1..])
  }

  predicate StopsExec(ts: seq<Token>) {
    ts == [] || Starts(ts, '|') || Starts(ts, ')') || Starts(ts, '&') || Starts(ts, ';')
  }

  // The rest of parseexec, with these arguments and redirections so far.
  function Simple(args: seq<string>, reds: seq<Target>, ts: seq<Token>): (r: Parsed)
    ensures r.Done? ==> |r.rest| <= |ts|
    decreases |ts|
  {
    if StopsExec(ts) then Done(Wrap(Exec(args), reds), ts)
    else if StartsRedir(ts) then
      if |ts| < 2 || !ts[1].Word? then Panic
      else Simple(args, reds + [Target(ts[1].text, ModeOf(ts[0].c))], ts[2..])
    else if !ts[0].Word? || |args| + 1 >= MAXARGS then Panic
    else Simple(args + [ts[0].text], reds, ts[1..])
  }

  // parseexec, with parseblock
  function ParseExec(ts: seq<Token>): (r: Parsed)
    ensures r.Done? ==> |r.rest| <= |ts|
    decreases |ts|, 0
  {
    if Starts(ts, '(') then
      var inner := ParseLine(ts[1..]);
      if inner.Panic? || !Starts(inner.rest, ')') then Panic else Redirs(inner.tree, inner.rest[1..])
    else Simple([], [], ts)
  }

  // parsepipe
  function ParsePipe(ts: seq<Token>): (r: Parsed)
    ensures r.Done? ==> |r.rest| <= |ts|
    decreases |ts|, 1
  {
    var left := ParseExec(ts);
    if left.Panic? || !Starts(left.rest, '|') then left
    else
      var right := ParsePipe(left.rest[1..]);
      if right.Panic? then Panic else Done(Pipe(left.tree, right.tree), right.rest)
  }

  // parseline's loop over &
  function Backs(t: Tree, ts: seq<Token>): (r: Parsed)
    ensures r.Done? && |r.rest| <= |ts| && !Starts(r.rest, '&')
    decreases |ts|
  {
    if Starts(ts, '&') then Backs(Back(t), ts[1..]) else Done(t, ts)
  }

  // parseline
  function ParseLine(ts: seq<Token>): (r: Parsed)
    ensures r.Done? ==> |r.rest| <= |ts|
    decreases |ts|, 2
  {
    var pipe := ParsePipe(ts);
    if pipe.Panic? then Panic
    else
      var job := Backs(pipe.tree, pipe.rest);
      if !Starts(job.rest, ';') then job
      else
        var more := ParseLine(job.rest[1..]);
        if more.Panic? then Panic else Done(List(job.tree, more.tree), more.rest)
  }

  // parsecmd
  function ParseCommand(ts: seq<Token>): Parsed {
    var line := ParseLine(ts);
    if line.Done? && line.rest != [] then Panic else line
  }

  function OpOf(m: Mode): char { if m.Input? then '<' else if m.Output? then '>' else '+' }

  function Words(argv: seq<string>): seq<Token> {
    if argv == [] then [] else [Word(argv[0])] + Words(argv[1..])
  }

  // Writing a tree: where the grammar wants something smaller, in parentheses.
  function WriteExec(t: Tree): seq<Token>
    decreases t, if t.Exec? || t.Redir? then 0 else 4
  {
    match t
    case Exec(argv) => Words(argv)
    case Redir(c, file, mode) => WriteExec(c) + [Op(OpOf(mode)), Word(file)]
    case _ => [Op('(')] + WriteLine(t) + [Op(')')]
  }

  function WritePipe(t: Tree): seq<Token>
    decreases t, if t.List? || t.Back? then 5 else 1
  {
    match t
    case Pipe(l, r) => WriteExec(l) + [Op('|')] + WritePipe(r)
    case _ => WriteExec(t)
  }

  function WriteJob(t: Tree): seq<Token>
    decreases t, if t.List? then 6 else 2
  {
    match t
    case Back(c) => WriteJob(c) + [Op('&')]
    case _ => WritePipe(t)
  }

  function WriteLine(t: Tree): seq<Token>
    decreases t, 3
  {
    match t
    case List(l, r) => WriteJob(l) + [Op(';')] + WriteLine(r)
    case _ => WriteJob(t)
  }

  // At most nine words in every simple command.
  predicate FewArgs(t: Tree) {
    match t
    case Exec(argv) => |argv| <= 9
    case Redir(c, _, _) => FewArgs(c)
    case Pipe(l, r) => FewArgs(l) && FewArgs(r)
    case List(l, r) => FewArgs(l) && FewArgs(r)
    case Back(c) => FewArgs(c)
  }

  lemma SimpleWord(args: seq<string>, reds: seq<Target>, ts: seq<Token>)
    requires ts != [] && ts[0].Word? && |args| + 1 < MAXARGS
    ensures Simple(args, reds, ts) == Simple(args + [ts[0].text], reds, ts[1..])
  {
  }

  lemma SimpleTarget(args: seq<string>, reds: seq<Target>, ts: seq<Token>)
    requires |ts| >= 2 && StartsRedir(ts) && ts[1].Word?
    ensures Simple(args, reds, ts) == Simple(args, reds + [Target(ts[1].text, ModeOf(ts[0].c))], ts[2..])
  {
  }

  lemma {:induction false} SimpleWords(args: seq<string>, more: seq<string>, rest: seq<Token>)
    requires |args| + |more| < MAXARGS
    ensures Simple(args, [], Words(more) + rest) == Simple(args + more, [], rest)
    decreases |more|
  {
    hide Simple;
    if more == [] {
      assert Words(more) + rest == rest && args + more == args;
    } else {
      var ts := Words(more) + rest;
      assert ts[0] == Word(more[0]) && ts[1..] == Words(more[1..]) + rest;
      SimpleWord(args, [], ts);
      SimpleWords(args + [more[0]], more[1..], rest);
      assert (args + [more[0]]) + more[1..] == args + more;
    }
  }

  // The command under the redirections, and the redirections.
  function Core(t: Tree): Tree { if t.Redir? then Core(t.cmd) else t }

  function Targets(t: Tree): seq<Target> {
    if t.Redir? then Targets(t.cmd) + [Target(t.file, t.mode)] else []
  }

  function WriteTargets(reds: seq<Target>): seq<Token> {
    if reds == [] then [] else [Op(OpOf(reds[0].mode)), Word(reds[0].file)] + WriteTargets(reds[1..])
  }

  lemma {:induction false} WriteTargetsSnoc(reds: seq<Target>, r: Target)
    ensures WriteTargets(reds + [r]) == WriteTargets(reds) + [Op(OpOf(r.mode)), Word(r.file)]
  {
    if reds == [] {
      assert (reds + [r])[1..] == [];
    } else {
      assert (reds + [r])[1..] == reds[1..] + [r];
      WriteTargetsSnoc(reds[1..], r);
    }
  }

  lemma {:induction false} WrapSnoc(t: Tree, reds: seq<Target>, r: Target)
    ensures Wrap(t, reds + [r]) == Redir(Wrap(t, reds), r.file, r.mode)
    decreases |reds|
  {
    if reds == [] {
      assert (reds + [r])[1..] == [];
    } else {
      assert (reds + [r])[1..] == reds[1..] + [r] && (reds + [r])[0] == reds[0];
      WrapSnoc(Redir(t, reds[0].file, reds[0].mode), reds[1..], r);
    }
  }

  lemma {:induction false} Unwrapped(t: Tree)
    ensures Wrap(Core(t), Targets(t)) == t
    ensures WriteExec(t) == WriteExec(Core(t)) + WriteTargets(Targets(t))
  {
    if t.Redir? {
      Unwrapped(t.cmd);
      WrapSnoc(Core(t.cmd), Targets(t.cmd), Target(t.file, t.mode));
      WriteTargetsSnoc(Targets(t.cmd), Target(t.file, t.mode));
      assert WriteExec(Core(t)) + (WriteTargets(Targets(t.cmd)) + [Op(OpOf(t.mode)), Word(t.file)])
          == (WriteExec(Core(t)) + WriteTargets(Targets(t.cmd))) + [Op(OpOf(t.mode)), Word(t.file)];
    } else {
      assert WriteExec(t) + [] == WriteExec(t);
    }
  }

  lemma {:induction false} RedirsTargets(t: Tree, reds: seq<Target>, rest: seq<Token>)
    requires !StartsRedir(rest)
    ensures Redirs(t, WriteTargets(reds) + rest) == Done(Wrap(t, reds), rest)
    decreases |reds|
  {
    if reds == [] {
      assert WriteTargets(reds) + rest == rest;
    } else {
      assert (WriteTargets(reds) + rest)[2..] == WriteTargets(reds[1..]) + rest;
      RedirsTargets(Redir(t, reds[0].file, reds[0].mode), reds[1..], rest);
    }
  }

  lemma SimpleStops(args: seq<string>, reds: seq<Target>, ts: seq<Token>)
    requires StopsExec(ts)
    ensures Simple(args, reds, ts) == Done(Wrap(Exec(args), reds), ts)
  {
  }

  lemma {:induction false} SimpleTargets(args: seq<string>, before: seq<Target>, reds: seq<Target>, rest: seq<Token>)
    requires StopsExec(rest)
    ensures Simple(args, before, WriteTargets(reds) + rest) == Done(Wrap(Exec(args), before + reds), rest)
    decreases |reds|
  {
    hide Simple, StopsExec, Wrap;
    if reds == [] {
      assert WriteTargets(reds) + rest == rest && before + reds == before;
      SimpleStops(args, before, rest);
    } else {
      var ts := WriteTargets(reds) + rest;
      assert ts[0] == Op(OpOf(reds[0].mode)) && ts[1] == Word(reds[0].file) && ts[2..] == WriteTargets(reds[1..]) + rest;
      SimpleTarget(args, before, ts);
      SimpleTargets(args, before + [reds[0]], reds[1..], rest);
      assert (before + [reds[0]]) + reds[1..] == before + reds;
    }
  }

  // A simple command and its redirections.
  lemma SimpleBack(argv: seq<string>, reds: seq<Target>, rest: seq<Token>)
    requires |argv| < MAXARGS && StopsExec(rest)
    ensures ParseExec(Words(argv) + (WriteTargets(reds) + rest)) == Done(Wrap(Exec(argv), reds), rest)
  {
    hide Simple, Wrap, ParseLine, StopsExec;
    var tail := WriteTargets(reds) + rest;
    SimpleWords([], argv, tail);
    assert [] + argv == argv && [] + reds == reds;
    SimpleTargets(argv, [], reds, rest);
    NoParen(argv, reds, rest);
  }

  lemma NoParen(argv: seq<string>, reds: seq<Target>, rest: seq<Token>)
    requires StopsExec(rest)
    ensures !Starts(Words(argv) + (WriteTargets(reds) + rest), '(')
  {
  }

  // A line in parentheses and its redirections.
  lemma BlockBack(c: Tree, line: seq<Token>, reds: seq<Target>, rest: seq<Token>)
    requires StopsExec(rest)
    requires ParseLine(line + ([Op(')')] + (WriteTargets(reds) + rest))) == Done(c, [Op(')')] + (WriteTargets(reds) + rest))
    ensures ParseExec([Op('(')] + line + [Op(')')] + (WriteTargets(reds) + rest)) == Done(Wrap(c, reds), rest)
  {
    hide Simple, Wrap, ParseLine, Redirs, WriteTargets;
    var tail := WriteTargets(reds) + rest;
    var ts := [Op('(')] + line + [Op(')')] + tail;
    assert ts[1..] == line + ([Op(')')] + tail);
    assert ([Op(')')] + tail)[1..] == tail;
    RedirsTargets(c, reds, rest);
  }

  // What is written is read back, whatever follows, as long as it cannot belong to it.
  lemma {:induction false} ExecBack(t: Tree, rest: seq<Token>)
    requires FewArgs(t) && StopsExec(rest)
    ensures ParseExec(WriteExec(t) + rest) == Done(t, rest)
    decreases t, if t.Exec? || t.Redir? then 0 else 4
  {
    hide ParseExec, ParseLine, Wrap, WriteTargets, Targets, Core, StopsExec, WriteLine;
    var c, reds := Core(t), Targets(t);
    Unwrapped(t);
    CoreFewer(t);
    var tail := WriteTargets(reds) + rest;
    assert WriteExec(t) + rest == WriteExec(c) + tail;
    if c.Exec? {
      SimpleBack(c.argv, reds, rest);
    } else {
      LineBack(c, [Op(')')] + tail);
      BlockBack(c, WriteLine(c), reds, rest);
    }
  }

  lemma {:induction false} CoreFewer(t: Tree)
    ensures FewArgs(t) ==> FewArgs(Core(t))
    ensures Core(t) == t || Core(t) < t
    ensures !Core(t).Redir?
    ensures Core(t) == t ==> !t.Redir?
  {
    if t.Redir? { CoreFewer(t.cmd); }
  }

  lemma {:induction false} PipeBack(t: Tree, rest: seq<Token>)
    requires FewArgs(t) && StopsExec(rest) && !Starts(rest, '|')
    ensures ParsePipe(WritePipe(t) + rest) == Done(t, rest)
    decreases t, if t.List? || t.Back? then 5 else 1
  {
    match t
    case Pipe(l, r) =>
      var tail := [Op('|')] + (WritePipe(r) + rest);
      assert WritePipe(t) + rest == WriteExec(l) + tail;
      ExecBack(l, tail);
      assert tail[1..] == WritePipe(r) + rest;
      PipeBack(r, rest);
    case _ =>
      ExecBack(t, rest);
  }

  // parseline up to the semicolon.
  function ParseJob(ts: seq<Token>): Parsed {
    var pipe := ParsePipe(ts);
    if pipe.Panic? then Panic else Backs(pipe.tree, pipe.rest)
  }

  // The jobs of a run of & close over one another.
  function Bare(t: Tree): Tree { if t.Back? then Bare(t.job) else t }

  function Depth(t: Tree): nat { if t.Back? then 1 + Depth(t.job) else 0 }

  function Ands(n: nat): seq<Token> { if n == 0 then [] else [Op('&')] + Ands(n - 1) }

  function Nest(t: Tree, n: nat): Tree
    decreases n
  {
    if n == 0 then t else Nest(Back(t), n - 1)
  }

  lemma {:induction false} NestOut(t: Tree, n: nat)
    ensures Nest(t, n + 1) == Back(Nest(t, n))
    decreases n
  {
    if n > 0 { NestOut(Back(t), n - 1); }
  }

  lemma {:induction false} AndsSnoc(n: nat)
    ensures Ands(n + 1) == Ands(n) + [Op('&')]
  {
    if n > 0 { AndsSnoc(n - 1); }
  }

  lemma {:induction false} Unnested(t: Tree)
    ensures Nest(Bare(t), Depth(t)) == t && !Bare(t).Back? && (Bare(t) == t || Bare(t) < t) && (t.Back? ==> Bare(t) < t)
    ensures WriteJob(t) == WritePipe(Bare(t)) + Ands(Depth(t))
    ensures FewArgs(t) ==> FewArgs(Bare(t))
  {
    if t.Back? {
      Unnested(t.job);
      NestOut(Bare(t), Depth(t.job));
      AndsSnoc(Depth(t.job));
    } else {
      assert WritePipe(t) + [] == WritePipe(t);
    }
  }

  lemma {:induction false} BacksAnds(t: Tree, n: nat, rest: seq<Token>)
    requires !Starts(rest, '&')
    ensures Backs(t, Ands(n) + rest) == Done(Nest(t, n), rest)
    decreases n
  {
    if n == 0 {
      assert Ands(0) + rest == rest;
    } else {
      assert (Ands(n) + rest)[1..] == Ands(n - 1) + rest;
      BacksAnds(Back(t), n - 1, rest);
    }
  }

  lemma {:induction false} JobBack(t: Tree, rest: seq<Token>)
    requires FewArgs(t) && StopsExec(rest) && !Starts(rest, '|') && !Starts(rest, '&')
    ensures ParseJob(WriteJob(t) + rest) == Done(t, rest)
    decreases t, if t.List? then 6 else 2
  {
    Unnested(t);
    var tail := Ands(Depth(t)) + rest;
    assert WriteJob(t) + rest == WritePipe(Bare(t)) + tail;
    assert Depth(t) > 0 ==> tail[0] == Op('&');
    assert Depth(t) == 0 ==> tail == rest;
    PipeBack(Bare(t), tail);
    BacksAnds(Bare(t), Depth(t), rest);
  }

  lemma {:induction false} LineBack(t: Tree, rest: seq<Token>)
    requires FewArgs(t) && (rest == [] || Starts(rest, ')'))
    ensures ParseLine(WriteLine(t) + rest) == Done(t, rest)
    decreases t, 3
  {
    match t
    case List(l, r) =>
      var tail := [Op(';')] + (WriteLine(r) + rest);
      assert WriteLine(t) + rest == WriteJob(l) + tail;
      JobBack(l, tail);
      assert tail[1..] == WriteLine(r) + rest;
      LineBack(r, rest);
    case _ =>
      JobBack(t, rest);
  }

  // Every tree whose commands have at most nine words is what the parser makes of its
  // written form.
  lemma WrittenIsParsed(t: Tree)
    requires FewArgs(t)
    ensures ParseCommand(WriteLine(t)) == Done(t, [])
  {
    assert WriteLine(t) + [] == WriteLine(t);
    LineBack(t, []);
  }
}
