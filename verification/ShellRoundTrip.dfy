// Which trees the parser of user/sh.c can build, and that each is read back from the line
// it is written as.

module ShellRoundTrip {
  import opened ShellGrammar
  import opened ShellLexer

  predicate IsText(w: string) { Spellable(Word(w)) }

  // Every argument and every file name of the tree is a word.
  predicate Spelt(t: Tree) {
    match t
    case Exec(argv) => forall i | 0 <= i < |argv| :: IsText(argv[i])
    case Redir(c, file, _) => Spelt(c) && IsText(file)
    case Pipe(l, r) => Spelt(l) && Spelt(r)
    case List(l, r) => Spelt(l) && Spelt(r)
    case Back(c) => Spelt(c)
  }

  predicate Fit(t: Tree) { FewArgs(t) && Spelt(t) }

  ghost predicate AllSpellable(ts: seq<Token>) { forall i | 0 <= i < |ts| :: Spellable(ts[i]) }

  // What a parse of these tokens gives: a fitting tree, and tokens that were there.
  ghost predicate Good(ts: seq<Token>, p: Parsed) {
    AllSpellable(ts) && p.Done? ==> Fit(p.tree) && AllSpellable(p.rest)
  }

  ghost predicate Files(reds: seq<Target>) { forall i | 0 <= i < |reds| :: IsText(reds[i].file) }

  lemma {:induction false} WrapIsFit(t: Tree, reds: seq<Target>)
    requires Fit(t) && Files(reds)
    ensures Fit(Wrap(t, reds))
    decreases |reds|
  {
    if reds != [] { WrapIsFit(Redir(t, reds[0].file, reds[0].mode), reds[1..]); }
  }

  lemma {:induction false} RedirsGood(t: Tree, ts: seq<Token>)
    requires Fit(t)
    ensures Good(ts, Redirs(t, ts))
    decreases |ts|
  {
    if AllSpellable(ts) && StartsRedir(ts) && |ts| >= 2 && ts[1].Word? {
      assert Spellable(ts[1]);
      RedirsGood(Redir(t, ts[1].text, ModeOf(ts[0].c)), ts[2..]);
    }
  }

  lemma {:induction false} SimpleGood(args: seq<string>, reds: seq<Target>, ts: seq<Token>)
    requires Fit(Exec(args)) && Files(reds)
    ensures Good(ts, Simple(args, reds, ts))
    decreases |ts|
  {
    hide Spellable;
    if AllSpellable(ts) {
      if StopsExec(ts) {
        WrapIsFit(Exec(args), reds);
      } else if StartsRedir(ts) {
        if |ts| >= 2 && ts[1].Word? {
          assert Spellable(ts[1]);
          SimpleGood(args, reds + [Target(ts[1].text, ModeOf(ts[0].c))], ts[2..]);
        }
      } else if ts[0].Word? && |args| + 1 < MAXARGS {
        assert Spellable(ts[0]);
        SimpleGood(args + [ts[0].text], reds, ts[1..]);
      }
    }
  }

  lemma {:induction false} ExecGood(ts: seq<Token>)
    ensures Good(ts, ParseExec(ts))
    decreases |ts|, 0
  {
    hide Spellable, Simple, Redirs, Fit;
    if Starts(ts, '(') {
      LineGood(ts[1..]);
      var inner := ParseLine(ts[1..]);
      if inner.Done? && Fit(inner.tree) && Starts(inner.rest, ')') { RedirsGood(inner.tree, inner.rest[1..]); }
    } else {
      EmptyIsFit();
      SimpleGood([], [], ts);
    }
  }

  lemma EmptyIsFit()
    ensures Fit(Exec([]))
  {
  }

  lemma {:induction false} PipeGood(ts: seq<Token>)
    ensures Good(ts, ParsePipe(ts))
    decreases |ts|, 1
  {
    hide Spellable, ParseExec;
    ExecGood(ts);
    var left := ParseExec(ts);
    if left.Done? && Starts(left.rest, '|') { PipeGood(left.rest[1..]); }
  }

  lemma {:induction false} BacksGood(t: Tree, ts: seq<Token>)
    requires Fit(t)
    ensures Good(ts, Backs(t, ts))
    decreases |ts|
  {
    hide Spellable;
    if Starts(ts, '&') { BacksGood(Back(t), ts[1..]); }
  }

  lemma {:induction false} LineGood(ts: seq<Token>)
    ensures Good(ts, ParseLine(ts))
    decreases |ts|, 2
  {
    hide Spellable, ParsePipe, Backs;
    PipeGood(ts);
    var pipe := ParsePipe(ts);
    if AllSpellable(ts) && pipe.Done? {
      BacksGood(pipe.tree, pipe.rest);
      var job := Backs(pipe.tree, pipe.rest);
      if Starts(job.rest, ';') { LineGood(job.rest[1..]); }
    }
  }

  lemma TokenSpellable(s: string, i: nat)
    requires i <= |s| && IsLine(s) && Get(s, i).kind != '\0'
    ensures Spellable(TokenOf(s, Get(s, i)))
  {
    hide Skip, WordEnd;
    var l := Get(s, i);
    if l.kind == 'a' {
      forall k | l.q <= k < l.eq ensures WordChar(s[k]) {}
      var w := s[l.q..l.eq];
      forall k | 0 <= k < |w|
        ensures w[k] !in " \t\r\n\U{00000B}<|>&;()" && w[k] != '\0'
      {
        assert w[k] == s[l.q + k];
        WordCharIs(w[k]);
      }
    }
  }

  lemma {:induction false} LineSpellable(s: string, i: nat)
    requires i <= |s| && IsLine(s)
    ensures AllSpellable(Tokens(s, i))
    decreases |s| - i
  {
    hide Get, Spellable, TokenOf;
    var l := Get(s, i);
    if l.kind != '\0' {
      TokenSpellable(s, i);
      LineSpellable(s, l.next);
    }
  }

  lemma {:induction false} WordsSpellable(argv: seq<string>)
    requires forall i | 0 <= i < |argv| :: IsText(argv[i])
    ensures AllSpellable(Words(argv))
  {
    if argv != [] {
      assert IsText(argv[0]);
      WordsSpellable(argv[1..]);
    }
  }

  lemma {:induction false} ExecSpellable(t: Tree)
    requires Spelt(t)
    ensures AllSpellable(WriteExec(t))
    decreases t, if t.Exec? || t.Redir? then 0 else 4
  {
    match t
    case Exec(argv) => WordsSpellable(argv);
    case Redir(c, file, mode) => ExecSpellable(c);
    case _ => LineWritten(t);
  }

  lemma {:induction false} PipeSpellable(t: Tree)
    requires Spelt(t)
    ensures AllSpellable(WritePipe(t))
    decreases t, if t.List? || t.Back? then 5 else 1
  {
    match t
    case Pipe(l, r) =>
      ExecSpellable(l);
      PipeSpellable(r);
    case _ => ExecSpellable(t);
  }

  lemma {:induction false} JobSpellable(t: Tree)
    requires Spelt(t)
    ensures AllSpellable(WriteJob(t))
    decreases t, if t.List? then 6 else 2
  {
    match t
    case Back(c) => JobSpellable(c);
    case _ => PipeSpellable(t);
  }

  lemma {:induction false} LineWritten(t: Tree)
    requires Spelt(t)
    ensures AllSpellable(WriteLine(t))
    decreases t, 3
  {
    match t
    case List(l, r) =>
      JobSpellable(l);
      LineWritten(r);
    case _ => JobSpellable(t);
  }

  // However the tokens of a tree are spaced out, they are parsed to the tree: with or without
  // blanks around symbols, and with the newline that ends a typed line.
  lemma SpacedIsParsed(t: Tree, lead: string, gaps: seq<string>)
    requires Fit(t) && Blank(lead) && Parts(WriteLine(t), gaps)
    ensures var line := lead + Render(WriteLine(t), gaps); IsLine(line) && ParseCommand(Tokens(line, 0)) == Done(t, [])
  {
    hide Spellable, WriteLine, Tokens, ParseCommand, FewArgs, Sticks;
    LineWritten(t);
    RenderIsLine(WriteLine(t), gaps);
    RenderedIsLexed(WriteLine(t), lead, gaps);
    WrittenIsParsed(t);
  }

  function Spaces(n: nat): (gaps: seq<string>)
    ensures |gaps| == n
  {
    seq(n, _ => " ")
  }

  // The line a tree is written as, with a space after each token.
  function Print(t: Tree): string { Render(WriteLine(t), Spaces(|WriteLine(t)|)) }

  lemma PrintedIsParsed(t: Tree)
    requires Fit(t)
    ensures IsLine(Print(t)) && ParseCommand(Tokens(Print(t), 0)) == Done(t, [])
  {
    hide WriteLine, Tokens, ParseCommand, FewArgs, Render;
    SpacedIsParsed(t, "", Spaces(|WriteLine(t)|));
    assert "" + Print(t) == Print(t);
  }

  // < opens for reading, > for writing and >> for appending.
  lemma RedirectionModes(w: string, f: string)
    requires IsText(w) && IsText(f)
    ensures ParseCommand(Tokens(w + "<" + f, 0)) == Done(Redir(Exec([w]), f, Input), [])
    ensures ParseCommand(Tokens(w + ">" + f, 0)) == Done(Redir(Exec([w]), f, Output), [])
    ensures ParseCommand(Tokens(w + ">>" + f, 0)) == Done(Redir(Exec([w]), f, Append), [])
  {
    hide Spellable, Tokens, Render;
    OneRedirection(w, '<', f);
    OneRedirection(w, '>', f);
    OneRedirection(w, '+', f);
    OneParsed(w, '<', f);
    OneParsed(w, '>', f);
    OneParsed(w, '+', f);
  }

  lemma OneParsed(w: string, c: char, f: string)
    requires c in "<>+"
    ensures ParseCommand([Word(w), Op(c), Word(f)]) == Done(Redir(Exec([w]), f, ModeOf(c)), [])
  {
    hide Simple;
    OneSimple(w, c, f);
    var ts, last := [Word(w), Op(c), Word(f)], Done(Redir(Exec([w]), f, ModeOf(c)), []);
    assert ParseExec(ts) == last;
    assert ParsePipe(ts) == last;
    assert ParseLine(ts) == last;
  }

  lemma OneSimple(w: string, c: char, f: string)
    requires c in "<>+"
    ensures Simple([], [], [Word(w), Op(c), Word(f)]) == Done(Redir(Exec([w]), f, ModeOf(c)), [])
  {
    var ts, more, red := [Word(w), Op(c), Word(f)], [Op(c), Word(f)], Target(f, ModeOf(c));
    assert ts[1..] == more && more[2..] == [] && [] + [w] == [w] && [] + [red] == [red] && [red][1..] == [];
    assert Wrap(Exec([w]), [red]) == Wrap(Redir(Exec([w]), f, red.mode), []);
    assert Simple([w], [red], []) == Done(Redir(Exec([w]), f, red.mode), []);
    assert StartsRedir(more) && !StopsExec(more) && |more| >= 2 && more[1] == Word(f);
    assert Simple([w], [], more) == Simple([w], [red], []);
    assert !StopsExec(ts) && !StartsRedir(ts) && ts[0] == Word(w);
  }

  lemma OneRedirection(w: string, c: char, f: string)
    requires IsText(w) && IsText(f) && c in "<>+"
    ensures Tokens(w + (if c == '+' then ">>" else [c]) + f, 0) == [Word(w), Op(c), Word(f)]
  {
    hide Tokens, ParseCommand;
    var ts, gaps := [Word(w), Op(c), Word(f)], ["", "", ""];
    assert Spellable(ts[0]) && Spellable(ts[1]) && Spellable(ts[2]);
    assert Render(ts[2..], gaps[2..]) == f by { assert Render(ts[2..][1..], gaps[2..][1..]) == ""; }
    assert ts[1..][1..] == ts[2..] && gaps[1..][1..] == gaps[2..];
    assert Render(ts[1..], gaps[1..]) == Spell(Op(c)) + "" + f;
    assert "" + Render(ts, gaps) == w + Spell(Op(c)) + f;
    RenderedIsLexed(ts, "", gaps);
  }

  // The parser builds exactly the trees with at most nine words to a command, all of them
  // words of the lexer.
  lemma BuildsExactlyTheFit(t: Tree)
    ensures (exists s :: IsLine(s) && ParseCommand(Tokens(s, 0)) == Done(t, [])) <==> Fit(t)
  {
    hide Fit, Tokens;
    if Fit(t) {
      PrintedIsParsed(t);
    }
    forall s | IsLine(s) && ParseCommand(Tokens(s, 0)) == Done(t, [])
      ensures Fit(t)
    {
      LineSpellable(s, 0);
      LineGood(Tokens(s, 0));
    }
  }

  // Different trees are written differently.
  lemma PrintIsInjective(t: Tree, u: Tree)
    requires Fit(t) && Fit(u) && Print(t) == Print(u)
    ensures t == u
  {
    PrintedIsParsed(t);
    PrintedIsParsed(u);
  }
}
