// Tokens of a command line, as gettoken and peek of user/sh.c cut them.

module ShellLexer {
  import opened ShellGrammar

  // strchr(whitespace, c) and strchr(symbols, c), for c not NUL
  predicate White(c: char) { c == ' ' || c == '\t' || c == '\r' || c == '\n' || c == '\U{00000B}' }

  predicate Symbol(c: char) { c == '<' || c == '|' || c == '>' || c == '&' || c == ';' || c == '(' || c == ')' }

  predicate WordChar(c: char) { !White(c) && !Symbol(c) && c != '\0' }

  // A command line: a C string.
  predicate IsLine(s: string) { forall i | 0 <= i < |s| :: s[i] != '\0' }

  function Skip(s: string, i: nat): (j: nat)
    requires i <= |s|
    ensures i <= j <= |s| && (j < |s| ==> !White(s[j])) && forall k | i <= k < j :: White(s[k])
    decreases |s| - i
  {
    if i < |s| && White(s[i]) then Skip(s, i + 1) else i
  }

  function WordEnd(s: string, i: nat): (j: nat)
    requires i <= |s|
    ensures i <= j <= |s| && (j < |s| ==> White(s[j]) || Symbol(s[j]))
    ensures forall k | i <= k < j :: !White(s[k]) && !Symbol(s[k])
    decreases |s| - i
  {
    if i < |s| && !White(s[i]) && !Symbol(s[i]) then WordEnd(s, i + 1) else i
  }

  // What gettoken finds: its result, the token's bounds, and where it leaves the cursor.
  // The result is NUL at the end, a for a word, + for >>, else the symbol.
  datatype Lexeme = Lexeme(kind: char, q: nat, eq: nat, next: nat)

  predicate Doubled(s: string, q: nat)
    requires q < |s|
  {
    s[q] == '>' && q + 1 < |s| && s[q + 1] == '>'
  }

  function EndOf(s: string, q: nat): (eq: nat)
    requires q < |s|
    ensures q < eq <= |s|
  {
    if Doubled(s, q) then q + 2 else if Symbol(s[q]) then q + 1 else WordEnd(s, q + 1)
  }

  function Get(s: string, i: nat): (l: Lexeme)
    requires i <= |s|
    ensures i <= l.q <= l.eq <= l.next <= |s|
    ensures l.kind != '\0' ==> l.q < l.eq
    ensures l.kind == '\0' ==> l.q == |s|
  {
    var q := Skip(s, i);
    if q == |s| then Lexeme('\0', q, q, q)
    else Lexeme(if Doubled(s, q) then '+' else if Symbol(s[q]) then s[q] else 'a', q, EndOf(s, q), Skip(s, EndOf(s, q)))
  }

  function TokenOf(s: string, l: Lexeme): Token
    requires l.q <= l.eq <= |s|
  {
    if l.kind == 'a' then Word(s[l.q..l.eq]) else Op(l.kind)
  }

  // All the tokens from position i on.
  function Tokens(s: string, i: nat): seq<Token>
    requires i <= |s|
    decreases |s| - i
  {
    var l := Get(s, i);
    if l.kind == '\0' then [] else [TokenOf(s, l)] + Tokens(s, l.next)
  }

  lemma {:induction false} SkipTwice(s: string, i: nat)
    requires i <= |s|
    ensures Skip(s, Skip(s, i)) == Skip(s, i)
    decreases |s| - i
  {
    if i < |s| && White(s[i]) { SkipTwice(s, i + 1); }
  }

  lemma GetSkip(s: string, i: nat)
    requires i <= |s|
    ensures Get(s, Skip(s, i)) == Get(s, i)
  {
    hide Skip, WordEnd, White, Symbol;
    SkipTwice(s, i);
  }

  // The cursor may move over white space.
  lemma TokensSkip(s: string, i: nat)
    requires i <= |s|
    ensures Tokens(s, Skip(s, i)) == Tokens(s, i)
  {
    hide Skip, WordEnd, White, Symbol, Get;
    GetSkip(s, i);
  }

  // The character at the cursor tells what the next token is.
  ghost predicate Sees(s: string, q: nat, ts: seq<Token>)
    requires q <= |s|
  {
    && (q == |s| <==> ts == [])
    && (forall c | c in "|&;()" :: (q < |s| && s[q] == c) <==> Starts(ts, c))
    && ((q < |s| && s[q] in "<>") <==> StartsRedir(ts))
    && ((q < |s| && !Symbol(s[q])) <==> (ts != [] && ts[0].Word?))
  }

  lemma PeekSees(s: string, i: nat)
    requires i <= |s|
    ensures Tokens(s, Skip(s, i)) == Tokens(s, i) && Sees(s, Skip(s, i), Tokens(s, i))
  {
    hide Skip, WordEnd, White, Sees, Get;
    TokensSkip(s, i);
    HeadSees(s, i);
  }

  lemma HeadSees(s: string, i: nat)
    requires i <= |s|
    ensures Sees(s, Skip(s, i), Tokens(s, i))
  {
    hide Skip, WordEnd, White, Tokens;
    var l, q, ts := Get(s, i), Skip(s, i), Tokens(s, i);
    TokensHead(s, i);
    if q < |s| {
      assert s[q] in "<>" <==> l.kind == '<' || l.kind == '>' || l.kind == '+';
      assert !Symbol(s[q]) <==> l.kind == 'a';
    }
  }

  lemma TokensHead(s: string, i: nat)
    requires i <= |s|
    ensures var l, ts := Get(s, i), Tokens(s, i); if l.kind == '\0' then ts == [] else ts != [] && ts[0] == TokenOf(s, l)
  {
    hide Get, TokenOf;
  }

  // Where a word stands in the line.
  datatype Span = Span(q: nat, eq: nat)

  // A whole word: nothing but word characters, and none after it.
  predicate IsWord(s: string, w: Span) {
    w.q < w.eq <= |s| && (forall k | w.q <= k < w.eq :: WordChar(s[k])) && (w.eq < |s| ==> !WordChar(s[w.eq]))
  }

  function Text(s: string, w: Span): string
    requires w.q <= w.eq <= |s|
  {
    s[w.q..w.eq]
  }

  // gettoken
  method GetToken(s: string, i: nat) returns (l: Lexeme)
    requires i <= |s| && IsLine(s)
    ensures l == Get(s, i)
    ensures l.kind == 'a' ==> IsWord(s, Span(l.q, l.eq))
  {
    hide Skip, WordEnd, White;
    var p := SkipWhite(s, i);
    var q := p;
    var kind := if p < |s| then s[p] else '\0';
    if p == |s| {
    } else if s[p] == '|' || s[p] == '(' || s[p] == ')' || s[p] == ';' || s[p] == '&' || s[p] == '<' {
      p := p + 1;
    } else if s[p] == '>' {
      p := p + 1;
      if p < |s| && s[p] == '>' {
        kind := '+';
        p := p + 1;
      }
    } else {
      kind := 'a';
      p := FindWordEnd(s, p);
    }
    var eq := p;
    p := SkipWhite(s, p);
    l := Lexeme(kind, q, eq, p);
  }

  // The loop over a word.
  method FindWordEnd(s: string, q: nat) returns (p: nat)
    requires q < |s| && IsLine(s) && !White(s[q]) && !Symbol(s[q])
    ensures q < p <= |s| && p == WordEnd(s, q + 1) && IsWord(s, Span(q, p))
  {
    hide White, Symbol, WordEnd;
    p := q;
    while p < |s| && !White(s[p]) && !Symbol(s[p])
      invariant q <= p <= |s| && forall k | q <= k < p :: !White(s[k]) && !Symbol(s[k]) && WordChar(s[k])
    {
      p := p + 1;
    }
    WordEndAt(s, q + 1, p);
  }

  method SkipWhite(s: string, i: nat) returns (p: nat)
    requires i <= |s|
    ensures p == Skip(s, i)
  {
    p := i;
    while p < |s| && White(s[p])
      invariant i <= p <= |s| && Skip(s, p) == Skip(s, i)
    {
      p := p + 1;
    }
  }

  // peek
  method Peek(s: string, i: nat, toks: string) returns (found: bool, p: nat)
    requires i <= |s| && IsLine(s)
    ensures i <= p <= |s| && (found <==> p < |s| && s[p] in toks)
    ensures Tokens(s, p) == Tokens(s, i) && Sees(s, p, Tokens(s, i))
  {
    hide Sees, Tokens;
    p := SkipWhite(s, i);
    PeekSees(s, i);
    found := p < |s| && s[p] in toks;
  }

  // What gettoken takes off the tokens.
  lemma GetTakes(s: string, i: nat)
    requires i <= |s|
    ensures var l, ts := Get(s, i), Tokens(s, i);
            && (l.kind == '\0' <==> ts == [])
            && (ts != [] ==> i < l.next && ts[0] == TokenOf(s, l) && ts[1..] == Tokens(s, l.next) && (ts[0].Word? <==> l.kind == 'a'))
  {
    hide Get;
  }

  function Spell(t: Token): string {
    match t
    case Word(w) => w
    case Op(c) => if c == '+' then ">>" else [c]
  }

  // Nothing but blanks, tabs, carriage returns, newlines and vertical tabs.
  predicate Blank(gap: string) {
    forall k | 0 <= k < |gap| :: gap[k] == ' ' || gap[k] == '\t' || gap[k] == '\r' || gap[k] == '\n' || gap[k] == '\U{00000B}'
  }

  // Tokens that would be taken for one, or for others, if nothing stood between them.
  predicate Sticks(t: Token, next: Token) {
    (t.Word? && next.Word?) || (t == Op('>') && (next == Op('>') || next == Op('+')))
  }

  // White space to write after each token.
  ghost predicate Parts(ts: seq<Token>, gaps: seq<string>) {
    && |gaps| == |ts|
    && (forall i | 0 <= i < |gaps| :: Blank(gaps[i]))
    && (forall i | 0 <= i < |ts| - 1 && Sticks(ts[i], ts[i + 1]) :: gaps[i] != "")
  }

  // Writing tokens, with white space after each.
  function Render(ts: seq<Token>, gaps: seq<string>): string
    requires |gaps| == |ts|
  {
    if ts == [] then ""
    else Spell(ts[0]) + gaps[0] + Render(ts[1..], gaps[1..])
  }

  // A word is of characters that are neither white space nor symbols.
  predicate Spellable(t: Token) {
    match t
    case Word(w) => w != "" && forall k | 0 <= k < |w| :: w[k] !in " \t\r\n\U{00000B}<|>&;()" && w[k] != '\0'
    case Op(c) => c in "<>+|&;()"
  }

  lemma WordCharIs(c: char)
    ensures WordChar(c) <==> c !in " \t\r\n\U{00000B}<|>&;()" && c != '\0'
  {
  }

  lemma {:induction false} RenderIsLine(ts: seq<Token>, gaps: seq<string>)
    requires |gaps| == |ts| && (forall i | 0 <= i < |ts| :: Spellable(ts[i])) && forall i | 0 <= i < |gaps| :: Blank(gaps[i])
    ensures IsLine(Render(ts, gaps))
  {
    if ts != [] {
      assert Spellable(ts[0]) && Blank(gaps[0]);
      RenderIsLine(ts[1..], gaps[1..]);
    }
  }

  // Dropping a prefix of the line does not change what follows.
  lemma {:induction false} SkipShift(pre: string, s: string, i: nat)
    requires i <= |s|
    ensures Skip(pre + s, |pre| + i) == |pre| + Skip(s, i)
    decreases |s| - i
  {
    if i < |s| {
      assert (pre + s)[|pre| + i] == s[i];
      if White(s[i]) { SkipShift(pre, s, i + 1); }
    }
  }

  lemma {:induction false} WordEndShift(pre: string, s: string, i: nat)
    requires i <= |s|
    ensures WordEnd(pre + s, |pre| + i) == |pre| + WordEnd(s, i)
    decreases |s| - i
  {
    if i < |s| {
      assert (pre + s)[|pre| + i] == s[i];
      if !White(s[i]) && !Symbol(s[i]) { WordEndShift(pre, s, i + 1); }
    }
  }

  lemma EndShift(pre: string, s: string, q: nat)
    requires q < |s|
    ensures (pre + s)[|pre| + q] == s[q] && (Doubled(pre + s, |pre| + q) <==> Doubled(s, q))
    ensures EndOf(pre + s, |pre| + q) == |pre| + EndOf(s, q)
  {
    hide WordEnd, Symbol;
    assert q + 1 < |s| ==> (pre + s)[|pre| + q + 1] == s[q + 1];
    WordEndShift(pre, s, q + 1);
  }

  lemma GetShift(pre: string, s: string, i: nat)
    requires i <= |s|
    ensures var l := Get(s, i); Get(pre + s, |pre| + i) == Lexeme(l.kind, |pre| + l.q, |pre| + l.eq, |pre| + l.next)
  {
    hide Skip, EndOf, Symbol, Doubled;
    var q := Skip(s, i);
    SkipShift(pre, s, i);
    if q < |s| {
      EndShift(pre, s, q);
      SkipShift(pre, s, EndOf(s, q));
    }
  }

  lemma {:induction false} TokensShift(pre: string, s: string, i: nat)
    requires i <= |s|
    ensures Tokens(pre + s, |pre| + i) == Tokens(s, i)
    decreases |s| - i
  {
    hide Get;
    GetShift(pre, s, i);
    var l := Get(s, i);
    if l.kind != '\0' {
      assert (pre + s)[|pre| + l.q..|pre| + l.eq] == s[l.q..l.eq];
      TokensShift(pre, s, l.next);
    }
  }

  lemma {:induction false} WordEndAt(s: string, i: nat, j: nat)
    requires i <= j <= |s| && (forall k | i <= k < j :: !White(s[k]) && !Symbol(s[k])) && (j < |s| ==> White(s[j]) || Symbol(s[j]))
    ensures WordEnd(s, i) == j
    decreases j - i
  {
    if i < j { WordEndAt(s, i + 1, j); }
  }

  lemma {:induction false} SkipNone(s: string, i: nat)
    requires i <= |s| && (i < |s| ==> !White(s[i]))
    ensures Skip(s, i) == i
  {
  }

  // What may come right after a written token.
  predicate Stops(t: Token, s: string) {
    s == "" || ((t.Word? ==> White(s[0]) || Symbol(s[0])) && (t == Op('>') ==> s[0] != '>'))
  }

  // One written token, with what follows it.
  lemma GetFirst(t: Token, s: string)
    requires Spellable(t) && |Spell(t)| <= |s| && s[..|Spell(t)|] == Spell(t) && Stops(t, s[|Spell(t)|..])
    ensures var n, l := |Spell(t)|, Get(s, 0); l.q == 0 && l.eq == n && l.next == Skip(s, n) && l.kind != '\0' && TokenOf(s, l) == t
  {
    hide Skip, Stops, White, Symbol, Spellable, EndOf;
    var n := |Spell(t)|;
    FirstOf(t);
    assert s[0] == s[..n][0];
    SkipNone(s, 0);
    EndOfFirst(t, s);
  }

  lemma EndOfFirst(t: Token, s: string)
    requires Spellable(t) && 0 < |Spell(t)| <= |s| && s[..|Spell(t)|] == Spell(t) && Stops(t, s[|Spell(t)|..])
    ensures EndOf(s, 0) == |Spell(t)| && (t.Op? ==> (Doubled(s, 0) <==> t.c == '+') && (t.c != '+' ==> s[0] == t.c))
    ensures t.Word? ==> !Doubled(s, 0)
  {
    hide WordEnd, Stops, White;
    var n := |Spell(t)|;
    StopsAt(t, s, n);
    forall k | 0 <= k < n ensures s[k] == Spell(t)[k] { assert s[k] == s[..n][k]; }
    if t.Word? {
      forall k | 0 <= k < n ensures !White(s[k]) && !Symbol(s[k]) { WordCharIs(s[k]); }
      WordEndAt(s, 1, n);
    }
  }

  lemma StopsAt(t: Token, s: string, n: nat)
    requires n <= |s| && Stops(t, s[n..])
    ensures n < |s| ==> (t.Word? ==> White(s[n]) || Symbol(s[n])) && (t == Op('>') ==> s[n] != '>')
  {
    hide White, Symbol;
    assert n < |s| ==> s[n..][0] == s[n];
  }

  lemma FirstOf(t: Token)
    requires Spellable(t)
    ensures Spell(t) != "" && !White(Spell(t)[0]) && (Symbol(Spell(t)[0]) <==> t.Op?)
    ensures (Spell(t)[0] == '>' <==> t == Op('>') || t == Op('+')) && (t.Op? ==> t.c != 'a' && t.c != '\0')
  {
  }

  // One written token is read back.
  lemma RenderFirst(t: Token, more: string)
    requires Spellable(t) && Stops(t, more)
    ensures Tokens(Spell(t) + more, 0) == [t] + Tokens(more, 0)
  {
    hide Get, TokenOf, Spell, Spellable, Skip, Stops;
    var n := |Spell(t)|;
    var s := Spell(t) + more;
    assert s[..n] == Spell(t) && s[n..] == more;
    GetFirst(t, s);
    TokensShift(Spell(t), more, 0);
    TokensSkip(s, n);
  }

  lemma {:induction false} SkipBlank(gap: string, s: string, i: nat)
    requires Blank(gap) && i <= |gap|
    ensures Skip(gap + s, i) == Skip(gap + s, |gap|)
    decreases |gap| - i
  {
    if i < |gap| {
      assert (gap + s)[i] == gap[i];
      SkipBlank(gap, s, i + 1);
    }
  }

  // White space before a token does not matter.
  lemma BlankBefore(gap: string, s: string)
    requires Blank(gap)
    ensures Tokens(gap + s, 0) == Tokens(s, 0)
  {
    hide Skip, Tokens, Blank;
    SkipBlank(gap, s, 0);
    TokensSkip(gap + s, 0);
    TokensSkip(gap + s, |gap|);
    TokensShift(gap, s, 0);
  }

  lemma StopsBefore(ts: seq<Token>, gaps: seq<string>)
    requires ts != [] && Parts(ts, gaps) && forall i | 0 <= i < |ts| :: Spellable(ts[i])
    ensures Stops(ts[0], gaps[0] + Render(ts[1..], gaps[1..]))
  {
    hide Spellable;
    if gaps[0] == "" && |ts| > 1 {
      FirstOf(ts[1]);
      assert Spellable(ts[1]);
    }
  }

  // Tokens written out are cut into the same tokens, whatever white space stands before the
  // first and after each.
  lemma {:induction false} RenderedIsLexed(ts: seq<Token>, lead: string, gaps: seq<string>)
    requires Parts(ts, gaps) && Blank(lead) && forall i | 0 <= i < |ts| :: Spellable(ts[i])
    ensures Tokens(lead + Render(ts, gaps), 0) == ts
    decreases |ts|
  {
    hide Spellable, Sticks, Stops, Spell, Tokens;
    BlankBefore(lead, Render(ts, gaps));
    if ts == [] {
      assert Tokens("", 0) == [] by { NoTokens(); }
    } else {
      var more := Render(ts[1..], gaps[1..]);
      assert Spellable(ts[0]) && Blank(gaps[0]);
      StopsBefore(ts, gaps);
      RenderFirst(ts[0], gaps[0] + more);
      RenderedIsLexed(ts[1..], gaps[0], gaps[1..]);
      assert Spell(ts[0]) + gaps[0] + more == Spell(ts[0]) + (gaps[0] + more);
    }
  }

  lemma NoTokens()
    ensures Tokens("", 0) == []
  {
  }
}
