// The regular-expression matcher of user/grep.c, against the language a pattern denotes.

module Grep {
  // A C string: its characters up to, and not including, the NUL.
  type CString = s: string | '\0' !in s

  // p[i], where p points at s.
  function CharAt(s: string, i: nat): char { if i < |s| then s[i] else '\0' }

  // c, c*, or a final $
  datatype Item = One(c: char) | Star(c: char) | End

  function Items(re: string): seq<Item> {
    if re == "" then []
    else if CharAt(re, 1) == '*' then [Star(re[0])] + Items(re[2..])
    else if re == "$" then [End]
    else [One(re[0])] + Items(re[1..])
  }

  // A pattern character and a text character: . stands for any.
  predicate Fits(c: char, t: char) { c == '.' || c == t }

  predicate AllFit(c: char, w: string) { forall i | 0 <= i < |w| :: Fits(c, w[i]) }

  // w is in the language of the items, atEnd saying whether it ends where the text ends.
  ghost predicate Denotes(items: seq<Item>, w: string, atEnd: bool)
    decreases |items|
  {
    if items == [] then w == ""
    else
      match items[0]
      case One(c) => w != "" && Fits(c, w[0]) && Denotes(items[1..], w[1..], atEnd)
      case Star(c) => exists k :: 0 <= k <= |w| && AllFit(c, w[..k]) && Denotes(items[1..], w[k..], atEnd)
      case End => w == "" && atEnd && Denotes(items[1..], w, atEnd)
  }

  // Some prefix of the text is in the language.
  ghost predicate MatchesHere(items: seq<Item>, text: string) {
    exists k :: 0 <= k <= |text| && PrefixIn(items, text, k)
  }

  ghost predicate PrefixIn(items: seq<Item>, text: string, k: nat)
    requires k <= |text|
  {
    Denotes(items, text[..k], k == |text|)
  }

  // Some substring is; a prefix, if the pattern starts with ^.
  ghost predicate Matches(re: string, text: string) {
    if CharAt(re, 0) == '^' then MatchesHere(Items(re[1..]), text)
    else exists i, k :: 0 <= i <= k <= |text| && Denotes(Items(re), text[i..k], k == |text|)
  }

  lemma HereNothing(text: string)
    ensures MatchesHere([], text)
  {
    assert PrefixIn([], text, 0);
  }

  lemma HereOne(c: char, rest: seq<Item>, text: string)
    ensures MatchesHere([One(c)] + rest, text) <==> text != "" && Fits(c, text[0]) && MatchesHere(rest, text[1..])
  {
    var items := [One(c)] + rest;
    assert items[1..] == rest;
    forall k | 0 <= k <= |text|
      ensures PrefixIn(items, text, k) <==> k > 0 && Fits(c, text[0]) && PrefixIn(rest, text[1..], k - 1)
    {
      if k > 0 { assert text[..k][1..] == text[1..][..k - 1]; }
    }
    if text != "" && Fits(c, text[0]) && MatchesHere(rest, text[1..]) {
      var k :| 0 <= k <= |text[1..]| && PrefixIn(rest, text[1..], k);
      assert PrefixIn(items, text, k + 1);
    }
  }

  lemma HereEnd(text: string)
    ensures MatchesHere([End], text) <==> text == ""
  {
    assert [End][1..] == [];
    if text == "" { assert PrefixIn([End], text, 0); }
  }

  // c* and then the rest.
  ghost predicate StarAt(c: char, rest: seq<Item>, text: string, j: nat)
    requires j <= |text|
  {
    AllFit(c, text[..j]) && MatchesHere(rest, text[j..])
  }

  lemma HereStar(c: char, rest: seq<Item>, text: string)
    ensures MatchesHere([Star(c)] + rest, text) <==> exists j :: 0 <= j <= |text| && StarAt(c, rest, text, j)
  {
    var items := [Star(c)] + rest;
    assert items[1..] == rest;
    if MatchesHere(items, text) {
      var k :| 0 <= k <= |text| && PrefixIn(items, text, k);
      var j :| 0 <= j <= k && AllFit(c, text[..k][..j]) && Denotes(rest, text[..k][j..], k == |text|);
      StarFound(c, rest, text, j, k);
    }
    if exists j :: 0 <= j <= |text| && StarAt(c, rest, text, j) {
      var j :| 0 <= j <= |text| && StarAt(c, rest, text, j);
      var m :| 0 <= m <= |text[j..]| && PrefixIn(rest, text[j..], m);
      StarBuilt(c, rest, text, j, m);
    }
  }

  lemma StarFound(c: char, rest: seq<Item>, text: string, j: nat, k: nat)
    requires j <= k <= |text| && AllFit(c, text[..k][..j]) && Denotes(rest, text[..k][j..], k == |text|)
    ensures StarAt(c, rest, text, j)
  {
    assert text[..k][..j] == text[..j];
    assert text[..k][j..] == text[j..][..k - j];
    assert PrefixIn(rest, text[j..], k - j);
  }

  lemma StarBuilt(c: char, rest: seq<Item>, text: string, j: nat, m: nat)
    requires j <= |text| && AllFit(c, text[..j]) && m <= |text[j..]| && PrefixIn(rest, text[j..], m)
    ensures MatchesHere([Star(c)] + rest, text)
  {
    var items, w := [Star(c)] + rest, text[..j + m];
    assert items[1..] == rest && w[..j] == text[..j] && w[j..] == text[j..][..m];
    assert Denotes(items, w, j + m == |text|);
    assert PrefixIn(items, text, j + m);
  }

  // matchhere
  method Matchhere(re: CString, text: CString) returns (r: bool)
    ensures r <==> MatchesHere(Items(re), text)
    decreases |re|, 0
  {
    if CharAt(re, 0) == '\0' {
      HereNothing(text);
      return true;
    }
    if CharAt(re, 1) == '*' {
      r := Matchstar(re[0], re[2..], text);
      return;
    }
    if CharAt(re, 0) == '$' && CharAt(re, 1) == '\0' {
      HereEnd(text);
      return CharAt(text, 0) == '\0';
    }
    HereOne(re[0], Items(re[1..]), text);
    if CharAt(text, 0) != '\0' && (re[0] == '.' || re[0] == text[0]) {
      r := Matchhere(re[1..], text[1..]);
      return;
    }
    return false;
  }

  // matchstar
  method Matchstar(c: char, re: CString, text: CString) returns (r: bool)
    ensures r <==> MatchesHere([Star(c)] + Items(re), text)
    decreases |re|, 1
  {
    HereStar(c, Items(re), text);
    var j := 0;
    while true
      invariant j <= |text| && AllFit(c, text[..j])
      invariant forall i | 0 <= i < j :: !MatchesHere(Items(re), text[i..])
      decreases |text| - j
    {
      var here := Matchhere(re, text[j..]);
      if here {
        assert StarAt(c, Items(re), text, j);
        return true;
      }
      if CharAt(text, j) == '\0' || !(text[j] == c || c == '.') {
        break;
      }
      assert text[..j + 1] == text[..j] + [text[j]];
      j := j + 1;
    }
    StopsHere(c, Items(re), text, j);
    return false;
  }

  // No longer run of c fits.
  lemma StopsHere(c: char, rest: seq<Item>, text: string, j: nat)
    requires j <= |text| && (j < |text| ==> !Fits(c, text[j]))
    requires forall i | 0 <= i <= j :: !MatchesHere(rest, text[i..])
    ensures forall i | 0 <= i <= |text| :: !StarAt(c, rest, text, i)
  {
    forall i | 0 <= i <= |text|
      ensures !StarAt(c, rest, text, i)
    {
      if i > j { assert text[..i][j] == text[j]; }
    }
  }

  // match
  method Match(re: CString, text: CString) returns (r: bool)
    ensures r <==> Matches(re, text)
  {
    if CharAt(re, 0) == '^' {
      r := Matchhere(re[1..], text);
      return;
    }
    MatchesSomewhere(Items(re), text);
    var i := 0;
    while true
      invariant i <= |text| && forall j | 0 <= j < i :: !MatchesHere(Items(re), text[j..])
      decreases |text| - i
    {
      var here := Matchhere(re, text[i..]);
      if here {
        return true;
      }
      if CharAt(text, i) == '\0' {
        break;
      }
      i := i + 1;
    }
    return false;
  }

  // A substring that starts at i is a prefix of what is left from i on.
  lemma MatchesSomewhere(items: seq<Item>, text: string)
    ensures (exists i, k :: 0 <= i <= k <= |text| && Denotes(items, text[i..k], k == |text|))
       <==> (exists i :: 0 <= i <= |text| && MatchesHere(items, text[i..]))
  {
    forall i, k | 0 <= i <= k <= |text|
      ensures Denotes(items, text[i..k], k == |text|) <==> PrefixIn(items, text[i..], k - i)
    {
      assert text[i..k] == text[i..][..k - i];
    }
    if exists i :: 0 <= i <= |text| && MatchesHere(items, text[i..]) {
      var i :| 0 <= i <= |text| && MatchesHere(items, text[i..]);
      var m :| 0 <= m <= |text[i..]| && PrefixIn(items, text[i..], m);
      assert text[i..i + m] == text[i..][..m];
      assert Denotes(items, text[i..i + m], i + m == |text|);
    }
    if exists i, k :: 0 <= i <= k <= |text| && Denotes(items, text[i..k], k == |text|) {
      var i, k :| 0 <= i <= k <= |text| && Denotes(items, text[i..k], k == |text|);
      assert PrefixIn(items, text[i..], k - i);
    }
  }
}
