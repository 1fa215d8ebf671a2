// How many free pages a mapping needs: its own, and those for the tables that are missing.

module PageShortage {
  import opened PageModel

  // The tables walk would have to add for page number vpn.
  function Missing(mem: Memory, root: nat, vpn: nat): nat {
    if At(mem, WalkPlace(root, 1, vpn)) == 0 then 2
    else if At(mem, WalkPlace(root, 0, vpn)) == 0 then 1
    else 0
  }

  // Of the tables, only the one at s may be new.
  ghost predicate Placed(m0: Memory, m: Memory, s: Place) {
    forall u: Place | u.root == s.root && u.depth <= 2 :: At(m, u) == 0 <==> At(m0, u) == 0 && u != s
  }

  // Only those may be new that walk meets on its way to vpn, down to this level.
  ghost predicate Paved(m0: Memory, m: Memory, root: nat, vpn: nat, level: nat) {
    forall u: Place | u.root == root && u.depth <= 2 ::
      At(m, u) == 0 <==> At(m0, u) == 0 && !(level < 2 && u == WalkPlace(root, 1, vpn)) && !(level < 1 && u == WalkPlace(root, 0, vpn))
  }

  lemma PavedNone(m: Memory, root: nat, vpn: nat)
    ensures Paved(m, m, root, vpn, 2)
  {
  }

  lemma PavedMore(m0: Memory, m1: Memory, m2: Memory, root: nat, vpn: nat, level: nat)
    requires 1 <= level <= 2 && Paved(m0, m1, root, vpn, level) && Placed(m1, m2, WalkPlace(root, level - 1, vpn))
    ensures Paved(m0, m2, root, vpn, level - 1)
  {
    hide At, Pow512;
  }

  lemma PavedThenSame(m0: Memory, m1: Memory, m2: Memory, root: nat, vpn: nat)
    requires Paved(m0, m1, root, vpn, 0) && SameTables(m1, m2, root)
    ensures Paved(m0, m2, root, vpn, 0)
  {
    hide At, Pow512;
  }

  lemma SameThenPaved(m0: Memory, m1: Memory, m2: Memory, root: nat, vpn: nat)
    requires SameTables(m0, m1, root) && Paved(m1, m2, root, vpn, 0)
    ensures Paved(m0, m2, root, vpn, 0)
  {
    hide At, Pow512;
  }

  lemma TableThere(m: Memory, s: Place)
    requires At(m, s) != 0
    ensures Placed(m, m, s)
  {
  }

  lemma TablePlaced(m0: Memory, m1: Memory, m2: Memory, who: map<nat, Place>, foreign: set<nat>, s: Place, c: nat)
    requires Mapped(m0, who, foreign) && TablesSame(m0, m1, who) && OnlyPlace(m1, m2, who, s, c) && c != 0
    ensures Placed(m0, m2, s)
  {
    hide At, Mapped, TablesSame;
    forall u: Place | u.root == s.root && u.depth <= 2 ensures At(m1, u) == At(m0, u) { TablesSameAt(m0, m1, who, foreign, u); }
  }

  lemma LooseKeepsTables(m: Memory, who: map<nat, Place>, foreign: set<nat>, m': Memory, root: nat)
    requires Mapped(m, who, foreign) && TablesSame(m, m', who) && IsRoot(who, root)
    ensures SameTables(m, m', root)
  {
    hide At, Mapped, TablesSame;
    forall u: Place | u.root == root && u.depth <= 2 ensures At(m', u) == At(m, u) { TablesSameAt(m, m', who, foreign, u); }
  }

  // walk's step to place s, where it found or made table c, or failed.
  ghost predicate Stepped(m1: Memory, f1: seq<nat>, m2: Memory, f2: seq<nat>, s: Place, c: nat) {
    && (At(m1, s) != 0 || c == 0 ==> m2 == m1 && f2 == f1)
    && (At(m1, s) == 0 && c != 0 ==> |f2| + 1 == |f1| && c < |m2| && NoEntries(m2[c]) && At(m2, s) == c)
  }

  // What walk has taken from the free list when it has come to this level.
  ghost predicate Spent(m0: Memory, f0: seq<nat>, m: Memory, f: seq<nat>, root: nat, vpn: nat, level: nat) {
    if level == 0 then |f| + Missing(m0, root, vpn) == |f0|
    else if level == 2 || At(m0, WalkPlace(root, 1, vpn)) != 0 then m == m0 && f == f0
    else |f| + 1 == |f0| && At(m, WalkPlace(root, 0, vpn)) == 0
  }

  lemma SpentMore(m0: Memory, f0: seq<nat>, m1: Memory, f1: seq<nat>, m2: Memory, f2: seq<nat>, root: nat, vpn: nat, level: nat, c: nat)
    requires 1 <= level <= 2 && vpn < MAXVPN && c != 0
    requires Spent(m0, f0, m1, f1, root, vpn, level) && Stepped(m1, f1, m2, f2, WalkPlace(root, level - 1, vpn), c)
    ensures Spent(m0, f0, m2, f2, root, vpn, level - 1)
  {
    hide At, Pow512, Px, NoEntries;
    if level == 2 && At(m1, WalkPlace(root, 1, vpn)) == 0 {
      WalkPlaces(root, vpn);
      Digits(WalkPlace(root, 1, vpn).index, Px(1, vpn));
      OneBelow(WalkPlace(root, 1, vpn), WalkPlace(root, 0, vpn));
      NothingBeneath(m2, c, WalkPlace(root, 1, vpn), WalkPlace(root, 0, vpn));
    }
  }

  lemma OneBelow(u: Place, s: Place)
    requires s.depth > 0 && Up(s) == u
    ensures Beneath(s, u)
  {
  }

  lemma SpentAll(m0: Memory, f0: seq<nat>, m1: Memory, f1: seq<nat>, root: nat, vpn: nat, level: nat)
    requires 1 <= level <= 2 && Spent(m0, f0, m1, f1, root, vpn, level)
    requires f1 == [] && At(m1, WalkPlace(root, level - 1, vpn)) == 0
    ensures |f0| < Missing(m0, root, vpn)
  {
    hide At, Pow512;
  }

  lemma StepFailed(m0: Memory, f0: seq<nat>, m1: Memory, f1: seq<nat>, m2: Memory, f2: seq<nat>, root: nat, vpn: nat, level: nat)
    requires 1 <= level <= 2 && Spent(m0, f0, m1, f1, root, vpn, level) && Stepped(m1, f1, m2, f2, WalkPlace(root, level - 1, vpn), 0)
    requires f2 == [] && At(m2, WalkPlace(root, level - 1, vpn)) == 0
    ensures |f0| < Missing(m0, root, vpn)
  {
    hide At, Pow512, Spent, Missing;
    SpentAll(m0, f0, m1, f1, root, vpn, level);
  }

  lemma SpentIs(m0: Memory, f0: seq<nat>, m: Memory, f: seq<nat>, root: nat, vpn: nat)
    requires Spent(m0, f0, m, f, root, vpn, 0)
    ensures |f| + Missing(m0, root, vpn) == |f0|
  {
  }

  lemma NewTableIsEmpty(mem: Memory, p: nat, i: nat, e: nat)
    requires p < |mem| && Whole(mem[p]) && i < ENTRIES && e < |mem| <= MAXPPN && e != p
    ensures e < |NewTable(mem, p, i, e)| && NoEntries(NewTable(mem, p, i, e)[e])
  {
    ZeroPage();
    hide NoEntries, SetPte;
  }

  lemma SpentNothing(m: Memory, f: seq<nat>, root: nat, vpn: nat)
    ensures Spent(m, f, m, f, root, vpn, 2)
  {
  }

  lemma MissingLast(m: Memory, root: nat, vpn: nat)
    requires vpn < MAXVPN
    ensures At(m, Place(root, 2, vpn / ENTRIES)) == 0 ==> Missing(m, root, vpn) > 0
  {
    hide At, Pow512;
    WalkPlaces(root, vpn);
  }

  // Pages that are no tables do not matter.
  lemma MissingSame(m: Memory, first: nat, who: map<nat, Place>, foreign: set<nat>, free: seq<nat>, m': Memory, root: nat, vpn: nat)
    requires Inv(m, first, who, foreign, free) && IsRoot(who, root) && TablesSame(m, m', who)
    ensures Missing(m', root, vpn) == Missing(m, root, vpn)
  {
    hide At, Pow512, Formatted;
    TablesSameAt(m, m', who, foreign, WalkPlace(root, 0, vpn));
    TablesSameAt(m, m', who, foreign, WalkPlace(root, 1, vpn));
  }

  lemma LooseIsNoTable(m: Memory, who: map<nat, Place>, free: seq<nat>, p: nat, x: Page)
    requires p < |m| && p !in Pool(who, free)
    ensures TablesSame(m, m[p := x], who)
  {
  }

  // The next page number cannot be mapped: it is not mapped, and there are too few pages.
  ghost predicate Short(m: Memory, free: seq<nat>, root: nat, vpn: nat) {
    Leaf(m, root, vpn) == 0 && |free| <= Missing(m, root, vpn)
  }

  // The places on the way to these page numbers where a table is missing.
  ghost function Absent(m: Memory, root: nat, pages: set<nat>): set<Place> {
    (set v | v in pages && At(m, WalkPlace(root, 1, v)) == 0 :: WalkPlace(root, 1, v))
    + (set v | v in pages && At(m, WalkPlace(root, 0, v)) == 0 :: WalkPlace(root, 0, v))
  }

  // The free pages it takes to map a page at each of them.
  ghost function Need(m: Memory, root: nat, pages: set<nat>): nat { |pages| + |Absent(m, root, pages)| }

  // From m0 to m, own free pages have been mapped at these page numbers, and tables added for
  // them.
  ghost predicate Fed(m0: Memory, f0: seq<nat>, m: Memory, f: seq<nat>, root: nat, pages: set<nat>, own: nat) {
    && |f| + own + |Absent(m0, root, pages)| == |f0|
    && forall u: Place | u.root == root && u.depth <= 2 :: At(m, u) == 0 <==> At(m0, u) == 0 && u !in Absent(m0, root, pages)
  }

  lemma FedNone(m: Memory, f: seq<nat>, root: nat)
    ensures Fed(m, f, m, f, root, {}, 0)
  {
    hide At, Pow512;
    assert Absent(m, root, {}) == {};
  }

  lemma AbsentMore(m: Memory, root: nat, pages: set<nat>, a: nat)
    ensures Absent(m, root, pages + {a}) == Absent(m, root, pages)
              + (if At(m, WalkPlace(root, 1, a)) == 0 then {WalkPlace(root, 1, a)} else {})
              + (if At(m, WalkPlace(root, 0, a)) == 0 then {WalkPlace(root, 0, a)} else {})
  {
    hide At, WalkPlace;
  }

  // No table hangs below a missing one.
  lemma MissingBoth(m: Memory, root: nat, a: nat)
    requires a < MAXVPN
    ensures At(m, WalkPlace(root, 1, a)) == 0 ==> At(m, WalkPlace(root, 0, a)) == 0
  {
    hide Pow512, Px;
    WalkPlaces(root, a);
    Digits(WalkPlace(root, 1, a).index, Px(1, a));
    assert Up(WalkPlace(root, 0, a)) == WalkPlace(root, 1, a);
  }

  lemma OneMore<T>(s: set<T>, x: T, c: bool)
    ensures |s + (if c then {x} else {})| == |s| + if c && x !in s then 1 else 0
  {
    if x in s { assert s + {x} == s; }
  }

  // One page more needs the tables that walk still misses.
  lemma AbsentGrows(m0: Memory, f0: seq<nat>, m: Memory, f: seq<nat>, root: nat, pages: set<nat>, own: nat, a: nat)
    requires Fed(m0, f0, m, f, root, pages, own) && a < MAXVPN
    ensures |Absent(m0, root, pages + {a})| == |Absent(m0, root, pages)| + Missing(m, root, a)
  {
    hide At, Pow512, Absent;
    AbsentMore(m0, root, pages, a);
    MissingBoth(m, root, a);
    var s1, s0, found := WalkPlace(root, 1, a), WalkPlace(root, 0, a), Absent(m0, root, pages);
    OneMore(found, s1, At(m0, s1) == 0);
    OneMore(found + (if At(m0, s1) == 0 then {s1} else {}), s0, At(m0, s0) == 0);
  }

  lemma FedMore(m0: Memory, f0: seq<nat>, m: Memory, f: seq<nat>, m': Memory, f': seq<nat>, root: nat, pages: set<nat>, own: nat, a: nat, d: nat)
    requires Fed(m0, f0, m, f, root, pages, own) && a < MAXVPN
    requires Paved(m, m', root, a, 0) && |f'| + d + Missing(m, root, a) == |f|
    ensures Fed(m0, f0, m', f', root, pages + {a}, own + d)
  {
    hide At, Pow512, Missing;
    AbsentGrows(m0, f0, m, f, root, pages, own, a);
    AbsentMore(m0, root, pages, a);
  }

  // With too few pages left for the next one there were too few for any more.
  lemma FedOut(m0: Memory, f0: seq<nat>, m: Memory, f: seq<nat>, root: nat, pages: set<nat>, own: nat, a: nat, d: nat, all: set<nat>)
    requires Fed(m0, f0, m, f, root, pages, own) && a < MAXVPN && |f| < d + Missing(m, root, a) && pages + {a} <= all
    ensures |f0| < own + d + |Absent(m0, root, all)|
  {
    hide At, Missing, Pow512;
    AbsentGrows(m0, f0, m, f, root, pages, own, a);
    AbsentWithin(m0, root, pages + {a}, all);
  }

  lemma Within(a: set<nat>, b: set<nat>)
    requires a <= b
    ensures |a| <= |b|
  {
    assert b == a + (b - a);
  }

  lemma AbsentWithin(m: Memory, root: nat, pages: set<nat>, all: set<nat>)
    requires pages <= all
    ensures |Absent(m, root, pages)| <= |Absent(m, root, all)|
  {
    hide At, WalkPlace;
    var a, b := Absent(m, root, pages), Absent(m, root, all);
    assert a <= b;
    assert b == a + (b - a);
  }

  lemma NeedGrows(m: Memory, root: nat, pages: set<nat>, all: set<nat>)
    requires pages <= all
    ensures Need(m, root, pages) <= Need(m, root, all)
  {
    hide Absent;
    AbsentWithin(m, root, pages, all);
    Within(pages, all);
  }

  lemma FedMeans(m0: Memory, f0: seq<nat>, m: Memory, f: seq<nat>, root: nat, pages: set<nat>, own: nat)
    requires Fed(m0, f0, m, f, root, pages, own)
    ensures |f| + own + |Absent(m0, root, pages)| == |f0|
  {
  }

  predicate InSpan(lo: nat, hi: nat, v: nat) { lo <= v < hi }

  ghost function Span(lo: nat, hi: nat): set<nat> { set v: nat | v < hi && InSpan(lo, hi, v) }

  lemma SpanMore(lo: nat, hi: nat)
    requires lo <= hi
    ensures Span(lo, lo) == {} && Span(lo, hi + 1) == Span(lo, hi) + {hi} && hi !in Span(lo, hi)
  {
  }

  lemma SpanWithin(lo: nat, mid: nat, hi: nat)
    requires mid <= hi
    ensures Span(lo, mid) <= Span(lo, hi) && (hi <= lo ==> Span(lo, hi) == {})
  {
  }

  // The page numbers below n that are mapped.
  ghost function Present(m: Memory, root: nat, n: nat): set<nat> { set v: nat | v < n && Leaf(m, root, v) != 0 }

  lemma PresentMore(m: Memory, root: nat, n: nat)
    ensures Present(m, root, 0) == {} && n !in Present(m, root, n)
    ensures Present(m, root, n + 1) == if Leaf(m, root, n) != 0 then Present(m, root, n) + {n} else Present(m, root, n)
  {
    hide Leaf;
  }

  lemma PresentWithin(m: Memory, root: nat, n: nat, all: nat)
    requires n <= all
    ensures Present(m, root, n) <= Present(m, root, all)
  {
    hide Leaf;
  }
}
