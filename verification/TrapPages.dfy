// Taking pages out of an address space without freeing them: the trampoline and the
// trapframe, which sit at its top.

module TrapPages {
  import opened PageModel

  const TRAMPOLINE: nat := MAXVPN - 1
  const TRAPFRAME: nat := MAXVPN - 2

  // n page numbers have been unmapped; their pages, like all pages but tables, keep their
  // bytes and have no owner now.
  ghost predicate Detached(m0: Memory, w0: map<nat, Place>, m: Memory, w: map<nat, Place>, root: nat, vpn: nat, n: nat) {
    && Cleared(m0, m, w0, root, vpn, n) && Forgets(w0, w, root, vpn, n)
    && |m| == |m0| && forall b | 0 <= b < |m| && !(b in w && w[b].depth == 2) :: m[b] == m0[b]
  }

  lemma DetachedNone(m: Memory, w: map<nat, Place>, root: nat, vpn: nat)
    ensures Detached(m, w, m, w, root, vpn, 0)
  {
    hide Leaf;
  }

  lemma DetachedMore(m0: Memory, w0: map<nat, Place>, m1: Memory, w1: map<nat, Place>, m2: Memory, w2: map<nat, Place>, root: nat, vpn: nat, n: nat)
    requires Detached(m0, w0, m1, w1, root, vpn, n) && Detached(m1, w1, m2, w2, root, vpn + n, 1) && IsRoot(w0, root)
    ensures Detached(m0, w0, m2, w2, root, vpn, n + 1)
  {
    hide Leaf;
  }

  // The entry for vpn, which maps a page of the address space or of somebody else, is cleared.
  lemma DetachOne(m0: Memory, first: nat, w0: map<nat, Place>, foreign: set<nat>, f: seq<nat>, t: nat, root: nat, vpn: nat)
    requires Inv(m0, first, w0, foreign, f) && IsRoot(w0, root) && t in w0 && w0[t] == Place(root, 2, vpn / ENTRIES)
    requires t < |m0| && Whole(m0[t]) && Valid(Pte(m0[t], vpn % ENTRIES))
    ensures var o, m := Ppn(Pte(m0[t], vpn % ENTRIES)), PutPte(m0, t, vpn % ENTRIES, 0);
            Inv(m, first, w0 - {o}, foreign, f) && Detached(m0, w0, m, w0 - {o}, root, vpn, 1)
  {
    hide Mapped, Formatted, Leaf, At, Pte, Valid, Ppn;
    var i := vpn % ENTRIES;
    IndexParts(vpn);
    assert Below(w0, t, i) == Place(root, 3, vpn);
    ValidLeads(m0, first, w0, foreign, f, t, i);
    var o, m := Target(m0[t], i), PutPte(m0, t, i, 0);
    UnmapKeepsInv(m0, first, w0, foreign, f, t, i);
    PutPteIsGood(m0, first, t, i, 0);
    OwnPlace(m0, first, w0, foreign, f, t);
    LeafAt(m0, first, w0, foreign, f, root, vpn);
    DetachOwners(m0, first, w0, foreign, f, o, root, vpn);
  }

  lemma DetachOwners(m0: Memory, first: nat, w0: map<nat, Place>, foreign: set<nat>, f: seq<nat>, o: nat, root: nat, vpn: nat)
    requires Inv(m0, first, w0, foreign, f) && IsRoot(w0, root) && At(m0, Place(root, 3, vpn)) == o
    requires o in foreign || (o in w0 && w0[o] == Place(root, 3, vpn))
    ensures Forgets(w0, w0 - {o}, root, vpn, 1)
  {
    hide At, Formatted;
    forall b | b in w0
      ensures Within(w0[b], root, vpn, 1) <==> b == o
    {
      assert Owned(m0, w0, b);
    }
  }

  // Where nothing is mapped nothing changes.
  lemma DetachNothing(m: Memory, first: nat, w: map<nat, Place>, foreign: set<nat>, f: seq<nat>, root: nat, vpn: nat)
    requires Inv(m, first, w, foreign, f) && IsRoot(w, root) && Leaf(m, root, vpn) == 0
    ensures Detached(m, w, m, w, root, vpn, 1)
  {
    hide Leaf, Mapped, Formatted;
    NothingToUnmap(m, first, w, foreign, f, root, vpn);
  }

  lemma DetachedMeans(m0: Memory, w0: map<nat, Place>, m: Memory, w: map<nat, Place>, root: nat, vpn: nat, n: nat)
    requires Detached(m0, w0, m, w, root, vpn, n) && IsRoot(w0, root)
    ensures IsRoot(w, root) && forall u: nat :: Leaf(m, root, u) == if vpn <= u < vpn + n then 0 else Leaf(m0, root, u)
  {
    hide Leaf;
  }

  // The two pages at the top, the higher one first.
  lemma TopDetached(m0: Memory, w0: map<nat, Place>, m1: Memory, w1: map<nat, Place>, m2: Memory, w2: map<nat, Place>, root: nat)
    requires Detached(m0, w0, m1, w1, root, TRAMPOLINE, 1) && Detached(m1, w1, m2, w2, root, TRAPFRAME, 1) && IsRoot(w0, root)
    ensures Detached(m0, w0, m2, w2, root, TRAPFRAME, 2)
  {
    hide Leaf;
  }

  // Address space root is gone: its tables and its memory are free again, the pages at its
  // top have their bytes and no owner, and are not on the free list; the other address
  // spaces are untouched.
  ghost predicate SpaceClosed(m0: Memory, w0: map<nat, Place>, f0: seq<nat>, m: Memory, w: map<nat, Place>, f: seq<nat>, root: nat) {
    && (forall b | b in w :: b in w0 && w[b] == w0[b] && w0[b].root != root)
    && (forall b | b in w0 && w0[b].root != root :: b in w)
    && (forall b | b in w0 && w0[b].root == root && !Top(w0[b]) :: b in f)
    && (forall b | b in w0 && w0[b].root == root && Top(w0[b]) && b < |m0| :: b !in f && b < |m| && m[b] == m0[b])
    && (forall r, v: nat | IsRoot(w0, r) && r != root :: Leaf(m, r, v) == Leaf(m0, r, v))
    && DataSame(m0, m, w, Pool(w0, f0))
    && (forall b :: b in Pool(w, f) <==> b in Pool(w0, f0) && !(b in w0 && w0[b].root == root && Top(w0[b])))
  }

  predicate Top(s: Place) { s.depth == 3 && TRAPFRAME <= s.index <= TRAMPOLINE }

  lemma DetachedThenFreed(m0: Memory, first: nat, w0: map<nat, Place>, foreign: set<nat>, f0: seq<nat>,
                          m1: Memory, w1: map<nat, Place>, m2: Memory, w2: map<nat, Place>, f2: seq<nat>, root: nat)
    requires Inv(m0, first, w0, foreign, f0) && IsRoot(w0, root)
    requires Detached(m0, w0, m1, w1, root, TRAPFRAME, 2) && SpaceFreed(m1, w1, f0, m2, w2, f2, root)
    ensures SpaceClosed(m0, w0, f0, m2, w2, f2, root)
  {
    hide Leaf, Mapped, Formatted;
    forall b | b in w0
      ensures Within(w0[b], root, TRAPFRAME, 2) <==> w0[b].root == root && Top(w0[b])
      ensures b in w1 <==> !(w0[b].root == root && Top(w0[b]))
      ensures b !in w1 ==> b !in f0
    {
    }
  }
}
