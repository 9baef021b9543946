/** The pointers of a file that can be reached from its inode through its indirect blocks. */
module IndirTree {
  import opened Lbns

  /** The inode's indirect slots, and the contents of the file's indirect blocks by name. */
  datatype Tree = Tree(ib: seq<nat>, bufs: map<int, seq<nat>>)

  ghost predicate Shaped(n: nat, t: Tree) {
    |t.ib| == NIADDR && forall k :: k in t.bufs ==> |t.bufs[k]| == n
  }

  /** What the block of that name holds; one that was never written, or was discarded, reads as zeros. */
  function Contents(n: nat, t: Tree, lbn: int): (c: seq<nat>)
    requires Shaped(n, t)
    ensures |c| == n
  {
    if lbn in t.bufs then t.bufs[lbn] else Zeros(n)
  }

  function Zeros(n: nat): (c: seq<nat>)
    ensures |c| == n && forall j :: 0 <= j < n ==> c[j] == 0
  {
    seq(n, j => 0)
  }

  lemma Prefixes(c: seq<nat>, p: seq<nat>, o: seq<nat>)
    ensures c <= o && p <= o && |c| <= |p| ==> c <= p
    ensures c <= p && p <= o ==> c <= o
  {}

  lemma NextSlot(q: seq<nat>, o: seq<nat>, p: seq<nat>)
    requires q < o && |o| == |q| + 1
    ensures q < p && p[|q|] == o[|q|] ==> o <= p
  {
    if q < p && p[|q|] == o[|q|] {
      assert o == p[..|o|];
    }
  }

  /** The pointer in a slot, by the offsets that lead to it; zero where nothing can be reached. */
  function Lookup(n: nat, t: Tree, o: seq<nat>): nat
    requires Shaped(n, t) && Place(n, o)
  {
    var m := |o| - 1;
    if m == 0 then t.ib[o[0]]
    else if Lookup(n, t, o[..m]) == 0 then 0
    else Contents(n, t, Name(n, o[..m]))[o[m]]
  }

  /** Both trees lead to the same pointers. */
  ghost predicate Same(n: nat, t: Tree, u: Tree) {
    && Shaped(n, t) && Shaped(n, u)
    && forall p :: Place(n, p) ==> Lookup(n, u, p) == Lookup(n, t, p)
  }

  /** Everything but what is reached through the slot o is the same. */
  ghost predicate Agree(n: nat, t: Tree, u: Tree, o: seq<nat>) {
    && Shaped(n, t) && Shaped(n, u)
    && forall p :: Place(n, p) && !(o <= p) ==> Lookup(n, u, p) == Lookup(n, t, p)
  }

  /** Nothing can be reached through an empty slot. */
  lemma {:induction false} HoleBelow(n: nat, t: Tree, o: seq<nat>, p: seq<nat>)
    requires Shaped(n, t) && Place(n, o) && Place(n, p) && o <= p && Lookup(n, t, o) == 0
    ensures Lookup(n, t, p) == 0
  {
    if |p| > |o| {
      HoleBelow(n, t, o, p[..|p| - 1]);
    } else {
      assert p == o;
    }
  }

  /** u is t with other contents of the block at q. */
  ghost predicate Altered(n: nat, t: Tree, u: Tree, q: seq<nat>)
    requires Place(n, q) && Levels(q) >= 1
  {
    && Shaped(n, t) && Shaped(n, u) && u.ib == t.ib
    && forall k :: k != Name(n, q) ==> Contents(n, u, k) == Contents(n, t, k)
  }

  /** Changing slots of one indirect block changes only what is reached through these slots. */
  lemma {:induction false} AlteredFrame(n: nat, t: Tree, u: Tree, q: seq<nat>, p: seq<nat>)
    requires n >= 3 && Place(n, q) && Levels(q) >= 1 && Place(n, p) && Altered(n, t, u, q)
    requires q < p ==> Contents(n, u, Name(n, q))[p[|q|]] == Contents(n, t, Name(n, q))[p[|q|]]
    ensures Lookup(n, u, p) == Lookup(n, t, p)
  {
    var m := |p| - 1;
    if m > 0 {
      var r := p[..m];
      assert q < r ==> r[|q|] == p[|q|];
      AlteredFrame(n, t, u, q, r);
      if Name(n, r) == Name(n, q) {
        NamesDiffer(n, r, q);
        assert q < p;
      }
    }
  }

  /** The block at q holds no pointers. */
  ghost predicate Blank(n: nat, t: Tree, q: seq<nat>)
    requires Shaped(n, t) && Place(n, q) && Levels(q) >= 1
  {
    forall j :: 0 <= j < n ==> Contents(n, t, Name(n, q))[j] == 0
  }

  lemma BlankBelow(n: nat, t: Tree, q: seq<nat>, p: seq<nat>)
    requires n >= 3 && Shaped(n, t) && Place(n, q) && Place(n, p) && q < p && Blank(n, t, q)
    ensures Lookup(n, t, p) == 0
  {
    var c := p[..|q| + 1];
    assert c[..|q|] == q;
    HoleBelow(n, t, c, p);
  }

  /** The tree t0, with A[0], A[1] and so on in the slots from f on along the path o. */
  ghost predicate Grown(n: nat, t0: Tree, t: Tree, o: seq<nat>, f: nat, A: seq<nat>) {
    && Shaped(n, t0) && Shaped(n, t)
    && forall p :: Place(n, p) ==> Lookup(n, t, p) == Expected(n, t0, o, f, A, p)
  }

  function Expected(n: nat, t0: Tree, o: seq<nat>, f: nat, A: seq<nat>, p: seq<nat>): nat
    requires Shaped(n, t0) && Place(n, p)
  {
    if f <= |p| < f + |A| && p <= o then A[|p| - f] else Lookup(n, t0, p)
  }

  lemma GrownAgrees(n: nat, t0: Tree, t: Tree, o: seq<nat>, f: nat, A: seq<nat>)
    requires Grown(n, t0, t, o, f, A) && Place(n, o) && 1 <= f <= |o|
    ensures Agree(n, t0, t, o[..f])
  {
    var c := o[..f];
    assert c <= o;
    forall p | Place(n, p) && !(c <= p)
      ensures Lookup(n, t, p) == Lookup(n, t0, p)
    {
      Prefixes(c, p, o);
    }
  }

  /** Blanking a block that no pointer leads to changes nothing that can be reached. */
  lemma BlankUnlinked(n: nat, t: Tree, u: Tree, q: seq<nat>)
    requires n >= 3 && Place(n, q) && Levels(q) >= 1 && Altered(n, t, u, q) && Lookup(n, t, q) == 0
    ensures Same(n, t, u)
  {
    forall p | Place(n, p)
      ensures Lookup(n, u, p) == Lookup(n, t, p)
    {
      AlteredFrame(n, t, u, q, q);
      if q < p {
        HoleBelow(n, t, q, p);
        HoleBelow(n, u, q, p);
      } else {
        AlteredFrame(n, t, u, q, p);
      }
    }
  }

  lemma GrownSame(n: nat, t0: Tree, t: Tree, u: Tree, o: seq<nat>, f: nat, A: seq<nat>)
    requires Grown(n, t0, t, o, f, A) && Same(n, t, u)
    ensures Grown(n, t0, u, o, f, A)
  {}

  /** u is t with b in the slot o. */
  ghost predicate Linked(n: nat, t: Tree, u: Tree, o: seq<nat>, b: nat)
    requires Place(n, o)
  {
    && Shaped(n, t) && Shaped(n, u)
    && if |o| == 1 then u == t.(ib := t.ib[o[0] := b])
    else
      var q := o[..|o| - 1];
      && Altered(n, t, u, q)
      && Contents(n, u, Name(n, q)) == Contents(n, t, Name(n, q))[o[|o| - 1] := b]
  }

  /** Storing a pointer changes only what is reached through its slot. */
  lemma {:induction false} LinkedFrame(n: nat, t: Tree, u: Tree, o: seq<nat>, b: nat, p: seq<nat>)
    requires n >= 3 && Place(n, o) && Place(n, p) && Linked(n, t, u, o, b) && !(o <= p)
    ensures Lookup(n, u, p) == Lookup(n, t, p)
  {
    if |o| == 1 {
      if |p| > 1 {
        LinkedFrame(n, t, u, o, b, p[..|p| - 1]);
      }
    } else {
      var q := o[..|o| - 1];
      NextSlot(q, o, p);
      AlteredFrame(n, t, u, q, p);
    }
  }

  lemma LinkedAt(n: nat, t: Tree, u: Tree, o: seq<nat>, b: nat)
    requires n >= 3 && Place(n, o) && Linked(n, t, u, o, b)
    ensures Lookup(n, u, o) == if |o| > 1 && Lookup(n, t, o[..|o| - 1]) == 0 then 0 else b
  {
    if |o| > 1 {
      LinkedFrame(n, t, u, o, b, o[..|o| - 1]);
    }
  }

  lemma LinkedKeeps(n: nat, t: Tree, u: Tree, o: seq<nat>, b: nat)
    requires n >= 3 && Place(n, o) && Linked(n, t, u, o, b) && Levels(o) >= 1 && Blank(n, t, o)
    ensures Blank(n, u, o)
  {
    if |o| > 1 {
      var q := o[..|o| - 1];
      if Name(n, q) == Name(n, o) {
        NamesDiffer(n, q, o);
        assert false;
      }
    }
    assert Contents(n, u, Name(n, o)) == Contents(n, t, Name(n, o));
  }

  /** Linking a blank block into an empty slot that can be reached adds that pointer and no other. */
  lemma LinkAdds(n: nat, t: Tree, u: Tree, c: seq<nat>, b: nat, p: seq<nat>)
    requires n >= 3 && Place(n, c) && Place(n, p) && Linked(n, t, u, c, b) && Lookup(n, t, c) == 0
    requires Levels(c) >= 1 ==> Blank(n, t, c)
    requires |c| > 1 ==> Lookup(n, t, c[..|c| - 1]) != 0
    ensures Lookup(n, u, p) == if p == c then b else Lookup(n, t, p)
  {
    assert Shaped(n, t) && Shaped(n, u);
    hide Linked, Blank, Lookup, Shaped, Name, Contents;
    if p == c {
      LinkedAt(n, t, u, c, b);
    } else if c <= p {
      LinkedKeeps(n, t, u, c, b);
      BlankBelow(n, u, c, p);
      HoleBelow(n, t, c, p);
    } else {
      LinkedFrame(n, t, u, c, b, p);
    }
  }

  /** So in the first empty slot of the path it grows the tree by that block alone. */
  lemma GrowStep(n: nat, t0: Tree, t: Tree, u: Tree, o: seq<nat>, f: nat, A: seq<nat>, b: nat)
    requires n >= 3 && Grown(n, t0, t, o, f, A) && Place(n, o) && 1 <= f && f + |A| <= |o|
    requires var c := o[..f + |A|];
      && Linked(n, t, u, c, b) && Lookup(n, t, c) == 0 && (Levels(c) >= 1 ==> Blank(n, t, c))
      && (|c| > 1 ==> Lookup(n, t, c[..|c| - 1]) != 0)
    ensures Grown(n, t0, u, o, f, A + [b])
  {
    var c := o[..f + |A|];
    assert Place(n, c);
    forall p | Place(n, p)
      ensures Lookup(n, u, p) == Expected(n, t0, o, f, A + [b], p)
    {
      hide Linked, Blank, Lookup, Place, Shaped, Name, Expected, Contents;
      LinkAdds(n, t, u, c, b, p);
      ExpectedStep(n, t0, o, f, A, b, p);
    }
  }

  lemma ExpectedStep(n: nat, t0: Tree, o: seq<nat>, f: nat, A: seq<nat>, b: nat, p: seq<nat>)
    requires Shaped(n, t0) && Place(n, p) && f + |A| <= |o|
    ensures Expected(n, t0, o, f, A + [b], p) ==
      if p == o[..f + |A|] then b else Expected(n, t0, o, f, A, p)
  {
    var c := o[..f + |A|];
    assert p <= o && |p| == |c| ==> p == c;
  }

  /** Emptying the first slot that was filled gives the old tree back. */
  lemma Unlink(n: nat, t0: Tree, t: Tree, u: Tree, c: seq<nat>)
    requires n >= 3 && Place(n, c) && Agree(n, t0, t, c) && Lookup(n, t0, c) == 0
    requires Linked(n, t, u, c, 0)
    ensures Same(n, t0, u)
  {
    LinkedAt(n, t, u, c, 0);
    forall p | Place(n, p)
      ensures Lookup(n, u, p) == Lookup(n, t0, p)
    {
      if c <= p {
        HoleBelow(n, t0, c, p);
        HoleBelow(n, u, c, p);
      } else {
        LinkedFrame(n, t, u, c, 0, p);
      }
    }
  }

  /** Altering a block reached through the slot c changes nothing else. */
  lemma AlteredAgrees(n: nat, t0: Tree, t: Tree, u: Tree, c: seq<nat>, q: seq<nat>)
    requires n >= 3 && Place(n, c) && Place(n, q) && Levels(q) >= 1 && c <= q
    requires Agree(n, t0, t, c) && Altered(n, t, u, q)
    ensures Agree(n, t0, u, c)
  {
    forall p | Place(n, p) && !(c <= p)
      ensures Lookup(n, u, p) == Lookup(n, t0, p)
    {
      Prefixes(c, q, p);
      AlteredFrame(n, t, u, q, p);
    }
  }
}
