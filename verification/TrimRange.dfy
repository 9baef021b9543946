/** What the TRIM consolidator is for: blocks freed under one key that lie next to each other go to the device as one
    range, whatever other callers do meanwhile. */
module TrimRange {
  import opened Trim

  /** The fragments from lo up to, but not including, hi. */
  datatype Span = Span(lo: nat, hi: nat)

  function SpanOf(b: Blk): Span {
    Span(b.bno, b.bno + b.frags)
  }

  /** The block ends where the span begins, or begins where it ends; to an empty span every block is as good. */
  predicate Adjoins(s: Span, b: Blk) {
    s.lo == s.hi || b.bno + b.frags == s.lo || b.bno == s.hi
  }

  /** The span and the block together. */
  function Stretched(s: Span, b: Blk): Span {
    if s.lo == s.hi then SpanOf(b)
    else Span(if b.bno < s.lo then b.bno else s.lo, if b.bno + b.frags > s.hi then b.bno + b.frags else s.hi)
  }

  /** A request for the blocks blks that covers the span. */
  predicate Covers(r: Request, key: nat, s: Span, blks: multiset<Blk>) {
    r.key == key && s.lo <= s.hi && r.frags == s.hi - s.lo && (s.lo < s.hi ==> r.bno == s.lo) && multiset(r.blks) == blks
  }

  /** The one request being collected under the key covers the span. */
  ghost predicate Collects(v: View, key: nat, s: Span, blks: multiset<Blk>) {
    exists i :: 0 <= i < |v.hash| && Covers(v.hash[i], key, s, blks)
  }

  /** The unmaps sent for a key. */
  function SentFor(rs: seq<Request>, key: nat): seq<Request> {
    if rs == [] then [] else (if rs[0].key == key then [rs[0]] else []) + SentFor(rs[1..], key)
  }

  lemma SentCons(r: Request, rs: seq<Request>, key: nat)
    ensures SentFor([r] + rs, key) == (if r.key == key then [r] else []) + SentFor(rs, key)
  {
    assert ([r] + rs)[1..] == rs;
  }

  /** A call that passes a block to be collected under the key. */
  predicate Own(c: Call, key: nat) {
    c.FreeCall? && c.key == key && c.candelete && c.b.frags > 0
  }

  predicate Finishes(c: Call, key: nat) {
    c.FinishCall? && c.key == key && c.candelete && c.dotrimcons
  }

  lemma CollectsIndex(v: View, key: nat, s: Span, blks: multiset<Blk>) returns (i: nat)
    requires Inv(v, multiset{}) && Collects(v, key, s, blks)
    ensures key in Keys(v.hash) && i == IndexOf(v.hash, key) && Covers(v.hash[i], key, s, blks)
    ensures v.hash[i].frags == 0 ==> v.hash[i].blks == []
    ensures FIRST_VALID_KEY <= key < v.masterkey
  {
    hide Held;
    var j :| 0 <= j < |v.hash| && Covers(v.hash[j], key, s, blks);
    assert v.hash[j] in v.hash;
    i := IndexOf(v.hash, key);
    assert i == j && WellFormed(v.hash[i]);
    if v.hash[i].frags == 0 {
      EmptyRequest(v.hash[i]);
    }
  }

  lemma EmptyRequest(r: Request)
    requires WellFormed(r) && r.frags == 0
    ensures r.blks == []
  {
    if r.blks != [] {
      TilesInside(r.blks, r.bno, r.bno, 0);
    }
  }

  /** A block next to the range joins it: nothing is sent, and the key's one request covers both. */
  lemma FreeNextTo(v: View, b: Blk, key: nat, s: Span, blks: multiset<Blk>)
    requires Inv(v, multiset{}) && Collects(v, key, s, blks) && b.frags > 0 && Adjoins(s, b)
    ensures Allowed(v, FreeCall(b, key, true))
    ensures var w := Next(v, FreeCall(b, key, true));
      w.tasks == v.tasks && w.issued == v.issued && Collects(w, key, Stretched(s, b), blks + multiset{b})
  {
    hide Inv, Keys;
    var i := CollectsIndex(v, key, s, blks);
    var w := Next(v, FreeCall(b, key, true));
    JoinedCovers(v.hash[i], b, key, s, blks);
    assert w.hash[i] == Joined(v.hash[i], b);
  }

  lemma JoinedCovers(r: Request, b: Blk, key: nat, s: Span, blks: multiset<Blk>)
    requires Covers(r, key, s, blks) && b.frags > 0 && Adjoins(s, b) && (r.frags == 0 ==> r.blks == [])
    ensures Covers(Joined(r, b), key, Stretched(s, b), blks + multiset{b}) && Continues(r, b)
  {
    assert multiset([b] + r.blks) == multiset(r.blks + [b]) == blks + multiset{b};
  }

  /** Any other block makes the range so far go to the device, and begins a new one. */
  lemma FreeApart(v: View, b: Blk, key: nat, s: Span, blks: multiset<Blk>)
    requires Inv(v, multiset{}) && Collects(v, key, s, blks) && b.frags > 0 && !Adjoins(s, b)
    ensures Allowed(v, FreeCall(b, key, true))
    ensures var w := Next(v, FreeCall(b, key, true));
      && |w.issued| == |v.issued| + 1 && w.issued[1..] == v.issued && Covers(w.issued[0], key, s, blks)
      && w.tasks == [w.issued[0]] + v.tasks && Collects(w, key, SpanOf(b), multiset{b})
  {
    hide Inv, Keys;
    var i := CollectsIndex(v, key, s, blks);
    var w := Next(v, FreeCall(b, key, true));
    assert Covers(w.hash[0], key, SpanOf(b), multiset{b});
  }

  /** A finish sends the range, if there is one, and closes the key. */
  lemma FinishSends(v: View, key: nat, s: Span, blks: multiset<Blk>)
    requires Inv(v, multiset{}) && Collects(v, key, s, blks)
    ensures Allowed(v, FinishCall(key, true, true))
    ensures var w := Next(v, FinishCall(key, true, true));
      && key !in Keys(w.hash)
      && if s.lo == s.hi then w.issued == v.issued && w.tasks == v.tasks
         else (|w.issued| == |v.issued| + 1 && w.issued[1..] == v.issued && Covers(w.issued[0], key, s, blks)
               && w.tasks == [w.issued[0]] + v.tasks)
  {
    hide Inv, Keys;
    var i := CollectsIndex(v, key, s, blks);
    KeyGone(v, i);
  }

  /** A block freed on its own is sent alone, and waits like any other. */
  lemma FreeSingly(v: View, b: Blk)
    requires b.frags > 0
    ensures Allowed(v, FreeCall(b, SINGLETON_KEY, true))
    ensures var w := Next(v, FreeCall(b, SINGLETON_KEY, true));
      && |w.issued| == |v.issued| + 1 && w.issued[1..] == v.issued && w.tasks == [w.issued[0]] + v.tasks
      && Covers(w.issued[0], SINGLETON_KEY, SpanOf(b), multiset{b}) && w.hash == v.hash && w.freed == v.freed
  {}

  /** A block is freed without being sent exactly if its caller wants no TRIM or the device has none. */
  lemma FreeAtOnce(v: View, b: Blk, key: nat, candelete: bool)
    requires Allowed(v, FreeCall(b, key, candelete))
    ensures var w := Next(v, FreeCall(b, key, candelete));
      && w.freed == v.freed + (if key == NOTRIM_KEY || !candelete then multiset{b} else multiset{})
      && (key == NOTRIM_KEY || !candelete ==> w.issued == v.issued && w.tasks == v.tasks && w.hash == v.hash)
  {
    hide Keys, IndexOf, Without, Joined, Continues;
  }

  /** Calls of others leave the key's request and its unmaps alone. */
  lemma Foreign(v: View, c: Call, key: nat, s: Span, blks: multiset<Blk>)
    requires Inv(v, multiset{}) && Collects(v, key, s, blks) && Allowed(v, c) && !Own(c, key) && !Finishes(c, key)
    ensures Collects(Next(v, c), key, s, blks) && SentFor(Next(v, c).issued, key) == SentFor(v.issued, key)
  {
    hide Inv, Keys, SentFor, Covers, Gathered, IndexOf, Without, Sent;
    var i := CollectsIndex(v, key, s, blks);
    var w := Next(v, c);
    match c
    case StartCall(candelete, dotrimcons) =>
      if candelete && dotrimcons {
        assert w.hash[i + 1] == v.hash[i];
      }
    case FreeCall(b, k, candelete) =>
      if candelete && k == SINGLETON_KEY {
        ForeignSent(v, Request(k, b.bno, b.frags, [b]), key, i);
        ForeignSent(v.(submitted := v.submitted + multiset{b}), Request(k, b.bno, b.frags, [b]), key, i);
      } else if candelete && k != NOTRIM_KEY {
        ForeignGathered(v.(submitted := v.submitted + multiset{b}), b, k, key, s, blks, i);
      }
    case FinishCall(k, candelete, dotrimcons) =>
      if candelete && dotrimcons && k != SINGLETON_KEY {
        ForeignFinished(v, k, key, s, blks, i);
      }
    case TaskCall(_) =>
  }

  lemma ForeignSent(v: View, r: Request, key: nat, i: nat)
    requires i < |v.hash| && r.key != key
    ensures Sent(v, r).hash == v.hash && SentFor(Sent(v, r).issued, key) == SentFor(v.issued, key)
  {
    hide SentFor;
    SentCons(r, v.issued, key);
  }

  lemma ForeignGathered(v: View, b: Blk, k: nat, key: nat, s: Span, blks: multiset<Blk>, i: nat)
    requires i < |v.hash| && Covers(v.hash[i], key, s, blks) && k in Keys(v.hash) && k != key
    ensures Collects(Gathered(v, b, k), key, s, blks) && SentFor(Gathered(v, b, k).issued, key) == SentFor(v.issued, key)
  {
    hide Keys, SentFor, Covers, Sent;
    CoversKey(v.hash[i], key, s, blks);
    var j := IndexOf(v.hash, k);
    var w := Gathered(v, b, k);
    if Continues(v.hash[j], b) {
      assert w.hash[i] == v.hash[i];
    } else {
      var u := v.(hash := [Request(k, b.bno, b.frags, [b])] + Without(v.hash, j));
      ForeignSent(u, v.hash[j], key, 0);
      assert w.hash[if i < j then i + 1 else i] == v.hash[i];
    }
  }

  lemma ForeignFinished(v: View, k: nat, key: nat, s: Span, blks: multiset<Blk>, i: nat)
    requires i < |v.hash| && Covers(v.hash[i], key, s, blks) && k in Keys(v.hash) && k != key
    ensures var j := IndexOf(v.hash, k); var u := v.(hash := Without(v.hash, j));
      && Collects(u, key, s, blks) && Collects(Sent(u, v.hash[j]), key, s, blks)
      && SentFor(Sent(u, v.hash[j]).issued, key) == SentFor(v.issued, key)
  {
    hide Keys, SentFor, Covers, Sent;
    CoversKey(v.hash[i], key, s, blks);
    var j := IndexOf(v.hash, k);
    var u := v.(hash := Without(v.hash, j));
    assert u.hash[if i < j then i else i - 1] == v.hash[i];
    ForeignSent(u, v.hash[j], key, if i < j then i else i - 1);
  }

  lemma CoversKey(r: Request, key: nat, s: Span, blks: multiset<Blk>)
    requires Covers(r, key, s, blks)
    ensures r.key == key
  {}

  /** The span of the blocks passed under the key, if each lies next to those before it. */
  function SpanAfter(s: Span, calls: seq<Call>, key: nat): Span {
    if calls == [] then s
    else
      var t, c := SpanAfter(s, calls[..|calls| - 1], key), calls[|calls| - 1];
      if Own(c, key) then Stretched(t, c.b) else t
  }

  /** Each block passed under the key lies next to those before it, and the key is not finished. */
  predicate InARow(s: Span, calls: seq<Call>, key: nat) {
    calls == [] ||
      var before, c := calls[..|calls| - 1], calls[|calls| - 1];
      && InARow(s, before, key) && !Finishes(c, key)
      && (Own(c, key) ==> Adjoins(SpanAfter(s, before, key), c.b))
  }

  function Passed(calls: seq<Call>, key: nat): multiset<Blk> {
    if calls == [] then multiset{}
    else
      var c := calls[|calls| - 1];
      Passed(calls[..|calls| - 1], key) + if Own(c, key) then multiset{c.b} else multiset{}
  }

  /** While blocks in a row are passed under the key, among any calls of others, nothing is sent for it. */
  lemma {:induction false} NothingSent(v: View, calls: seq<Call>, key: nat, s: Span, blks: multiset<Blk>)
    requires Inv(v, multiset{}) && Collects(v, key, s, blks) && InARow(s, calls, key)
    ensures Inv(After(v, calls), multiset{})
    ensures Collects(After(v, calls), key, SpanAfter(s, calls, key), blks + Passed(calls, key))
    ensures SentFor(After(v, calls).issued, key) == SentFor(v.issued, key)
  {
    hide Inv, Collects, Next, SentFor, Stretched, Adjoins, Allowed;
    RunKeeps(v, calls);
    if calls == [] {
      assert blks + multiset{} == blks;
    } else {
      var before, c := calls[..|calls| - 1], calls[|calls| - 1];
      NothingSent(v, before, key, s, blks);
      var w := After(v, before);
      var t, m := SpanAfter(s, before, key), blks + Passed(before, key);
      if Own(c, key) {
        FreeNextTo(w, c.b, key, t, m);
        assert c == FreeCall(c.b, key, true);
        assert m + multiset{c.b} == blks + Passed(calls, key);
      } else {
        assert m == blks + Passed(calls, key);
        if Allowed(w, c) {
          Foreign(w, c, key, t, m);
        }
      }
    }
  }

  /** So blocks passed in a row under a new key, and then a finish, are sent as exactly one unmap, that of the whole range. */
  lemma OneUnmap(v: View, calls: seq<Call>, key: nat)
    requires Inv(v, multiset{}) && Collects(v, key, Span(0, 0), multiset{}) && InARow(Span(0, 0), calls, key)
    ensures var s, w := SpanAfter(Span(0, 0), calls, key), After(v, calls + [FinishCall(key, true, true)]);
      && key !in Keys(w.hash)
      && if s.lo == s.hi then SentFor(w.issued, key) == SentFor(v.issued, key)
         else exists r :: Covers(r, key, s, Passed(calls, key)) && SentFor(w.issued, key) == [r] + SentFor(v.issued, key)
  {
    hide Inv, Next, Keys, SentFor, InARow, SpanAfter, Passed, Allowed, Covers;
    var fin, s, u := FinishCall(key, true, true), SpanAfter(Span(0, 0), calls, key), After(v, calls);
    NothingSent(v, calls, key, Span(0, 0), multiset{});
    assert multiset{} + Passed(calls, key) == Passed(calls, key);
    FinishSends(u, key, s, Passed(calls, key));
    assert (calls + [fin])[..|calls|] == calls;
    var w := Next(u, fin);
    if s.lo != s.hi {
      var r := w.issued[0];
      assert w.issued == [r] + u.issued;
      SentCons(r, u.issued, key);
      CoversKey(r, key, s, Passed(calls, key));
    }
  }

  /** A start makes such a key. */
  lemma Started(v: View)
    requires Inv(v, multiset{})
    ensures var c := StartCall(true, true); Collects(Next(v, c), Returned(v, c), Span(0, 0), multiset{})
  {
    hide Inv;
    var w := Next(v, StartCall(true, true));
    assert Covers(w.hash[0], Returned(v, StartCall(true, true)), Span(0, 0), multiset{});
  }

  /** Fragments 16 to 23 and then 24 to 31 go out as one unmap of 16 to 31. */
  lemma TwoAsOne(v: View, key: nat)
    requires Inv(v, multiset{}) && Collects(v, key, Span(0, 0), multiset{})
    ensures var calls := [FreeCall(Blk(16, 8), key, true), FreeCall(Blk(24, 8), key, true)];
      exists r :: Covers(r, key, Span(16, 32), multiset{Blk(16, 8), Blk(24, 8)})
        && SentFor(After(v, calls + [FinishCall(key, true, true)]).issued, key) == [r] + SentFor(v.issued, key)
  {
    hide Inv, Collects, Covers, After, SentFor;
    var a, b := FreeCall(Blk(16, 8), key, true), FreeCall(Blk(24, 8), key, true);
    assert [a, b][..1] == [a] && [a][..0] == [];
    assert SpanAfter(Span(0, 0), [a], key) == Span(16, 24);
    assert SpanAfter(Span(0, 0), [a, b], key) == Span(16, 32);
    assert Passed([a], key) == multiset{Blk(16, 8)};
    assert Passed([a, b], key) == multiset{Blk(16, 8), Blk(24, 8)};
    assert InARow(Span(0, 0), [a], key) && InARow(Span(0, 0), [a, b], key);
    OneUnmap(v, [a, b], key);
  }
}
