/** The sweeps over cylinder groups in ffs_blkpref and ffs_dirpref: since the totals are sums over
    the groups, some group is at least average and every sweep finds one. */
module Prefer {
  import opened Arith
  import opened Filesystem

  lemma {:induction false} AllBelow(cs: seq<int>, bound: int)
    requires forall c :: 0 <= c < |cs| ==> cs[c] < bound
    ensures Sum(cs) <= |cs| * (bound - 1)
  {
    if cs != [] {
      var n := |cs| - 1;
      AllBelow(cs[..n], bound);
      assert |cs| * (bound - 1) == n * (bound - 1) + (bound - 1);
    }
  }

  /** Some group reaches the (truncated) average. */
  lemma SomeAverage(cs: seq<int>) returns (c: nat)
    requires |cs| > 0 && Sum(cs) >= 0
    ensures c < |cs| && cs[c] >= Sum(cs) / |cs|
  {
    var avg := Sum(cs) / |cs|;
    DivisionLaw(Sum(cs), |cs|);
    assert |cs| * (avg - 1) == avg * |cs| - |cs|;
    if k :| 0 <= k < |cs| && cs[k] >= avg {
      c := k;
    } else {
      AllBelow(cs, avg);
      assert false;
    }
  }

  /** The average as the code computes it: the 64-bit total is cut to 32 bits before the unsigned division. */
  function Average(total: nat, ncg: nat): (a: nat)
    requires ncg > 0
  {
    (total % UINT_SPAN) / ncg
  }

  lemma DivGrows(x: nat, y: nat, n: nat)
    requires n > 0 && x <= y
    ensures x / n <= y / n
  {
    var a, b := x / n, y / n;
    DivisionLaw(x, n);
    DivisionLaw(y, n);
    if b < a {
      MulApart(n, b, a);
      assert false;
    }
  }

  /** It is never above the true one, and is the true one while the total fits. */
  lemma AverageBelow(total: nat, ncg: nat)
    requires ncg > 0
    ensures Average(total, ncg) <= total / ncg && (total < UINT_SPAN ==> Average(total, ncg) == total / ncg)
  {
    DivGrows(total % UINT_SPAN, total, ncg);
  }

  /** The first group in [lo, hi) with at least avg, or hi. */
  method Sweep(cs: array<int>, lo: nat, hi: nat, avg: int) returns (cg: nat)
    requires lo <= hi <= cs.Length
    ensures lo <= cg <= hi && (cg < hi ==> cs[cg] >= avg)
    ensures forall c :: lo <= c < cg ==> cs[c] < avg
  {
    cg := lo;
    while cg < hi
      invariant lo <= cg <= hi
      invariant forall c :: lo <= c < cg ==> cs[c] < avg
    {
      if cs[cg] >= avg {
        return;
      }
      cg := cg + 1;
    }
  }

  /** The group chosen by ffs_blkpref for a new section of a file: from startcg to the end, then
      from the beginning through startcg. The final "return (0)" is unreachable. */
  method BlockSweep(csNbfree: array<int>, nbfree: nat, startcg: nat) returns (cg: nat)
    requires startcg < csNbfree.Length && nbfree == Sum(csNbfree[..])
    ensures var avg := Average(nbfree, csNbfree.Length);
      && cg < csNbfree.Length && csNbfree[cg] >= avg
      && (forall c :: startcg <= c < csNbfree.Length && (cg < startcg || c < cg) ==> csNbfree[c] < avg)
      && (cg < startcg ==> forall c :: 0 <= c < cg ==> csNbfree[c] < avg)
    ensures nbfree < UINT_SPAN ==> csNbfree[cg] >= nbfree / csNbfree.Length
  {
    hide Sum, Average;
    ghost var best := SomeAverage(csNbfree[..]);
    var avg := Average(nbfree, csNbfree.Length);
    AverageBelow(nbfree, csNbfree.Length);
    assert csNbfree[best] >= avg;
    cg := Sweep(csNbfree, startcg, csNbfree.Length, avg);
    if cg < csNbfree.Length {
      return;
    }
    cg := Sweep(csNbfree, 0, startcg + 1, avg);
    if cg == startcg + 1 {
      assert false;  // return (0)
    }
  }

  /** The backstop of ffs_dirpref: whatever the starting group, it lands on the first one from there on, and then from
      the beginning, with at least the average number of free inodes. */
  method DirBackstop(csNifree: array<int>, nifree: nat, prefcg: nat) returns (cg: nat)
    requires prefcg < csNifree.Length && nifree == Sum(csNifree[..])
    ensures var avg := Average(nifree, csNifree.Length);
      && cg < csNifree.Length && csNifree[cg] >= avg
      && (forall c :: prefcg <= c < csNifree.Length && (cg < prefcg || c < cg) ==> csNifree[c] < avg)
      && (cg < prefcg ==> forall c :: 0 <= c < cg ==> csNifree[c] < avg)
    ensures nifree < UINT_SPAN ==> csNifree[cg] >= nifree / csNifree.Length
  {
    hide Sum, Average;
    ghost var best := SomeAverage(csNifree[..]);
    var avg := Average(nifree, csNifree.Length);
    AverageBelow(nifree, csNifree.Length);
    assert csNifree[best] >= avg;
    cg := Sweep(csNifree, prefcg, csNifree.Length, avg);
    if cg < csNifree.Length {
      return;
    }
    cg := Sweep(csNifree, 0, prefcg, avg);
  }
}
