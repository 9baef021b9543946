/** Maximal runs of free fragments, and how an allocation changes their number. */
module Runs {
  import opened Bitmap

  /** s[p..p+k] is free and cannot be extended on either side. */
  predicate IsRun(s: seq<bool>, p: nat, k: nat) {
    && k > 0
    && p + k <= |s|
    && (forall i :: p <= i < p + k ==> s[i])
    && (p == 0 || !s[p - 1])
    && (p + k == |s| || !s[p + k])
  }

  /** The number of maximal runs of exactly k that start before n. */
  function RunsBefore(s: seq<bool>, k: nat, n: nat): nat
    requires n <= |s|
  {
    if n == 0 then 0 else RunsBefore(s, k, n - 1) + if IsRun(s, n - 1, k) then 1 else 0
  }

  /** The number of maximal runs of exactly k free fragments in s. */
  function RunCount(s: seq<bool>, k: nat): nat {
    RunsBefore(s, k, |s|)
  }

  function FreeBefore(s: seq<bool>, n: nat): (c: nat)
    requires n <= |s|
    ensures c <= n
  {
    if n == 0 then 0 else FreeBefore(s, n - 1) + if s[n - 1] then 1 else 0
  }

  /** The number of free fragments in s. */
  function FreeCount(s: seq<bool>): (c: nat)
    ensures c <= |s|
  {
    FreeBefore(s, |s|)
  }

  predicate AllFree(s: seq<bool>) {
    forall i :: 0 <= i < |s| ==> s[i]
  }

  predicate NoneFree(s: seq<bool>) {
    forall i :: 0 <= i < |s| ==> !s[i]
  }

  lemma {:induction false} FreeBeforeFull(s: seq<bool>, n: nat)
    requires n <= |s|
    ensures FreeBefore(s, n) == n <==> forall i :: 0 <= i < n ==> s[i]
    ensures FreeBefore(s, n) == 0 <==> forall i :: 0 <= i < n ==> !s[i]
  {
    if n > 0 {
      FreeBeforeFull(s, n - 1);
    }
  }

  /** A block is counted as whole exactly when all its fragments are counted. */
  lemma FreeCountFull(s: seq<bool>)
    ensures FreeCount(s) == |s| <==> AllFree(s)
    ensures FreeCount(s) == 0 <==> NoneFree(s)
  {
    FreeBeforeFull(s, |s|);
  }

  lemma {:induction false} FreeBeforeFill(s: seq<bool>, lo: nat, len: nat, n: nat)
    requires lo + len <= |s| && n <= |s|
    requires forall i :: lo <= i < lo + len ==> s[i]
    ensures FreeBefore(Fill(s, lo, len, false), n)
         == FreeBefore(s, n) - (if n <= lo then 0 else if n >= lo + len then len else n - lo)
  {
    if n > 0 {
      FreeBeforeFill(s, lo, len, n - 1);
    }
  }

  /** Allocating len free fragments removes exactly len of them from the count. */
  lemma FreeCountFill(s: seq<bool>, lo: nat, len: nat)
    requires lo + len <= |s|
    requires forall i :: lo <= i < lo + len ==> s[i]
    ensures FreeCount(Fill(s, lo, len, false)) == FreeCount(s) - len
  {
    FreeBeforeFill(s, lo, len, |s|);
  }

  /** Where a run of k can start after the first n of the maximal run s[p..p+a] are taken. */
  lemma RunAfterFill(s: seq<bool>, p: nat, a: nat, n: nat, q: nat, k: nat)
    requires IsRun(s, p, a) && 0 < n <= a
    ensures IsRun(Fill(s, p, n, false), q, k)
        <==> (if q == p then false else if q == p + n && n < a then k == a - n else IsRun(s, q, k))
    ensures IsRun(s, p, k) <==> k == a
    ensures p < q < p + a ==> !IsRun(s, q, k)
  {
    var t := Fill(s, p, n, false);
    assert k < a ==> s[p + k];
    assert p + a < |s| ==> !s[p + a] && !t[p + a];
    assert p < q < p + a ==> s[q - 1];
    assert p > 0 ==> !s[p - 1] && !t[p - 1];
    assert p + n < q < p + a ==> t[q - 1];
    assert n < a && k < a - n ==> t[p + n + k];
    assert !t[p] && !t[p + n - 1];
    if q < p {
      assert q + k > p ==> q <= p - 1 < q + k;
      assert IsRun(t, q, k) <==> IsRun(s, q, k);
    } else if q > p + a {
      assert IsRun(t, q, k) <==> IsRun(s, q, k);
    } else if q == p + n && n < a {
      assert k == a - n ==> IsRun(t, q, k);
      assert IsRun(t, q, k) ==> k == a - n;
    } else {
      assert q < p + n ==> !t[q];
      assert !IsRun(t, q, k);
      assert q == p || !IsRun(s, q, k);
    }
  }

  lemma {:induction false} RunsBeforeFill(s: seq<bool>, p: nat, a: nat, n: nat, k: nat, m: nat)
    requires IsRun(s, p, a) && 0 < n <= a && m <= |s|
    ensures RunsBefore(Fill(s, p, n, false), k, m)
         == RunsBefore(s, k, m) - (if m > p && k == a then 1 else 0)
            + (if m > p + n && n < a && k == a - n then 1 else 0)
  {
    if m > 0 {
      RunsBeforeFill(s, p, a, n, k, m - 1);
      RunAfterFill(s, p, a, n, m - 1, k);
    }
  }

  /** Taking the first n fragments of a maximal run of a turns it into one of a - n
      (or into nothing) and leaves every other run alone. */
  lemma RunCountFill(s: seq<bool>, p: nat, a: nat, n: nat, k: nat)
    requires IsRun(s, p, a) && 0 < n <= a
    ensures RunCount(Fill(s, p, n, false), k)
         == RunCount(s, k) - (if k == a then 1 else 0) + (if n < a && k == a - n then 1 else 0)
  {
    RunsBeforeFill(s, p, a, n, k, |s|);
  }

  lemma {:induction false} RunsBeforeWitness(s: seq<bool>, k: nat, n: nat) returns (p: nat)
    requires n <= |s| && RunsBefore(s, k, n) > 0
    ensures p < n && IsRun(s, p, k)
  {
    if IsRun(s, n - 1, k) {
      p := n - 1;
    } else {
      p := RunsBeforeWitness(s, k, n - 1);
    }
  }

  lemma {:induction false} RunsBeforePositive(s: seq<bool>, k: nat, p: nat, n: nat)
    requires p < n <= |s| && IsRun(s, p, k)
    ensures RunsBefore(s, k, n) > 0
  {
    if p < n - 1 {
      RunsBeforePositive(s, k, p, n - 1);
    }
  }

  /** Some run of k exists exactly when the count says so. */
  lemma RunCountPositive(s: seq<bool>, k: nat)
    ensures RunCount(s, k) > 0 <==> exists p: nat :: p < |s| && IsRun(s, p, k)
  {
    if RunCount(s, k) > 0 {
      var p := RunsBeforeWitness(s, k, |s|);
    }
    if p: nat :| p < |s| && IsRun(s, p, k) {
      RunsBeforePositive(s, k, p, |s|);
    }
  }
}
