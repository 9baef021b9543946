/** The free-cluster map and its capped run-length histogram (ffs_clusteracct). */
module Clusters {
  import opened Bitmap

  /** The number of consecutive free blocks from p on. */
  function RunLen(s: seq<bool>, p: nat): (n: nat)
    ensures p <= |s| ==> p + n <= |s|
    decreases if p < |s| then |s| - p else 0
  {
    if p < |s| && s[p] then 1 + RunLen(s, p + 1) else 0
  }

  /** The number of consecutive free blocks just before p. */
  function BackLen(s: seq<bool>, p: nat): (n: nat)
    requires p <= |s|
    ensures n <= p
  {
    if p > 0 && s[p - 1] then 1 + BackLen(s, p - 1) else 0
  }

  function Cap(len: nat, cap: nat): nat {
    if len > cap then cap else len
  }

  /** A maximal run begins at p and its length, capped, is k. */
  predicate CappedAt(s: seq<bool>, cap: nat, k: nat, p: nat) {
    p < |s| && s[p] && (p == 0 || !s[p - 1]) && Cap(RunLen(s, p), cap) == k
  }

  function CappedBefore(s: seq<bool>, cap: nat, k: nat, n: nat): nat
    requires n <= |s|
  {
    if n == 0 then 0 else CappedBefore(s, cap, k, n - 1) + if CappedAt(s, cap, k, n - 1) then 1 else 0
  }

  /** The number of maximal runs whose length capped at cap is k: what cg_clustersum[k] means. */
  function CappedRuns(s: seq<bool>, cap: nat, k: nat): nat {
    CappedBefore(s, cap, k, |s|)
  }

  lemma {:induction false} RunLenAfter(s: seq<bool>, b: nat, p: nat)
    requires b < |s| && !s[b] && p > b
    ensures RunLen(s[b := true], p) == RunLen(s, p)
    decreases if p < |s| then |s| - p else 0
  {
    if p < |s| && s[p] {
      RunLenAfter(s, b, p + 1);
    }
  }

  /** Filling the gap at b joins the run that ends there with the one that follows. */
  lemma {:induction false} RunLenJoin(s: seq<bool>, b: nat, p: nat)
    requires b < |s| && !s[b] && p <= b
    ensures p + RunLen(s, p) <= b
    ensures RunLen(s[b := true], p) ==
      if p + RunLen(s, p) < b then RunLen(s, p) else RunLen(s, p) + 1 + RunLen(s, b + 1)
    decreases b - p
  {
    if p == b {
      RunLenAfter(s, b, b + 1);
    } else if s[p] {
      RunLenJoin(s, b, p + 1);
    }
  }

  lemma {:induction false} BackIsRun(s: seq<bool>, b: nat)
    requires b <= |s|
    ensures forall i :: b - BackLen(s, b) <= i < b ==> s[i]
    ensures BackLen(s, b) == b || !s[b - BackLen(s, b) - 1]
  {
    if b > 0 && s[b - 1] {
      BackIsRun(s, b - 1);
    }
  }

  lemma {:induction false} RunFromBack(s: seq<bool>, b: nat, p: nat)
    requires p <= b < |s| && !s[b]
    requires forall i :: p <= i < b ==> s[i]
    ensures RunLen(s, p) == b - p
    decreases b - p
  {
    if p < b {
      RunFromBack(s, b, p + 1);
    }
  }

  function One(c: bool): int {
    if c then 1 else 0
  }

  /** What position p contributes to slot k after block b is freed. */
  lemma CappedFlipAt(s: seq<bool>, b: nat, cap: nat, k: nat, p: nat)
    requires b < |s| && !s[b] && p < |s|
    ensures var t, back, forw := s[b := true], BackLen(s, b), RunLen(s, b + 1);
      One(CappedAt(t, cap, k, p)) == One(CappedAt(s, cap, k, p))
        + (if p == b - back then One(Cap(back + forw + 1, cap) == k) - One(back > 0 && Cap(back, cap) == k) else 0)
        - (if p == b + 1 then One(forw > 0 && Cap(forw, cap) == k) else 0)
  {
    var t, back, forw := s[b := true], BackLen(s, b), RunLen(s, b + 1);
    BackIsRun(s, b);
    if p > b {
      RunLenAfter(s, b, p);
    } else {
      RunLenJoin(s, b, p);
      if p == b - back {
        RunFromBack(s, b, p);
      } else if p < b - back {
        assert p + RunLen(s, p) < b by {
          if p + RunLen(s, p) == b {
            RunCovers(s, p, b - back - 1);
            assert false;
          }
        }
      } else if p < b {
        assert s[p - 1];
      }
    }
  }

  lemma {:induction false} RunCovers(s: seq<bool>, p: nat, i: nat)
    requires p <= i < p + RunLen(s, p)
    ensures i < |s| && s[i]
    decreases i - p
  {
    if p < i {
      RunCovers(s, p + 1, i);
    }
  }

  lemma {:induction false} CappedFlipBefore(s: seq<bool>, b: nat, cap: nat, k: nat, n: nat)
    requires b < |s| && !s[b] && n <= |s|
    ensures var t, back, forw := s[b := true], BackLen(s, b), RunLen(s, b + 1);
      CappedBefore(t, cap, k, n) == CappedBefore(s, cap, k, n)
        + (if n > b - back then One(Cap(back + forw + 1, cap) == k) - One(back > 0 && Cap(back, cap) == k) else 0)
        - (if n > b + 1 then One(forw > 0 && Cap(forw, cap) == k) else 0)
  {
    hide CappedAt;
    if n > 0 {
      CappedFlipBefore(s, b, cap, k, n - 1);
      CappedFlipAt(s, b, cap, k, n - 1);
    }
  }

  /** Freeing block b removes the runs on either side of it from the histogram and adds
      the joined one; read backwards, allocating b does the opposite. */
  lemma CappedFlip(s: seq<bool>, b: nat, cap: nat, k: nat)
    requires b < |s| && !s[b]
    ensures var t, back, forw := s[b := true], BackLen(s, b), RunLen(s, b + 1);
      CappedRuns(t, cap, k) == CappedRuns(s, cap, k)
        + One(Cap(back + forw + 1, cap) == k) - One(back > 0 && Cap(back, cap) == k)
        - One(forw > 0 && Cap(forw, cap) == k)
  {
    CappedFlipBefore(s, b, cap, k, |s|);
    if RunLen(s, b + 1) > 0 {
      RunCovers(s, b + 1, b + 1);
    }
  }

  lemma {:induction false} RunLenSplit(s: seq<bool>, p: nat, i: nat)
    requires p <= i <= |s|
    requires forall j :: p <= j < i ==> s[j]
    ensures RunLen(s, p) == i - p + RunLen(s, i)
    decreases i - p
  {
    if p < i {
      RunLenSplit(s, p + 1, i);
    }
  }

  lemma {:induction false} BackLenSplit(s: seq<bool>, p: nat, i: nat)
    requires i <= p <= |s|
    requires forall j :: i <= j < p ==> s[j]
    ensures BackLen(s, p) == p - i + BackLen(s, i)
  {
    if i < p {
      BackLenSplit(s, p - 1, i);
    }
  }

  predicate ClearFrom(s: seq<bool>, n: nat) {
    forall i :: n <= i < |s| ==> !s[i]
  }

  /** The forward scan: at most cap free blocks from start, not past n. */
  method ScanForward(clustersfree: array<bv8>, start: nat, cap: nat, n: nat) returns (forw: nat)
    requires start <= n <= 8 * clustersfree.Length
    requires ClearFrom(Bits(clustersfree[..]), n)
    ensures forw == Cap(RunLen(Bits(clustersfree[..]), start), cap)
  {
    hide BitOf, RunLen;
    ghost var s := Bits(clustersfree[..]);
    var end := start + cap;
    if end >= n {
      end := n;
    }
    var i := start;
    while i < end
      invariant start <= i <= end
      invariant forall j :: start <= j < i ==> s[j]
    {
      if !IsSet(clustersfree[..], i) {
        break;
      }
      i := i + 1;
    }
    RunLenSplit(s, start, i);
    assert i < |s| && !s[i] ==> RunLen(s, i) == 0 by { RunLenStops(s, i); }
    assert i == |s| ==> RunLen(s, i) == 0 by { RunLenStops(s, i); }
    forw := i - start;
  }

  lemma RunLenStops(s: seq<bool>, i: nat)
    ensures (i < |s| && !s[i]) || i == |s| ==> RunLen(s, i) == 0
  {}

  /** The backward scan: at most cap free blocks before blkno. */
  method ScanBackward(clustersfree: array<bv8>, blkno: nat, cap: nat) returns (back: nat)
    requires blkno < 8 * clustersfree.Length
    ensures back == Cap(BackLen(Bits(clustersfree[..]), blkno), cap)
  {
    hide BitOf;
    ghost var s := Bits(clustersfree[..]);
    var start: int := blkno - 1;
    var end := start - cap;
    if end < 0 {
      end := -1;
    }
    var i := start;
    while i > end
      invariant end <= i <= start
      invariant forall j :: i < j <= start ==> s[j]
    {
      if !IsSet(clustersfree[..], i) {
        break;
      }
      i := i - 1;
    }
    BackLenSplit(s, blkno, i + 1);
    back := start - i;
  }

  /** The cluster summary counts the cluster map. */
  ghost predicate ClusterCounted(s: seq<bool>, sum: seq<int>, cap: nat) {
    && |sum| == cap + 1
    && forall k :: 1 <= k <= cap ==> sum[k] == CappedRuns(s, cap, k)
  }

  /** m is the capped length of the longest free run. */
  ghost predicate LongestCapped(s: seq<bool>, cap: nat, m: nat) {
    && (forall p: nat :: p < |s| ==> Cap(RunLen(s, p), cap) <= m)
    && (m > 0 ==> exists p: nat :: p < |s| && Cap(RunLen(s, p), cap) == m)
  }

  lemma {:induction false} CappedBeforePositive(s: seq<bool>, cap: nat, k: nat, p: nat, n: nat)
    requires p < n <= |s| && CappedAt(s, cap, k, p)
    ensures CappedBefore(s, cap, k, n) > 0
  {
    if p < n - 1 {
      CappedBeforePositive(s, cap, k, p, n - 1);
    }
  }

  lemma {:induction false} CappedBeforeWitness(s: seq<bool>, cap: nat, k: nat, n: nat) returns (p: nat)
    requires n <= |s| && CappedBefore(s, cap, k, n) > 0
    ensures p < n && CappedAt(s, cap, k, p)
  {
    if CappedAt(s, cap, k, n - 1) {
      p := n - 1;
    } else {
      p := CappedBeforeWitness(s, cap, k, n - 1);
    }
  }

  /** Every free block lies in a run that the histogram counts. */
  lemma RunIsCounted(s: seq<bool>, cap: nat, p: nat) returns (k: nat)
    requires p < |s| && s[p] && cap > 0
    ensures Cap(RunLen(s, p), cap) <= k && 1 <= k <= cap && CappedRuns(s, cap, k) > 0
  {
    var q := p - BackLen(s, p);
    BackIsRun(s, p);
    RunLenSplit(s, q, p);
    k := Cap(RunLen(s, q), cap);
    assert CappedAt(s, cap, k, q);
    CappedBeforePositive(s, cap, k, q, |s|);
  }

  /** The last loop of ffs_clusteracct, and the update ffs_clusteralloc makes when it finds
      no cluster: the largest slot in use is the longest capped run. */
  lemma LargestSlot(s: seq<bool>, sum: seq<int>, cap: nat, m: nat)
    requires ClusterCounted(s, sum, cap) && cap > 0 && m <= cap
    requires forall k :: m < k <= cap ==> sum[k] <= 0
    requires m > 0 ==> sum[m] > 0
    ensures LongestCapped(s, cap, m)
  {
    hide CappedRuns;
    forall p: nat | p < |s|
      ensures Cap(RunLen(s, p), cap) <= m
    {
      if s[p] {
        var k := RunIsCounted(s, cap, p);
      }
    }
    if m > 0 {
      SlotWitness(s, cap, m);
    }
  }

  lemma SlotWitness(s: seq<bool>, cap: nat, k: nat)
    requires CappedRuns(s, cap, k) > 0
    ensures exists p: nat :: p < |s| && CappedAt(s, cap, k, p)
  {
    var p := CappedBeforeWitness(s, cap, k, |s|);
  }

  lemma {:induction false} BackLenBefore(s: seq<bool>, b: nat, p: nat)
    requires p <= b < |s|
    ensures BackLen(s[b := true], p) == BackLen(s, p)
  {
    if p > 0 && s[p - 1] {
      BackLenBefore(s, b, p - 1);
    }
  }

  /** The three slot updates. */
  function Slots(sum: seq<int>, cap: nat, back: nat, forw: nat, cnt: int): (r: seq<int>)
    requires cap > 0 && |sum| == cap + 1 && back <= cap && forw <= cap
    ensures |r| == |sum|
    ensures r[0] == sum[0]
    ensures forall k :: 1 <= k <= cap ==>
      r[k] == sum[k] + cnt * (One(Cap(back + forw + 1, cap) == k) - One(back > 0 && back == k) - One(forw > 0 && forw == k))
  {
    var joined := Cap(back + forw + 1, cap);
    var s1 := sum[joined := sum[joined] + cnt];
    var s2 := if back > 0 then s1[back := s1[back] - cnt] else s1;
    if forw > 0 then s2[forw := s2[forw] - cnt] else s2
  }

  /** With s the map in which block b is allocated, the slot updates take the histogram of s
      to that of s with b free (cnt 1) and back (cnt -1). */
  lemma SlotsCount(s: seq<bool>, b: nat, sum: seq<int>, cap: nat, cnt: int)
    requires b < |s| && !s[b] && cap > 0
    requires cnt == 1 || cnt == -1
    requires ClusterCounted(if cnt == 1 then s else s[b := true], sum, cap)
    ensures var back, forw := Cap(BackLen(s, b), cap), Cap(RunLen(s, b + 1), cap);
      ClusterCounted(if cnt == 1 then s[b := true] else s, Slots(sum, cap, back, forw, cnt), cap)
  {
    hide CappedRuns, BackLen, RunLen, Slots;
    forall k: nat | 1 <= k <= cap
      ensures var t, back, forw := s[b := true], Cap(BackLen(s, b), cap), Cap(RunLen(s, b + 1), cap);
        CappedRuns(t, cap, k) == CappedRuns(s, cap, k)
          + One(Cap(back + forw + 1, cap) == k) - One(back > 0 && back == k) - One(forw > 0 && forw == k)
    {
      CappedFlip(s, b, cap, k);
    }
  }

  /** ffs_clusteracct for a filesystem that keeps cluster summaries. One local scan in each
      direction is enough to bring the whole capped histogram up to date, and the slot of
      length 0 (which overlaps the block map) is never written. */
  method ClusterAcct(clustersfree: array<bv8>, clustersum: array<int>, cap: nat, n: nat, blkno: nat, cnt: int)
    returns (maxcluster: nat)
    requires clustersfree as object != clustersum
    requires cap > 0 && blkno < n <= 8 * clustersfree.Length
    requires ClearFrom(Bits(clustersfree[..]), n)
    requires ClusterCounted(Bits(clustersfree[..]), clustersum[..], cap)
    requires cnt == 1 || cnt == -1
    requires Bits(clustersfree[..])[blkno] == (cnt == -1)
    modifies clustersfree, clustersum
    ensures Bits(clustersfree[..]) == old(Bits(clustersfree[..]))[blkno := cnt == 1]
    ensures ClearFrom(Bits(clustersfree[..]), n)
    ensures ClusterCounted(Bits(clustersfree[..]), clustersum[..], cap)
    ensures LongestCapped(Bits(clustersfree[..]), cap, maxcluster) && maxcluster <= cap
    ensures clustersum[0] == old(clustersum[0])
  {
    hide CappedRuns, BackLen, RunLen, Bits, LongestCapped, BitOf, Slots;
    ghost var before, sums := Bits(clustersfree[..]), clustersum[..];
    ghost var s := before[blkno := false];
    assert before == if cnt == 1 then s else s[blkno := true];
    SlotsCount(s, blkno, sums, cap, cnt);
    maxcluster := AcctSlots(clustersfree, clustersum, cap, n, blkno, cnt);
    ghost var after := Bits(clustersfree[..]);
    assert after == if cnt == 1 then s[blkno := true] else s;
    LargestSlot(after, clustersum[..], cap, maxcluster);
  }

  /** m is the largest slot in use, or 0 if none is. */
  predicate TopSlot(sums: seq<int>, cap: nat, m: nat) {
    |sums| == cap + 1 && m <= cap && (m > 0 ==> sums[m] > 0) && forall k :: m < k <= cap ==> sums[k] <= 0
  }

  /** The same function without the expectation that the map matches: whatever bit the block had, and
      whatever the histogram says, this is what it does. */
  method AcctSlots(clustersfree: array<bv8>, clustersum: array<int>, cap: nat, n: nat, blkno: nat, cnt: int)
    returns (maxcluster: nat)
    requires clustersfree as object != clustersum && clustersum.Length == cap + 1
    requires cap > 0 && blkno < n <= 8 * clustersfree.Length
    requires ClearFrom(Bits(clustersfree[..]), n)
    modifies clustersfree, clustersum
    ensures Bits(clustersfree[..]) == old(Bits(clustersfree[..]))[blkno := cnt > 0]
    ensures ClearFrom(Bits(clustersfree[..]), n)
    ensures var s := old(Bits(clustersfree[..]))[blkno := false];
      clustersum[..] == Slots(old(clustersum[..]), cap, Cap(BackLen(s, blkno), cap), Cap(RunLen(s, blkno + 1), cap), cnt)
    ensures TopSlot(clustersum[..], cap, maxcluster)
  {
    hide CappedRuns, BackLen, RunLen, Bits, BitOf, Slots;
    ghost var before, sums := Bits(clustersfree[..]), clustersum[..];
    ghost var s := before[blkno := false];
    SetClrBit(clustersfree, blkno, cnt > 0);
    ghost var after := Bits(clustersfree[..]);
    assert after == if cnt > 0 then s[blkno := true] else s;
    var forw := ScanForward(clustersfree, blkno + 1, cap, n);
    var back := ScanBackward(clustersfree, blkno, cap);
    RunLenAfter(s, blkno, blkno + 1);
    BackLenBefore(s, blkno, blkno);
    UpdateSlots(clustersum, cap, back, forw, cnt);
    assert Bits(clustersfree[..]) == after;
    maxcluster := MaxSlot(clustersum, cap);
  }

  /** The largest slot in use, or 0. */
  method MaxSlot(clustersum: array<int>, cap: nat) returns (m: nat)
    requires clustersum.Length == cap + 1
    ensures m <= cap && (m > 0 ==> clustersum[m] > 0)
    ensures forall k :: m < k <= cap ==> clustersum[k] <= 0
  {
    m := cap;
    while m > 0
      invariant m <= cap
      invariant forall k :: m < k <= cap ==> clustersum[k] <= 0
    {
      if clustersum[m] > 0 {
        break;
      }
      m := m - 1;
    }
  }

  method UpdateSlots(clustersum: array<int>, cap: nat, back: nat, forw: nat, cnt: int)
    requires cap > 0 && clustersum.Length == cap + 1 && back <= cap && forw <= cap
    modifies clustersum
    ensures clustersum[..] == Slots(old(clustersum[..]), cap, back, forw, cnt)
  {
    var i := back + forw + 1;
    if i > cap {
      i := cap;
    }
    clustersum[i] := clustersum[i] + cnt;
    if back > 0 {
      clustersum[back] := clustersum[back] - cnt;
    }
    if forw > 0 {
      clustersum[forw] := clustersum[forw] - cnt;
    }
  }

  method SetClrBit(cp: array<bv8>, i: nat, v: bool)
    requires i < 8 * cp.Length
    modifies cp
    ensures Bits(cp[..]) == old(Bits(cp[..]))[i := v]
  {
    hide Mask, BitOf, Bits, IsSet, Marked;
    ghost var m := cp[..];
    BitUpdates(m, i, v);
    cp[i / 8] := Marked(cp[i / 8], i % 8, v);
    assert cp[..] == PutBit(m, i, v);
  }
}
