/** memcchr: the first byte of a buffer that differs from c, compared a word at a time. */
module WordScan {

  /** Eight bytes as one little-endian word. */
  function Word(b0: bv8, b1: bv8, b2: bv8, b3: bv8, b4: bv8, b5: bv8, b6: bv8, b7: bv8): bv64 {
    (b0 as bv64) | ((b1 as bv64) << 8) | ((b2 as bv64) << 16) | ((b3 as bv64) << 24)
      | ((b4 as bv64) << 32) | ((b5 as bv64) << 40) | ((b6 as bv64) << 48) | ((b7 as bv64) << 56)
  }

  /** Eight repetitions of c, built by doubling. */
  function Repeat(c: bv8): bv64 {
    var w0 := c as bv64;
    var w1 := w0 | (w0 << 8);
    var w2 := w1 | (w1 << 16);
    w2 | (w2 << 32)
  }

  lemma WordEqual(b0: bv8, b1: bv8, b2: bv8, b3: bv8, b4: bv8, b5: bv8, b6: bv8, b7: bv8, c: bv8)
    ensures Word(b0, b1, b2, b3, b4, b5, b6, b7) == Repeat(c)
       <==> b0 == c && b1 == c && b2 == c && b3 == c && b4 == c && b5 == c && b6 == c && b7 == c
  {}

  /** The word at an aligned address. */
  function Load(mem: seq<bv8>, lp: nat): bv64
    requires lp + 8 <= |mem|
  {
    Word(mem[lp], mem[lp + 1], mem[lp + 2], mem[lp + 3], mem[lp + 4], mem[lp + 5], mem[lp + 6], mem[lp + 7])
  }

  lemma LoadEqual(mem: seq<bv8>, lp: nat, c: bv8)
    requires lp + 8 <= |mem|
    ensures Load(mem, lp) == Repeat(c) <==> forall j :: lp <= j < lp + 8 ==> mem[j] == c
  {
    hide Word, Repeat;
    WordEqual(mem[lp], mem[lp + 1], mem[lp + 2], mem[lp + 3], mem[lp + 4], mem[lp + 5], mem[lp + 6], mem[lp + 7], c);
    assert Load(mem, lp) == Repeat(c) ==> forall j :: lp <= j < lp + 8 ==>
      j == lp || j == lp + 1 || j == lp + 2 || j == lp + 3 || j == lp + 4 || j == lp + 5 || j == lp + 6 || mem[j] == c;
  }

  predicate Matches(mem: seq<bv8>, lo: nat, hi: nat, c: bv8)
    requires hi <= |mem|
  {
    forall j :: lo <= j < hi ==> mem[j] == c
  }

  /** The byte tests inside one word, from p up to but not beyond last. */
  method FirstOther(mem: array<bv8>, p: nat, last: nat, c: bv8) returns (q: nat)
    requires p <= last <= mem.Length
    ensures p <= q <= last && Matches(mem[..], p, q, c) && (q < last ==> mem[q] != c)
  {
    q := p;
    while q < last
      invariant p <= q <= last && Matches(mem[..], p, q, c)
    {
      if mem[q] != c {
        break;
      }
      q := q + 1;
    }
  }

  /** memcchr. The words read may reach before begin and past the end, up to word boundaries,
      as long as that memory exists; what they contain there does not matter. */
  method Memcchr(mem: array<bv8>, begin: nat, c: bv8, n: nat) returns (found: bool, p: nat)
    requires begin + n <= mem.Length && mem.Length % 8 == 0
    ensures found ==> begin <= p < begin + n && mem[p] != c && Matches(mem[..], begin, p, c)
    ensures !found ==> Matches(mem[..], begin, begin + n, c)
  {
    hide Load, Repeat;
    found, p := false, 0;
    if n == 0 {
      return;
    }
    var word := Repeat(c);
    var lp := begin - begin % 8;
    var end := begin + n;
    LoadEqual(mem[..], lp, c);
    if Load(mem[..], lp) != word {
      p := FirstOther(mem, begin, lp + 8, c);
      if p < lp + 8 {
        found := p < end;
        return;
      }
    }
    lp := lp + 8;
    while lp < end
      invariant lp % 8 == 0 && begin <= lp <= mem.Length
      invariant Matches(mem[..], begin, lp, c)
    {
      LoadEqual(mem[..], lp, c);
      if Load(mem[..], lp) != word {
        p := FirstOther(mem, lp, lp + 7, c);
        found := p < end;
        return;
      }
      lp := lp + 8;
    }
  }
}
