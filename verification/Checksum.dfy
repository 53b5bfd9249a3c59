/** The Internet checksum of ducknet/lib/utils.cpp (sections 1 and 2 of RFC 1071), over little-endian 16-bit loads. */
module Checksum {
  import opened Words

  /** The true sum of the 16-bit words of s; an odd last byte stands for itself. */
  function Sum16(s: seq<u8>): nat {
    if |s| == 0 then 0
    else if |s| == 1 then s[0]
    else LoadWord(s[0], s[1]) + Sum16(s[2..])
  }

  /** A 16-bit load on a little-endian machine. */
  function LoadWord(lo: u8, hi: u8): u16 {
    var h: int := hi;
    lo + 256 * h
  }

  function Load16(s: seq<u8>, k: nat): u16
    requires k + 1 < |s|
  {
    LoadWord(s[k], s[k + 1])
  }

  /** One's complement value of a sum: 0 only for an all-zero sum, otherwise the residue mod 65535 in 1 .. 65535. */
  function Fold(n: nat): u16 {
    if n == 0 then 0 else (n - 1) % 65535 + 1
  }

  /** The value ducknet_checksum gives for a region whose words add up to n. */
  function Complement(n: nat): u16 {
    0xffff - Fold(n)
  }

  // ----- the two loops

  lemma {:induction false} SumBound(s: seq<u8>)
    ensures Sum16(s) <= 65535 * ((|s| + 1) / 2)
  {
    if |s| > 1 {
      SumBound(s[2..]);
    }
  }

  lemma WrapStep(sum: u32, w: nat, rest: nat)
    ensures Wrap32(Wrap32(sum + w) + rest) == Wrap32(sum + (w + rest))
  {
  }

  /** What is left of the region, one word or one last byte further on. */
  lemma NextWord(s: seq<u8>, p: nat, end: nat)
    requires p < end <= |s|
    ensures p + 1 < end ==> Sum16(s[p..end]) == Load16(s, p) + Sum16(s[p + 2..end])
    ensures p + 1 == end ==> Sum16(s[p..end]) == s[p]
  {
    if p + 1 < end {
      assert s[p..end][2..] == s[p + 2..end];
    }
  }

  /** ducknet_checksum_sum: a 32-bit accumulator. It cannot wrap below 2^17 bytes. */
  method ChecksumSum(a: array<u8>, from: nat, count: nat) returns (sum: u32)
    requires from + count <= a.Length
    ensures sum == Wrap32(Sum16(a[from..from + count]))
    ensures count <= 0x2_0000 ==> sum == Sum16(a[from..from + count])
  {
    hide Sum16, Wrap32, LoadWord;
    ghost var s := a[..];
    var (p, left) := (from, count);
    ghost var end := from + count;
    assert a[from..end] == s[from..end];
    sum := 0;
    while left > 1
      invariant p + left == end && from <= p
      invariant Wrap32(sum + Sum16(s[p..end])) == Wrap32(Sum16(s[from..end]))
    {
      var w: u16 := LoadWord(a[p], a[p + 1]);
      NextWord(s, p, end);
      WrapStep(sum, w, Sum16(s[p + 2..end]));
      sum := Wrap32(sum + w);
      p, left := p + 2, left - 2;
    }
    if left != 0 {
      NextWord(s, p, end);
      WrapStep(sum, s[p], 0);
      sum := Wrap32(sum + a[p]);
    }
    SumEmpty(s[end..end], sum);
    SumFits(a[from..end]);
  }

  lemma SumEmpty(s: seq<u8>, sum: u32)
    requires s == []
    ensures Sum16(s) == 0 && Wrap32(sum) == sum
  {
  }

  lemma SumFits(s: seq<u8>)
    ensures |s| <= 0x2_0000 ==> Wrap32(Sum16(s)) == Sum16(s)
  {
    SumBound(s);
  }

  lemma FoldStep(sum: nat)
    requires sum >= 65536
    ensures Fold(sum % 65536 + sum / 65536) == Fold(sum) && sum % 65536 + sum / 65536 < sum
  {
    var (h, l) := (sum / 65536, sum % 65536);
    assert sum - 1 == l + h - 1 + 65535 * h;
    SameResidue(l + h - 1, h);
  }

  lemma SameResidue(x: nat, k: int)
    requires 0 <= x + 65535 * k
    ensures (x + 65535 * k) % 65535 == x % 65535
  {
    var q := x / 65535;
    assert x + 65535 * k == 65535 * (q + k) + x % 65535;
  }

  /** ducknet_checksum: fold the carries until the sum fits 16 bits, then complement. */
  method Checksum(a: array<u8>, from: nat, count: nat, start: u32) returns (c: u16)
    requires from + count <= a.Length
    ensures c == Complement(Wrap32(start + Wrap32(Sum16(a[from..from + count]))))
    ensures start <= 0x8000_0000 && count <= 0x1_0000 ==> c == Complement(start + Sum16(a[from..from + count]))
  {
    var part := ChecksumSum(a, from, count);
    c := FoldCarries(Wrap32(start + part));
    TotalFits(a[from..from + count], start);
  }

  lemma TotalFits(s: seq<u8>, start: u32)
    ensures start <= 0x8000_0000 && |s| <= 0x1_0000
      ==> Wrap32(start + Wrap32(Sum16(s))) == start + Sum16(s)
  {
    SumBound(s);
  }

  method FoldCarries(total: u32) returns (c: u16)
    ensures c == Complement(total)
  {
    hide Fold;
    var sum: nat := total;
    while sum / 65536 != 0
      invariant Fold(sum) == Fold(total)
      decreases sum
    {
      FoldStep(sum);
      sum := sum % 65536 + sum / 65536;
    }
    FoldSmall(sum);
    c := 0xffff - sum;
  }

  lemma FoldSmall(n: u16)
    ensures Fold(n) == n
  {
  }

  // ----- what the checksum is for

  lemma {:induction false} SumAppend(a: seq<u8>, b: seq<u8>)
    requires |a| % 2 == 0
    ensures Sum16(a + b) == Sum16(a) + Sum16(b)
  {
    if |a| == 0 {
      assert a + b == b;
    } else {
      assert (a + b)[2..] == a[2..] + b;
      SumAppend(a[2..], b);
    }
  }

  /** The bytes of s with the 16-bit word at k stored as w, low byte first. */
  function Store16(s: seq<u8>, k: nat, w: u16): (r: seq<u8>)
    requires k + 1 < |s|
    ensures |r| == |s|
  {
    var (lo: u8, hi: u8) := (w % 256, w / 256);
    s[k := lo][k + 1 := hi]
  }

  lemma {:induction false} StoreSum(s: seq<u8>, k: nat, w: u16)
    requires k + 1 < |s| && k % 2 == 0
    ensures Sum16(Store16(s, k, w)) == Sum16(s) - Load16(s, k) + w
  {
    var t := Store16(s, k, w);
    if k == 0 {
      assert t[2..] == s[2..];
    } else {
      assert t[2..] == Store16(s[2..], k - 2, w);
      StoreSum(s[2..], k - 2, w);
    }
  }

  lemma FoldFull(n: nat)
    ensures Fold(n) == 0xffff <==> n > 0 && n % 65535 == 0
  {
  }

  lemma ComplementCompletes(n: nat)
    ensures Fold(n + Complement(n)) == 0xffff
  {
    var q := (n - 1) / 65535;
    assert n > 0 ==> n + Complement(n) == 65535 * (q + 1);
    FoldFull(n + Complement(n));
  }

  /**
   Stored in a zeroed field at an even offset, the complement makes the whole region plus the starting sum
   fold to all ones, whatever the length of the region.
   */
  lemma ChecksumVerifies(s: seq<u8>, k: nat, start: nat)
    requires k + 1 < |s| && k % 2 == 0 && Load16(s, k) == 0
    ensures Fold(start + Sum16(Store16(s, k, Complement(start + Sum16(s))))) == 0xffff
  {
    hide Sum16, Fold, Complement, Store16, Load16;
    var total := start + Sum16(s);
    StoreSum(s, k, Complement(total));
    ComplementCompletes(total);
  }

  /**
   Changing one aligned word of a region that verifies goes unnoticed exactly when the word is rewritten with
   itself or with the other representation of zero, and the rest of the region is not all zero.
   */
  lemma WordChangeDetected(s: seq<u8>, k: nat, w: u16, start: nat)
    requires k + 1 < |s| && k % 2 == 0 && Fold(start + Sum16(s)) == 0xffff
    ensures var old16 := Load16(s, k);
      Fold(start + Sum16(Store16(s, k, w))) == 0xffff
      <==> w == old16 || (old16 == 0 && w == 0xffff) || (old16 == 0xffff && w == 0 && start + Sum16(s) > 0xffff)
  {
    hide Sum16, Fold, Load16, Store16;
    LoadAtMostSum(s, k);
    StoreSum(s, k, w);
    FoldFull(start + Sum16(s));
    FoldFull(start + Sum16(Store16(s, k, w)));
    CloseMultiples(start + Sum16(s), w - Load16(s, k));
  }

  lemma {:induction false} LoadAtMostSum(s: seq<u8>, k: nat)
    requires k + 1 < |s| && k % 2 == 0
    ensures Load16(s, k) <= Sum16(s)
  {
    if k > 0 {
      LoadAtMostSum(s[2..], k - 2);
    }
  }

  lemma CloseMultiples(n: nat, d: int)
    requires n > 0 && n % 65535 == 0 && -65535 <= d <= 65535 && 0 <= n + d
    ensures (n + d) % 65535 == 0 <==> d == 0 || d == 65535 || d == -65535
  {
    var q := n / 65535;
    assert n + d == 65535 * q + d;
  }
}
