/** 256-bit digests, their order and their hexadecimal form (kern/duck_cache.cpp). */
module Digest {
  import opened Words

  datatype Digest256 = Digest256(a0: u64, a1: u64, a2: u64, a3: u64)
  {
    function Word(i: nat): u64
      requires i < 4
    {
      if i == 0 then a0 else if i == 1 then a1 else if i == 2 then a2 else a3
    }
  }

  /** Lexicographic order on the four words. */
  predicate Less(x: Digest256, y: Digest256) {
    x.a0 < y.a0 || (x.a0 == y.a0 &&
    (x.a1 < y.a1 || (x.a1 == y.a1 &&
    (x.a2 < y.a2 || (x.a2 == y.a2 && x.a3 < y.a3)))))
  }

  /** The three-way comparison: first differing word decides. */
  method CmpDigest(x: Digest256, y: Digest256) returns (r: int)
    ensures r < 0 <==> Less(x, y)
    ensures r == 0 <==> x == y
    ensures r > 0 <==> Less(y, x)
  {
    for i := 0 to 4
      invariant forall j :: 0 <= j < i ==> x.Word(j) == y.Word(j)
    {
      if x.Word(i) < y.Word(i) {
        assert forall j :: 0 <= j < i ==> x.Word(j) == y.Word(j);
        assert i > 0 ==> x.Word(0) == y.Word(0);
        assert i > 1 ==> x.Word(1) == y.Word(1);
        assert i > 2 ==> x.Word(2) == y.Word(2);
        return -1;
      }
      if x.Word(i) > y.Word(i) {
        assert i > 0 ==> x.Word(0) == y.Word(0);
        assert i > 1 ==> x.Word(1) == y.Word(1);
        assert i > 2 ==> x.Word(2) == y.Word(2);
        return 1;
      }
    }
    assert x.Word(0) == y.Word(0) && x.Word(1) == y.Word(1) && x.Word(2) == y.Word(2) && x.Word(3) == y.Word(3);
    return 0;
  }

  /** The value of a hexadecimal digit in either case, or -1. */
  function HexValue(c: char): (v: int)
    ensures -1 <= v < 16
  {
    if '0' <= c <= '9' then c as int - '0' as int
    else if 'a' <= c <= 'f' then c as int - 'a' as int + 10
    else if 'A' <= c <= 'F' then c as int - 'A' as int + 10
    else -1
  }

  const DIGITS: string := "0123456789abcdef"
  const ALL_DIGITS: string := "0123456789abcdefABCDEF"

  /** A character with the six capital digits replaced by small ones. */
  function Lower(c: char): char {
    if c == 'A' then 'a' else if c == 'B' then 'b' else if c == 'C' then 'c'
    else if c == 'D' then 'd' else if c == 'E' then 'e' else if c == 'F' then 'f' else c
  }

  /** The value of a digit is its place in the list of digits, whatever its case. */
  lemma HexValueIs(c: char)
    ensures HexValue(c) >= 0 <==> c in ALL_DIGITS
    ensures HexValue(c) >= 0 ==> DIGITS[HexValue(c)] == Lower(c)
  {
    DigitPlaces();
    if HexValue(c) >= 0 {
      var v := HexValue(c);
      assert ALL_DIGITS[v] == c || ALL_DIGITS[v + 6] == c;
    }
  }

  lemma DigitPlaces()
    ensures |DIGITS| == 16 && |ALL_DIGITS| == 22
    ensures forall v :: 0 <= v < 16 ==> HexValue(DIGITS[v]) == v
    ensures forall i :: 0 <= i < 22 ==> HexValue(ALL_DIGITS[i]) == if i < 16 then i else i - 6
  {
  }

  lemma LowerDecides(c: char, d: char)
    requires HexValue(c) >= 0 && HexValue(d) >= 0
    ensures HexValue(c) == HexValue(d) <==> Lower(c) == Lower(d)
  {
    hide HexValue, Lower;
    HexValueIs(c);
    HexValueIs(d);
    DigitPlaces();
  }

  ghost predicate AllHex(hex: seq<char>) {
    forall i :: 0 <= i < |hex| ==> HexValue(hex[i]) >= 0
  }

  function Pow16(n: nat): (p: nat)
    ensures p > 0
  {
    if n == 0 then 1 else 16 * Pow16(n - 1)
  }

  lemma DigitFits(p: nat, x: nat, base: nat)
    requires p < base && x < 16
    ensures p + x * base < 16 * base
  {
    assert x * base <= 15 * base;
  }

  /** The number whose i-th hexadecimal digit, counted from the least significant, is hex[i]. */
  ghost function LittleEndianHex(hex: seq<char>): (v: nat)
    requires AllHex(hex)
    ensures v < Pow16(|hex|)
  {
    if hex == [] then 0
    else
      var n := |hex| - 1;
      DigitFits(LittleEndianHex(hex[..n]), HexValue(hex[n]), Pow16(n));
      LittleEndianHex(hex[..n]) + HexValue(hex[n]) * Pow16(n)
  }

  lemma Pow16Sixteen()
    ensures Pow16(16) == TWO64
  {
    assert Pow16(4) == 0x1_0000;
    assert Pow16(8) == 0x1_0000_0000;
    assert Pow16(12) == 0x1_0000_0000_0000;
  }

  lemma Pow16Monotone(i: nat, j: nat)
    requires i <= j
    ensures Pow16(i) <= Pow16(j)
  {
    if i < j { Pow16Monotone(i, j - 1); }
  }

  /** The sixteen digits that make up word w. */
  ghost function Quarter(hex: seq<char>, w: nat): (q: seq<char>)
    requires |hex| == 64 && w < 4
    ensures |q| == 16 && forall i :: 0 <= i < 16 ==> q[i] == hex[16 * w + i]
  {
    hex[16 * w..16 * w + 16]
  }

  ghost function WordOfHex(hex: seq<char>, w: nat): u64
    requires |hex| == 64 && AllHex(hex) && w < 4
  {
    Pow16Sixteen();
    LittleEndianHex(Quarter(hex, w))
  }

  ghost function DigestOfHex(hex: seq<char>): Digest256
    requires |hex| == 64 && AllHex(hex)
  {
    Digest256(WordOfHex(hex, 0), WordOfHex(hex, 1), WordOfHex(hex, 2), WordOfHex(hex, 3))
  }

  /** The i-th character of a terminated string; nothing behind the terminator is ever read. */
  function CharAt(s: seq<char>, i: nat): char {
    if i < |s| then s[i] else '\0'
  }

  function First64(s: seq<char>): (t: seq<char>)
    ensures |t| == 64
  {
    seq(64, i requires 0 <= i < 64 => CharAt(s, i))
  }

  /** The terminator is no digit, so shorter texts fail; of longer ones only the first 64 characters matter. */
  lemma First64Hex(s: seq<char>)
    ensures AllHex(First64(s)) <==> |s| >= 64 && AllHex(s[..64])
    ensures |s| >= 64 ==> First64(s) == s[..64]
  {
    if |s| >= 64 {
      assert First64(s) == s[..64];
    } else {
      assert HexValue(First64(s)[|s|]) == -1;
    }
  }

  /** The i-th digit from the bottom. */
  lemma {:induction false} DigitAt(hex: seq<char>, i: nat)
    requires AllHex(hex) && i < |hex|
    ensures LittleEndianHex(hex) / Pow16(i) % 16 == HexValue(hex[i])
  {
    var n := |hex| - 1;
    var (low, x) := (LittleEndianHex(hex[..n]), HexValue(hex[n]));
    if i == n {
      QuotientIs(low + x * Pow16(n), x, low, Pow16(n));
    } else {
      DigitAt(hex[..n], i);
      var k := Pow16Split(i, n);
      HigherDigits(low, x, Pow16(i), k);
    }
  }

  lemma {:induction false} Pow16Split(i: nat, n: nat) returns (k: nat)
    requires i < n
    ensures Pow16(n) == 16 * k * Pow16(i)
  {
    if i + 1 == n {
      k := 1;
    } else {
      var j := Pow16Split(i, n - 1);
      k := 16 * j;
      assert 16 * (16 * j * Pow16(i)) == 16 * (16 * j) * Pow16(i);
    }
  }

  lemma HigherDigits(low: nat, x: nat, p: nat, k: nat)
    requires p > 0
    ensures (low + x * (16 * k * p)) / p % 16 == low / p % 16
  {
    var q := low / p;
    assert x * (16 * k * p) == (16 * (x * k)) * p;
    assert low + (16 * (x * k)) * p == (q + 16 * (x * k)) * p + low % p;
    QuotientIs(low + x * (16 * k * p), q + 16 * (x * k), low % p, p);
  }

  /** Nibble i of word w is the place of character 16 w + i in the list of digits. */
  lemma NibbleAt(hex: seq<char>, w: nat, i: nat)
    requires |hex| == 64 && AllHex(hex) && w < 4 && i < 16
    ensures DIGITS[DigestOfHex(hex).Word(w) / Pow16(i) % 16] == Lower(hex[16 * w + i])
  {
    hide HexValue, Lower, LittleEndianHex;
    Pow16Sixteen();
    DigitAt(Quarter(hex, w), i);
    HexValueIs(hex[16 * w + i]);
  }

  /** One word: fails exactly when one of its digits is not hexadecimal.
      Or-ing a digit into a clear nibble is adding it. */
  method ParseWord(hex: seq<char>, w: nat) returns (ok: bool, sum: u64)
    requires w < 4
    ensures ok <==> AllHex(Quarter(First64(hex), w))
    ensures ok ==> sum == LittleEndianHex(Quarter(First64(hex), w))
  {
    hide First64, HexValue;
    sum := 0;
    ghost var part := Quarter(First64(hex), w);
    for i := 0 to 16
      invariant AllHex(part[..i]) && sum == LittleEndianHex(part[..i])
    {
      var val := HexValue(CharAt(hex, w * 16 + i));
      CharOf64(hex, w * 16 + i);
      if val < 0 {
        return false, sum;
      }
      ghost var next := part[..i + 1];
      assert next[..i] == part[..i] && next[i] == part[i];
      Pow16Sixteen();
      Pow16Monotone(i + 1, 16);
      assert LittleEndianHex(next) == sum + val * Pow16(i);
      sum := sum + val * Pow16(i);
    }
    assert part[..16] == part;
    ok := true;
  }

  lemma CharOf64(s: seq<char>, i: nat)
    requires i < 64
    ensures First64(s)[i] == CharAt(s, i)
  {
  }

  /** digest_from_hex: word idx is read from digits 16 * idx and up, least significant first. */
  method DigestFromHex(hex: seq<char>) returns (ok: bool, digest: Digest256)
    ensures ok <==> |hex| >= 64 && AllHex(hex[..64])
    ensures ok ==> digest == DigestOfHex(hex[..64])
    ensures ok <==> |hex| >= 64 && forall i :: 0 <= i < 64 ==> hex[i] in ALL_DIGITS
    ensures ok ==> forall w, i :: 0 <= w < 4 && 0 <= i < 16 ==>
      DIGITS[digest.Word(w) / Pow16(i) % 16] == Lower(hex[16 * w + i])
  {
    hide First64, HexValue, Lower;
    TextDigits(hex);
    var words: seq<u64> := [0, 0, 0, 0];
    digest := Digest256(0, 0, 0, 0);
    ghost var text := First64(hex);
    First64Hex(hex);
    for idx := 0 to 4
      invariant |words| == 4
      invariant forall w :: 0 <= w < idx ==>
        AllHex(Quarter(text, w)) && words[w] == LittleEndianHex(Quarter(text, w))
    {
      var sum;
      ok, sum := ParseWord(hex, idx);
      if !ok {
        QuarterHex(text, idx);
        return false, digest;
      }
      words := words[idx := sum];
    }
    AllHexByQuarters(text);
    digest := Digest256(words[0], words[1], words[2], words[3]);
    ok := true;
  }

  lemma TextDigits(hex: seq<char>)
    ensures |hex| >= 64 ==> (AllHex(hex[..64]) <==> forall i :: 0 <= i < 64 ==> hex[i] in ALL_DIGITS)
    ensures |hex| >= 64 && AllHex(hex[..64]) ==> forall w, i :: 0 <= w < 4 && 0 <= i < 16 ==>
      DIGITS[DigestOfHex(hex[..64]).Word(w) / Pow16(i) % 16] == Lower(hex[16 * w + i])
  {
    hide HexValue, Lower, LittleEndianHex, Pow16, DigestOfHex;
    if |hex| >= 64 {
      var text := hex[..64];
      forall i | 0 <= i < 64 ensures HexValue(text[i]) >= 0 <==> hex[i] in ALL_DIGITS {
        HexValueIs(hex[i]);
      }
      if AllHex(text) {
        forall w, i | 0 <= w < 4 && 0 <= i < 16
          ensures DIGITS[DigestOfHex(text).Word(w) / Pow16(i) % 16] == Lower(hex[16 * w + i])
        {
          NibbleAt(text, w, i);
        }
      }
    }
  }

  lemma QuarterHex(hex: seq<char>, w: nat)
    requires |hex| == 64 && w < 4
    ensures AllHex(hex) ==> AllHex(Quarter(hex, w))
  {
  }

  lemma AllHexByQuarters(hex: seq<char>)
    requires |hex| == 64
    requires forall w :: 0 <= w < 4 ==> AllHex(Quarter(hex, w))
    ensures AllHex(hex)
  {
    forall i | 0 <= i < 64
      ensures HexValue(hex[i]) >= 0
    {
      assert Quarter(hex, i / 16)[i % 16] == hex[i];
    }
  }

  ghost predicate SameDigits(h: seq<char>, k: seq<char>)
    requires |h| == |k|
  {
    forall i :: 0 <= i < |h| ==> HexValue(h[i]) == HexValue(k[i])
  }

  lemma {:induction false} LittleEndianHexInjective(h: seq<char>, k: seq<char>)
    requires |h| == |k| && AllHex(h) && AllHex(k)
    ensures LittleEndianHex(h) == LittleEndianHex(k) <==> SameDigits(h, k)
  {
    if h != [] {
      var n := |h| - 1;
      var (h', k') := (h[..n], k[..n]);
      LittleEndianHexInjective(h', k');
      DigitsDiffer(LittleEndianHex(h'), LittleEndianHex(k'), HexValue(h[n]), HexValue(k[n]), Pow16(n));
      assert SameDigits(h, k) <==> SameDigits(h', k') && HexValue(h[n]) == HexValue(k[n]) by {
        assert forall i :: 0 <= i < n ==> h'[i] == h[i] && k'[i] == k[i];
      }
    }
  }

  lemma DigitsDiffer(p: nat, q: nat, x: nat, y: nat, base: nat)
    requires p < base && q < base
    ensures p + x * base == q + y * base <==> p == q && x == y
  {
    if x < y {
      assert (x + 1) * base <= y * base;
    } else if y < x {
      assert (y + 1) * base <= x * base;
    }
  }

  lemma WordOfHexInjective(h: seq<char>, k: seq<char>, w: nat)
    requires |h| == |k| == 64 && AllHex(h) && AllHex(k) && w < 4
    ensures WordOfHex(h, w) == WordOfHex(k, w) <==> SameDigits(Quarter(h, w), Quarter(k, w))
  {
    LittleEndianHexInjective(Quarter(h, w), Quarter(k, w));
  }

  lemma SameDigitsByQuarters(h: seq<char>, k: seq<char>)
    requires |h| == |k| == 64
    ensures SameDigits(h, k) <==> forall w :: 0 <= w < 4 ==> SameDigits(Quarter(h, w), Quarter(k, w))
  {
    if forall w :: 0 <= w < 4 ==> SameDigits(Quarter(h, w), Quarter(k, w)) {
      forall i | 0 <= i < 64
        ensures HexValue(h[i]) == HexValue(k[i])
      {
        var (x, y) := (Quarter(h, i / 16), Quarter(k, i / 16));
        assert x[i % 16] == h[i] && y[i % 16] == k[i];
      }
    }
  }

  /** Two texts name the same object exactly when they agree up to the case of their digits. */
  lemma DigestOfHexInjective(h: seq<char>, k: seq<char>)
    requires |h| == |k| == 64 && AllHex(h) && AllHex(k)
    ensures DigestOfHex(h) == DigestOfHex(k) <==> forall i :: 0 <= i < 64 ==> Lower(h[i]) == Lower(k[i])
  {
    hide HexValue, Lower;
    forall i | 0 <= i < 64 ensures HexValue(h[i]) == HexValue(k[i]) <==> Lower(h[i]) == Lower(k[i]) {
      LowerDecides(h[i], k[i]);
    }
    WordOfHexInjective(h, k, 0);
    WordOfHexInjective(h, k, 1);
    WordOfHexInjective(h, k, 2);
    WordOfHexInjective(h, k, 3);
    SameDigitsByQuarters(h, k);
  }
}
