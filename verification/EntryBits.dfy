/** Page table entries as numbers in memory and as bits: the two views of lib/memory.cpp agree. */
module EntryBits {
  import opened Words
  import opened PageFlags
  import opened PageWalk
  import opened PageTables

  // ----- numbers and their bits

  /** The number with these bits, the lowest one first. */
  function Num(b: seq<bool>): nat {
    if |b| == 0 then 0 else (if b[0] then 1 else 0) + 2 * Num(b[1..])
  }

  function Pow2(n: nat): (p: nat)
    ensures p > 0
  {
    if n == 0 then 1 else 2 * Pow2(n - 1)
  }

  lemma {:induction false} NumBound(b: seq<bool>)
    ensures Num(b) < Pow2(|b|)
  {
    if |b| > 0 {
      NumBound(b[1..]);
    }
  }

  lemma DoubleProduct(p: nat, n: nat)
    ensures 2 * (p * n) == (2 * p) * n
  {
  }

  lemma {:induction false} NumConcat(a: seq<bool>, b: seq<bool>)
    ensures Num(a + b) == Num(a) + Pow2(|a|) * Num(b)
  {
    if |a| == 0 {
      assert a + b == b;
    } else {
      assert (a + b)[1..] == a[1..] + b;
      NumConcat(a[1..], b);
      ScaledTail(a[0], Num(a[1..]), Pow2(|a| - 1), Num(b));
    }
  }

  lemma ScaledTail(first: bool, tail: nat, p: nat, n: nat)
    ensures var x := if first then 1 else 0;
      x + 2 * (tail + p * n) == (x + 2 * tail) + (2 * p) * n
  {
    DoubleProduct(p, n);
  }

  lemma {:induction false} NumZero(b: seq<bool>)
    requires forall i :: 0 <= i < |b| ==> !b[i]
    ensures Num(b) == 0
  {
    if |b| > 0 {
      NumZero(b[1..]);
    }
  }

  lemma {:induction false} NumInjective(a: seq<bool>, b: seq<bool>)
    requires |a| == |b| && Num(a) == Num(b)
    ensures a == b
  {
    if |a| > 0 {
      OddByFirst(a[0], Num(a[1..]), b[0], Num(b[1..]));
      NumInjective(a[1..], b[1..]);
      assert a == [a[0]] + a[1..] && b == [b[0]] + b[1..];
    }
  }

  lemma OddByFirst(x: bool, m: nat, y: bool, n: nat)
    requires (if x then 1 else 0) + 2 * m == (if y then 1 else 0) + 2 * n
    ensures x == y && m == n
  {
  }

  lemma SmallPowers()
    ensures Pow2(4) == 16 && Pow2(7) == 128 && Pow2(8) == 256 && Pow2(9) == 512 && Pow2(2) == 4
  {
  }

  lemma Powers()
    ensures Pow2(7) == 128 && Pow2(9) == 512 && Pow2(12) == PAGE_SIZE && Pow2(40) == 0x100_0000_0000
    ensures Pow2(52) == 0x10_0000_0000_0000 && Pow2(54) == 0x40_0000_0000_0000 && Pow2(64) == TWO64
  {
    hide Pow2;
    SmallPowers();
    Pow2Add(8, 8);
    Pow2Add(16, 16);
    Pow2Add(32, 32);
    Pow2Add(8, 4);
    Pow2Add(32, 8);
    Pow2Add(40, 12);
    Pow2Add(52, 2);
  }

  lemma {:induction false} Pow2Add(a: nat, b: nat)
    ensures Pow2(a + b) == Pow2(a) * Pow2(b)
  {
    if a > 0 {
      Pow2Add(a - 1, b);
      DoubleProduct(Pow2(a - 1), Pow2(b));
    }
  }

  // ----- the value of a word

  predicate BitAt(p: bv64, i: nat)
    requires i < 64
  {
    p & (1 << i) != 0
  }

  function Bits(p: bv64): (b: seq<bool>)
    ensures |b| == 64
  {
    seq(64, i requires 0 <= i < 64 => BitAt(p, i))
  }

  /** The number a word holds in memory. */
  function Value(p: bv64): u64 {
    NumBound(Bits(p));
    Powers();
    Num(Bits(p))
  }

  /** The number split before bit k. */
  lemma SplitAt(b: seq<bool>, k: nat)
    requires k <= |b|
    ensures Num(b) == Num(b[..k]) + Pow2(k) * Num(b[k..]) && Num(b[..k]) < Pow2(k)
  {
    assert b == b[..k] + b[k..];
    NumConcat(b[..k], b[k..]);
    NumBound(b[..k]);
  }

  lemma HighPartOf(v: nat, low: nat, p: nat, high: nat)
    requires p > 0 && v == low + p * high && low < p
    ensures v / p == high && v % p == low
  {
    QuotientIs(v, high, low, p);
  }

  lemma Quotients(b: seq<bool>, k: nat)
    requires k <= |b|
    ensures Num(b) / Pow2(k) == Num(b[k..]) && Num(b) % Pow2(k) == Num(b[..k])
  {
    SplitAt(b, k);
    HighPartOf(Num(b), Num(b[..k]), Pow2(k), Num(b[k..]));
  }

  lemma FirstBit(b: seq<bool>)
    requires |b| > 0
    ensures Num(b) % 2 == if b[0] then 1 else 0
  {
  }

  function FrameNo(p: bv64): nat {
    Num(Bits(p)[12..52])
  }

  /** The processor reads the same frame, presence and size from either view. */
  lemma ValueParts(p: bv64)
    ensures Frame(Value(p)) == FrameNo(p) * PAGE_SIZE
    ensures Present(Value(p)) <==> BitAt(p, 0)
    ensures IsHuge(Value(p)) <==> BitAt(p, 7)
  {
    hide BitAt, Num, Pow2;
    var b := Bits(p);
    Powers();
    Quotients(b, 12);
    Quotients(b[12..], 40);
    assert b[12..][..40] == b[12..52];
    FirstBit(b);
    Quotients(b, 7);
    FirstBit(b[7..]);
  }

  // ----- the or of an address and flags

  lemma OrLow(a: bv64, f: bv64, i: nat)
    requires a & 0xfff == 0 && i < 12
    ensures BitAt(a | f, i) == BitAt(f, i) && !BitAt(a, i)
  {
    hide BitAt;
    LowAbsent(a, i);
    OrWithout(a, f, i);
  }

  lemma LowAbsent(a: bv64, i: nat)
    requires a & 0xfff == 0 && i < 12
    ensures !BitAt(a, i)
  {
  }

  lemma HighAbsent(f: bv64, i: nat)
    requires f & 0xfff == f && 12 <= i < 64
    ensures !BitAt(f, i)
  {
  }

  lemma OrWithout(a: bv64, f: bv64, i: nat)
    requires i < 64 && !BitAt(a, i)
    ensures BitAt(a | f, i) == BitAt(f, i) == BitAt(f | a, i)
  {
    hide BitAt;
    if BitAt(f, i) { OrSet(a, f, i); } else { OrClear(a, f, i); }
  }

  lemma OrSet(a: bv64, f: bv64, i: nat)
    requires i < 64 && BitAt(f, i)
    ensures BitAt(a | f, i) && BitAt(f | a, i)
  {
  }

  lemma OrClear(a: bv64, f: bv64, i: nat)
    requires i < 64 && !BitAt(f, i) && !BitAt(a, i)
    ensures !BitAt(a | f, i) && !BitAt(f | a, i)
  {
  }

  lemma OrHigh(a: bv64, f: bv64, i: nat)
    requires f & 0xfff == f && 12 <= i < 64
    ensures BitAt(a | f, i) == BitAt(a, i) && !BitAt(f, i)
  {
    hide BitAt;
    HighAbsent(f, i);
    OrWithout(f, a, i);
  }

  lemma OrBits(a: bv64, f: bv64)
    requires a & 0xfff == 0 && f & 0xfff == f
    ensures Bits(a | f)[..12] == Bits(f)[..12] && Bits(a | f)[12..] == Bits(a)[12..]
    ensures Num(Bits(a)[..12]) == 0 && Num(Bits(f)[12..]) == 0
  {
    hide BitAt, Num;
    var (x, y, z) := (Bits(a), Bits(f), Bits(a | f));
    forall i | 0 <= i < 12 ensures z[i] == y[i] && !x[i] { OrLow(a, f, i); }
    forall i | 12 <= i < 64 ensures z[i] == x[i] && !y[i] { OrHigh(a, f, i); }
    NumZero(x[..12]);
    NumZero(y[12..]);
  }

  /** The or of a page-aligned address and flags is their sum. */
  lemma OrIsEntry(a: bv64, f: bv64)
    requires a & 0xfff == 0 && f & 0xfff == f
    ensures Value(a | f) == Entry(Value(a), Value(f))
  {
    hide BitAt, Num, Pow2, Bits;
    OrBits(a, f);
    SplitAt(Bits(a), 12);
    SplitAt(Bits(f), 12);
    SplitAt(Bits(a | f), 12);
  }

  // ----- clear_page_flags

  lemma ClearedBit(p: bv64, i: nat)
    requires i < 9 || i == 63
    ensures !BitAt(ClearPageFlags(p), i)
  {
  }

  lemma KeptBit(p: bv64, i: nat)
    requires 9 <= i < 63
    ensures BitAt(ClearPageFlags(p), i) == BitAt(p, i)
  {
    hide BitAt, ClearPageFlags;
    if BitAt(p, i) { KeptSet(p, i); } else { KeptClear(p, i); }
  }

  lemma KeptSet(p: bv64, i: nat)
    requires 9 <= i < 63 && BitAt(p, i)
    ensures BitAt(ClearPageFlags(p), i)
  {
  }

  lemma KeptClear(p: bv64, i: nat)
    requires 9 <= i < 63 && !BitAt(p, i)
    ensures !BitAt(ClearPageFlags(p), i)
  {
  }

  /** clear_page_flags on numbers, as the table construction uses it, is clear_page_flags on bits. */
  lemma ClearFlagsAgree(p: bv64)
    ensures ClearFlags(Value(p)) == Value(ClearPageFlags(p))
  {
    hide BitAt, Num, Pow2, ClearPageFlags;
    var (b, c) := (Bits(p), Bits(ClearPageFlags(p)));
    Powers();
    forall i | 0 <= i < 9 ensures !c[..9][i] { ClearedBit(p, i); }
    ClearedBit(p, 63);
    forall i | 0 <= i < 54 ensures c[9..][..54][i] == b[9..][..54][i] { KeptBit(p, i + 9); }
    assert c[9..][..54] == b[9..][..54] && c[9..][54..] == [false];
    NumZero(c[..9]);
    NumZero(c[9..][54..]);
    SplitAt(b, 9);
    SplitAt(c, 9);
    SplitAt(b[9..], 54);
    SplitAt(c[9..], 54);
    NumBound(b[9..][54..]);
    ClearNumber(Num(b[..9]), Num(b[9..][..54]), Num(b[9..][54..]));
  }

  lemma ClearNumber(low: nat, middle: nat, top: nat)
    requires low < 512 && middle < 0x40_0000_0000_0000
    ensures var v := low + 512 * (middle + 0x40_0000_0000_0000 * top);
      v < TWO64 ==> ClearFlags(v) == 512 * middle
  {
    var v := low + 512 * (middle + 0x40_0000_0000_0000 * top);
    assert v * 2 == top * TWO64 + (low * 2 + 1024 * middle);
    QuotientIs(v * 2, top, low * 2 + 1024 * middle, TWO64);
    QuotientIs(low * 2 + 1024 * middle, middle, low * 2, 1024);
  }

  // ----- flag operations on entries in memory

  lemma FrameBit(p: bv64, i: nat)
    requires 12 <= i < 52
    ensures BitAt(FrameOf(p), i) == BitAt(p, i)
  {
    hide BitAt, FrameOf;
    if BitAt(p, i) { FrameSet(p, i); } else { FrameClear(p, i); }
  }

  lemma FrameSet(p: bv64, i: nat)
    requires 12 <= i < 52 && BitAt(p, i)
    ensures BitAt(FrameOf(p), i)
  {
  }

  lemma FrameClear(p: bv64, i: nat)
    requires 12 <= i < 52 && !BitAt(p, i)
    ensures !BitAt(FrameOf(p), i)
  {
  }

  lemma SameFrameNo(p: bv64, q: bv64)
    requires FrameOf(p) == FrameOf(q)
    ensures FrameNo(p) == FrameNo(q)
  {
    hide BitAt, FrameOf, Num;
    forall i | 12 <= i < 52 ensures Bits(p)[i] == Bits(q)[i] {
      FrameBit(p, i);
      FrameBit(q, i);
    }
    assert Bits(p)[12..52] == Bits(q)[12..52];
  }

  lemma PresentBit(p: bv64)
    ensures AttrOf(p).present <==> BitAt(p, 0)
  {
  }

  lemma PresentValue(p: bv64)
    ensures AttrOf(p).present <==> Present(Value(p))
  {
    hide BitAt, Value, AttrOf;
    PresentBit(p);
    ValueParts(p);
  }

  /** No change of an entry's flags makes it absent or moves it to another frame. */
  lemma OpKeepsTarget(op: FlagOp, p: bv64)
    requires Present(Value(p))
    ensures Present(Value(ApplyOp(op, p))) && Frame(Value(ApplyOp(op, p))) == Frame(Value(p))
  {
    hide ApplyOp, Value, AttrOf, FrameOf, FrameNo, BitAt, Present, Frame;
    var q := ApplyOp(op, p);
    OpMeaning(op, p);
    PresentValue(p);
    PresentValue(q);
    ValueParts(p);
    ValueParts(q);
    SameFrameNo(p, q);
  }

  // ----- the entries the construction leaves

  function FreshBits(): (b: seq<bool>)
    ensures |b| == 12
  {
    [true, true, false, false, false, true, true, false, false, true, false, false]
  }

  lemma FreshNumber()
    ensures Num(FreshBits()) == USER_PAGE_FLAGS
  {
    var (x, y, z) := ([true, true, false, false], [false, true, true, false], [false, true, false, false]);
    FourBits(x);
    FourBits(y);
    FourBits(z);
    assert FreshBits() == x + (y + z);
    NumConcat(x, y + z);
    NumConcat(y, z);
    assert Pow2(4) == 16;
  }

  lemma FourBits(b: seq<bool>)
    requires |b| == 4
    ensures Num(b) ==
      (if b[0] then 1 else 0) + (if b[1] then 2 else 0) + (if b[2] then 4 else 0) + (if b[3] then 8 else 0)
  {
    assert Num(b[4..]) == 0;
    assert b[1..][1..] == b[2..] && b[2..][1..] == b[3..] && b[3..][1..] == b[4..];
    assert Num(b[3..]) == if b[3] then 1 else 0;
    assert Num(b[2..]) == (if b[2] then 1 else 0) + 2 * Num(b[3..]);
    assert Num(b[1..]) == (if b[1] then 1 else 0) + 2 * Num(b[2..]);
  }

  lemma AttrByBits(p: bv64)
    ensures AttrOf(p) == Attr(BitAt(p, 0), BitAt(p, 2), BitAt(p, 1), BitAt(p, 63), BitAt(p, 6), BitAt(p, 9))
  {
  }

  /** A word whose value is a frame's address plus the flags 0x263 is a kernel page marked as written. */
  lemma FreshAttr(p: bv64, base: nat)
    requires base % PAGE_SIZE == 0 && base < 0x10_0000_0000_0000 && Value(p) == Entry(base, USER_PAGE_FLAGS)
    ensures AttrOf(p) == Attr(true, false, true, false, true, true)
  {
    hide BitAt, Num, Pow2, AttrOf;
    var b := Bits(p);
    Powers();
    Quotients(b, 12);
    Quotients(b, 52);
    QuotientIs(Value(p), base / PAGE_SIZE, USER_PAGE_FLAGS, PAGE_SIZE);
    FreshNumber();
    NumInjective(b[..12], FreshBits());
    TopZero(b);
    AttrByBits(p);
    assert b[0] == b[..12][0] && b[1] == b[..12][1] && b[2] == b[..12][2] && b[6] == b[..12][6] && b[9] == b[..12][9];
  }

  lemma TopZero(b: seq<bool>)
    requires |b| == 64 && Num(b[52..]) == 0
    ensures !b[63]
  {
    var z := seq(12, i => false);
    NumZero(z);
    NumInjective(b[52..], z);
    assert b[63] == b[52..][11];
  }
}
