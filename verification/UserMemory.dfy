/** The loops of lib/memory.cpp over level-1 entries, and writes by the kernel, on real arrays. */
module UserMemory {
  import opened Words
  import opened ByteSplice
  import opened PageFlags
  import opened AddressSpace

  function CountDirty(attrs: seq<Attr>, lo: nat, hi: nat): nat
    requires lo <= hi <= |attrs|
  {
    if lo == hi then 0 else CountDirty(attrs, lo, hi - 1) + if attrs[hi - 1].dirty then 1 else 0
  }

  /** Rounding a nonempty range outwards to pages stays inside whole pages. */
  lemma RoundedRange(off: nat, n: nat, total: nat)
    requires n > 0 && off + n <= total && total % PAGE_SIZE == 0
    ensures RoundDown(off, PAGE_SIZE) <= RoundUp(off + n, PAGE_SIZE) <= total
    ensures (KERNEL_BREAK + RoundDown(off, PAGE_SIZE)) % PAGE_SIZE == 0
    ensures (KERNEL_BREAK + RoundUp(off + n, PAGE_SIZE)) % PAGE_SIZE == 0
    ensures RoundDown(off, PAGE_SIZE) / PAGE_SIZE == off / PAGE_SIZE
    ensures RoundUp(off + n, PAGE_SIZE) / PAGE_SIZE == PageEnd(off + n)
  {
  }

  class Memory {
    const bytes: array<u8>
    const pte: array<bv64>
    /** The page frames behind the entries; nothing here ever moves a page. */
    ghost const frames: seq<bv64>
    ghost var space: Space

    /** Every entry means what the abstract space says, and still points to its frame. */
    ghost predicate Entries()
      reads this, pte
    {
      && |space.attrs| == |frames| == pte.Length
      && (forall p :: 0 <= p < pte.Length ==> AttrOf(pte[p]) == space.attrs[p])
      && (forall p :: 0 <= p < pte.Length ==> FrameOf(pte[p]) == frames[p])
    }

    ghost predicate Valid()
      reads this, bytes, pte
    {
      && SpaceOk(space) && |space.attrs| == pte.Length && Entries()
      && VaddrBreak() <= MAX_MEMORY_SIZE
      && bytes[..] == space.bytes
    }

    function VaddrBreak(): nat {
      KERNEL_BREAK + bytes.Length
    }

    /** Addresses the page loops accept. */
    ghost predicate PageRange(start: nat, end: nat) {
      KERNEL_BREAK <= start <= end <= VaddrBreak() && start % PAGE_SIZE == 0 && end % PAGE_SIZE == 0
    }

    function PageNo(addr: nat): nat
      requires KERNEL_BREAK <= addr
    {
      (addr - KERNEL_BREAK) / PAGE_SIZE
    }

    /** The state page construction leaves: kernel pages, all marked as written, whatever they hold. */
    constructor (bytes: array<u8>, pte: array<bv64>)
      requires bytes.Length == pte.Length * PAGE_SIZE && KERNEL_BREAK + bytes.Length <= MAX_MEMORY_SIZE
      requires forall p :: 0 <= p < pte.Length ==> AttrOf(pte[p]) == Attr(true, false, true, false, true, true)
      ensures Valid() && this.bytes == bytes && this.pte == pte && Idle(space)
    {
      hide AttrOf, FrameOf;
      this.bytes := bytes;
      this.pte := pte;
      this.frames := seq(pte.Length, p requires 0 <= p < pte.Length reads pte => FrameOf(pte[p]));
      this.space := Space(bytes[..], seq(pte.Length, p requires 0 <= p < pte.Length reads pte => AttrOf(pte[p])));
    }

    /** One entry changed by its bit formula. */
    method SetEntry(p: nat, op: FlagOp)
      requires Valid() && p < pte.Length
      modifies pte, this`space
      ensures Valid() && space == Flags(old(space), p, p + 1, op)
    {
      hide ApplyOp, AttrOf, FrameOf, ApplyAttr;
      OpMeaning(op, pte[p]);
      ghost var s := space;
      pte[p] := ApplyOp(op, pte[p]);
      space := Flags(s, p, p + 1, op);
    }

    /** The loop shared by the set_page_flags, add_page_flags, clear and set_duck functions. */
    method UpdateFlags(start: nat, end: nat, op: FlagOp)
      requires Valid() && PageRange(start, end)
      modifies pte, this`space
      ensures Valid() && space == Flags(old(space), PageNo(start), PageNo(end), op)
    {
      hide ApplyAttr, Entries;
      ghost var (lo, s) := (PageNo(start), space);
      var addr := start;
      assert Flags(s, lo, lo, op).attrs == s.attrs;
      while addr != end
        invariant addr % PAGE_SIZE == 0 && start <= addr <= end
        invariant Valid() && space == Flags(s, lo, PageNo(addr), op)
        decreases end - addr
      {
        SetEntry(PageNo(addr), op);
        FlagRangeStep(s.attrs, lo, PageNo(addr), op);
        addr := addr + PAGE_SIZE;
      }
    }

    /** memcpy by the kernel into user memory; the processor marks the pages it touches. */
    method Store(addr: nat, data: seq<u8>)
      requires Valid() && KERNEL_BREAK <= addr && addr + |data| <= VaddrBreak()
      modifies bytes, pte, this`space
      ensures Valid() && space == Put(old(space), addr - KERNEL_BREAK, data)
    {
      if data != [] {
        hide Entries, FlagRange, Splice;
        var off := addr - KERNEL_BREAK;
        ghost var s := space;
        TouchedPages(off, |data|);
        UpdateFlags(KERNEL_BREAK + RoundDown(off, PAGE_SIZE), KERNEL_BREAK + RoundUp(off + |data|, PAGE_SIZE), Touch);
        assert space.attrs == Put(s, off, data).attrs;
        Copy(bytes, off, data);
        space := Put(s, off, data);
      }
    }

    /** The pages a nonempty stretch of bytes touches. */
    lemma TouchedPages(off: nat, n: nat)
      requires Valid() && n > 0 && off + n <= bytes.Length
      ensures var start := KERNEL_BREAK + RoundDown(off, PAGE_SIZE);
        var end := KERNEL_BREAK + RoundUp(off + n, PAGE_SIZE);
        PageRange(start, end) && PageNo(start) == off / PAGE_SIZE && PageNo(end) == PageEnd(off + n)
    {
      hide Entries, RoundDown, RoundUp, PageEnd;
      RoundedRange(off, n, bytes.Length);
    }

    /** clear_duck_written_pages: the only clearing between programs. */
    method ClearDuckWrittenPages(start: nat, end: nat)
      requires Valid() && PageRange(start, end)
      modifies bytes, pte, this`space
      ensures Valid() && DuckCleared(old(space), space, PageNo(start), PageNo(end))
    {
      hide ApplyOp, AttrOf, FrameOf, ApplyAttr;
      ghost var (lo, s) := (PageNo(start), space);
      var addr := start;
      while addr != end
        invariant addr % PAGE_SIZE == 0 && start <= addr <= end
        invariant Valid() && DuckCleared(s, space, lo, PageNo(addr))
        decreases end - addr
      {
        ClearOnePage(PageNo(addr));
        addr := addr + PAGE_SIZE;
      }
    }

    /** The body of that loop. */
    method ClearOnePage(p: nat)
      requires Valid() && p < pte.Length
      modifies bytes, pte, this`space
      ensures Valid() && DuckCleared(old(space), space, p, p + 1)
    {
      assert AttrOf(pte[p]) == space.attrs[p];
      hide ApplyAttr, Entries;
      ghost var s := space;
      if pte[p] & PTE_DUCK_WRITTEN != 0 {
        SetEntry(p, ClearDirtyDuck);
        forall i | p * PAGE_SIZE <= i < (p + 1) * PAGE_SIZE {
          bytes[i] := 0;
        }
        space := space.(bytes := bytes[..]);
      }
    }

    /** count_dirty_pages */
    method CountDirtyPages(start: nat, end: nat) returns (ret: nat)
      requires Valid() && PageRange(start, end)
      ensures ret == CountDirty(space.attrs, PageNo(start), PageNo(end))
    {
      ret := 0;
      var addr := start;
      while addr != end
        invariant addr % PAGE_SIZE == 0 && start <= addr <= end
        invariant ret == CountDirty(space.attrs, PageNo(start), PageNo(addr))
        decreases end - addr
      {
        assert AttrOf(pte[PageNo(addr)]) == space.attrs[PageNo(addr)];
        ret := ret + if pte[PageNo(addr)] & PTE_DIRTY != 0 then 1 else 0;
        addr := addr + PAGE_SIZE;
      }
    }
  }
}
