/** Which physical memory may be used, and where the page tables go in it (lib/memory.cpp). */
module PhysicalPages {
  import opened Words

  const ENTRIES: nat := 512
  const KERNEL_PAGES: nat := 2
  /** As many as fit MAX_MEMORY_SIZE. */
  const MAX_N_HUGE_PAGES: nat := 261632

  // ----- the registered pages in order

  /** The numbers of the registered huge pages, ascending. */
  function Regs(map_: seq<bool>): seq<nat> {
    if |map_| == 0 then []
    else Regs(map_[..|map_| - 1]) + if map_[|map_| - 1] then [|map_| - 1] else []
  }

  lemma {:induction false} RegsOrdered(map_: seq<bool>)
    ensures forall i :: 0 <= i < |Regs(map_)| ==> Regs(map_)[i] < |map_| && map_[Regs(map_)[i]]
    ensures forall i, j :: 0 <= i < j < |Regs(map_)| ==> Regs(map_)[i] < Regs(map_)[j]
    ensures |Regs(map_)| <= |map_|
  {
    if |map_| > 0 {
      RegsOrdered(map_[..|map_| - 1]);
    }
  }

  lemma {:induction false} RegsComplete(map_: seq<bool>, p: nat)
    requires p < |map_| && map_[p]
    ensures p in Regs(map_)
  {
    if p < |map_| - 1 {
      RegsComplete(map_[..|map_| - 1], p);
    }
  }

  lemma {:induction false} RegsPrefix(map_: seq<bool>, i: nat)
    requires i <= |map_|
    ensures Regs(map_[..i]) <= Regs(map_)
    ensures |Regs(map_)| <= |Regs(map_[..i])| + |map_| - i
  {
    if i < |map_| {
      RegsPrefix(map_[..|map_| - 1], i);
      assert map_[..|map_| - 1][..i] == map_[..i];
    } else {
      assert map_[..i] == map_;
    }
  }

  lemma {:induction false} RegsSet(map_: seq<bool>, p: nat)
    requires p < |map_| && !map_[p]
    ensures |Regs(map_[p := true])| == |Regs(map_)| + 1
  {
    var last := |map_| - 1;
    if p == last {
      assert map_[p := true][..last] == map_[..last];
    } else {
      assert map_[p := true][..last] == map_[..last][p := true];
      RegsSet(map_[..last], p);
    }
  }

  /** What every list of registered pages satisfies; the first 4 MiB are never registered. */
  ghost predicate RegsOk(regs: seq<nat>) {
    && |regs| <= MAX_N_HUGE_PAGES - KERNEL_PAGES
    && (forall i :: 0 <= i < |regs| ==> KERNEL_PAGES <= regs[i] < MAX_N_HUGE_PAGES)
    && (forall i, j :: 0 <= i < j < |regs| ==> regs[i] < regs[j])
  }

  // ----- room for the tables

  /** Pages set aside for tables when n huge pages are registered. */
  function Reserved(n: nat): nat {
    4 + n + (n * 8 + PAGE_SIZE - 1) / PAGE_SIZE + 2
  }

  /** The same, in whole huge pages. */
  function ReservedHuge(n: nat): (c: nat)
    ensures c >= 1 && Reserved(n) <= 512 * c
  {
    (Reserved(n) + 511) / 512
  }

  /** The tables the construction makes for m huge user pages: one per page, one per started GiB after the first. */
  function TablesFor(m: nat): nat {
    6 + m + (m + 1) / 512
  }

  /** The reserve is the least number of huge pages that hold n + 6 tables and one for each started 512 of n. */
  lemma ReserveIs(n: nat)
    ensures 512 * (ReservedHuge(n) - 1) < n + 6 + (n + 511) / 512 <= 512 * ReservedHuge(n)
  {
    assert (n * 8 + PAGE_SIZE - 1) / PAGE_SIZE == (n + 511) / 512;
  }

  /** The reserve suffices for whatever is left to map. */
  lemma ReserveSuffices(n: nat, k: nat)
    requires k <= n - ReservedHuge(n)
    ensures TablesFor(k) <= 512 * ReservedHuge(n)
  {
    assert (k + 1) / 512 <= (n + 511) / 512;
    assert (n * 8 + PAGE_SIZE - 1) / PAGE_SIZE == (n + 511) / 512;
  }

  /**
   Where init_page_table_break puts the break: behind the huge page that completes the reserve. It only looks at
   the first n huge pages of the machine when n are registered, so it finds none if that page lies higher.
   */
  ghost predicate BreakFound(regs: seq<nat>) {
    var c := ReservedHuge(|regs|);
    c <= |regs| && regs[c - 1] < |regs|
  }

  /** Memory that would do is refused when it starts high: 100 huge pages at 2 GiB. */
  lemma BreakMissed()
    ensures var regs := seq(100, i => 1024 + i);
      RegsOk(regs) && ReservedHuge(100) == 1 && !BreakFound(regs)
  {
  }

  // ----- the j-th table

  /** Address of the j-th page handed out: page j % 512 of registered huge page j / 512. */
  function TableAddr(regs: seq<nat>, j: nat): nat
    requires j / 512 < |regs|
  {
    regs[j / 512] * HUGE_PAGE_SIZE + j % 512 * PAGE_SIZE
  }

  lemma TableAddrFacts(regs: seq<nat>, j: nat)
    requires RegsOk(regs) && j / 512 < |regs|
    ensures TableAddr(regs, j) % PAGE_SIZE == 0 && TableAddr(regs, j) / HUGE_PAGE_SIZE == regs[j / 512]
    ensures KERNEL_BREAK <= TableAddr(regs, j) < MAX_N_HUGE_PAGES * HUGE_PAGE_SIZE
    ensures TableAddr(regs, j) / 8 + ENTRIES <= MAX_N_HUGE_PAGES * (HUGE_PAGE_SIZE / 8)
  {
    var (p, i) := (regs[j / 512], j % 512);
    assert TableAddr(regs, j) == (p * 512 + i) * PAGE_SIZE == p * HUGE_PAGE_SIZE + i * PAGE_SIZE;
    assert p <= MAX_N_HUGE_PAGES - 1 && i * PAGE_SIZE <= HUGE_PAGE_SIZE - PAGE_SIZE;
    assert TableAddr(regs, j) / 8 == (p * 512 + i) * 512;
  }

  /** Different tables share no word. */
  lemma TablesApart(regs: seq<nat>, j: nat, k: nat)
    requires RegsOk(regs) && j / 512 < |regs| && k / 512 < |regs| && j != k
    ensures var (a, b) := (TableAddr(regs, j) / 8, TableAddr(regs, k) / 8);
      a + ENTRIES <= b || b + ENTRIES <= a
  {
    TableAddrFacts(regs, j);
    TableAddrFacts(regs, k);
    var (p, q) := (regs[j / 512], regs[k / 512]);
    assert TableAddr(regs, j) / 8 == p * 0x4_0000 + j % 512 * 512;
    assert TableAddr(regs, k) / 8 == q * 0x4_0000 + k % 512 * 512;
    assert p == q ==> j / 512 == k / 512;
  }

  // ----- registering, the break, and the allocator

  class Pages {
    const hugePageMap: array<bool>
    var nHugePages: nat
    var nextTable: nat
    var tableBreak: nat
    /** Tables handed out so far. */
    ghost var count: nat

    ghost function Registered(): seq<nat>
      reads hugePageMap
    {
      Regs(hugePageMap[..])
    }

    ghost predicate Valid()
      reads this, hugePageMap
    {
      && hugePageMap.Length == MAX_N_HUGE_PAGES
      && !hugePageMap[0] && !hugePageMap[1]
      && nHugePages == |Registered()|
    }

    constructor ()
      ensures Valid() && fresh(hugePageMap) && Registered() == [] && tableBreak == 0
      ensures nextTable == KERNEL_BREAK && count == 0
    {
      hugePageMap := new bool[MAX_N_HUGE_PAGES](_ => false);
      nHugePages, nextTable, tableBreak, count := 0, KERNEL_BREAK, 0, 0;
      new;
      NoneRegistered(hugePageMap[..]);
    }

    /** register_available_huge_page */
    method Register(addr: nat)
      requires Valid() && addr % HUGE_PAGE_SIZE == 0 && addr / HUGE_PAGE_SIZE < MAX_N_HUGE_PAGES
      modifies this`nHugePages, hugePageMap
      ensures Valid()
      ensures forall p :: 0 <= p < MAX_N_HUGE_PAGES ==>
        hugePageMap[p] == (old(hugePageMap[p]) || (p == addr / HUGE_PAGE_SIZE && addr >= KERNEL_BREAK))
    {
      hide Regs;
      if addr < KERNEL_BREAK {
        return;
      }
      var page := addr / HUGE_PAGE_SIZE;
      if !hugePageMap[page] {
        RegsSet(hugePageMap[..], page);
        ghost var was := hugePageMap[..];
        hugePageMap[page] := true;
        assert hugePageMap[..] == was[page := true];
        nHugePages := nHugePages + 1;
      }
    }

    /** init_page_table_break: finds the break exactly under BreakFound, and otherwise leaves it unset. */
    method InitBreak()
      requires Valid() && tableBreak == 0
      modifies this`tableBreak
      ensures Valid()
      ensures var regs := Registered();
        tableBreak == if BreakFound(regs) then (regs[ReservedHuge(|regs|) - 1] + 1) * HUGE_PAGE_SIZE else 0
    {
      hide Reserved, ReservedHuge, Regs;
      ghost var map_ := hugePageMap[..];
      ghost var regs := Regs(map_);
      RegsOrdered(map_);
      var size := PAGE_SIZE * 4;
      size := size + nHugePages * PAGE_SIZE;
      size := size + RoundUp(nHugePages * 8, PAGE_SIZE);
      size := size + PAGE_SIZE * 2;
      size := RoundUp(size, HUGE_PAGE_SIZE);
      ReservedBytes(nHugePages);
      ghost var c := ReservedHuge(nHugePages);
      var (cur, i) := (0, 0);
      RegsStart(map_);
      while i < nHugePages
        invariant 0 <= i <= nHugePages
        invariant cur == |Regs(map_[..i])| * HUGE_PAGE_SIZE < size && tableBreak == 0
      {
        RegsNext(map_, i);
        if hugePageMap[i] {
          cur := cur + HUGE_PAGE_SIZE;
          if cur >= size {
            tableBreak := (i + 1) * HUGE_PAGE_SIZE;
            BreakHere(map_, i);
            return;
          }
        }
        i := i + 1;
      }
      NoBreak(map_, nHugePages);
    }

    /** The state of the allocator after count tables, in terms of the registered pages. */
    ghost predicate Allocating()
      reads this, hugePageMap
    {
      && Valid() && BreakFound(Registered())
      && tableBreak == (Registered()[ReservedHuge(nHugePages) - 1] + 1) * HUGE_PAGE_SIZE
      && count <= 512 * ReservedHuge(nHugePages)
      && NextOk(Registered(), count, nextTable)
    }

    /**
     page_table_alloc: within the reserve the search for a registered huge page ends, the page handed out is the
     next one, and the assertion that it ends below the break holds.
     */
    method Alloc() returns (ret: nat)
      requires Allocating() && count < 512 * ReservedHuge(nHugePages)
      modifies this`nextTable, this`count
      ensures Allocating() && count == old(count) + 1
      ensures old(count) / 512 < |Registered()| && ret == TableAddr(Registered(), old(count))
      ensures ret + PAGE_SIZE <= tableBreak
    {
      hide Regs, Reserved, ReservedHuge, BreakFound, NextOk, Searching, TableAddr;
      ghost var (regs, map_) := (Registered(), hugePageMap[..]);
      BreakReserve(regs);
      RegisteredOk(map_);
      SearchStart(regs, count, nextTable);
      while !hugePageMap[nextTable / HUGE_PAGE_SIZE]
        invariant count == old(count) && Searching(regs, count, nextTable)
          && nextTable / HUGE_PAGE_SIZE < MAX_N_HUGE_PAGES
        decreases MAX_N_HUGE_PAGES * HUGE_PAGE_SIZE - nextTable
      {
        SearchStep(map_, regs, count, nextTable);
        nextTable := nextTable + HUGE_PAGE_SIZE;
      }
      SearchEnd(map_, regs, count, nextTable);
      ret := nextTable;
      nextTable := nextTable + PAGE_SIZE;
      AfterAlloc(regs, count, ret);
      count := count + 1;
      // the assertion at the end of the allocation
      assert nextTable <= tableBreak;
    }
  }

  /** The next page to hand out: inside a huge page, or at the first one not yet looked at. */
  ghost predicate NextOk(regs: seq<nat>, count: nat, next: nat) {
    var q := count / 512;
    if count % 512 != 0 then q < |regs| && next == TableAddr(regs, count)
    else q <= |regs| && next == (if q == 0 then KERNEL_PAGES else regs[q - 1] + 1) * HUGE_PAGE_SIZE
  }

  lemma {:induction false} NoneRegistered(map_: seq<bool>)
    requires forall i :: 0 <= i < |map_| ==> !map_[i]
    ensures Regs(map_) == []
  {
    if |map_| > 0 {
      NoneRegistered(map_[..|map_| - 1]);
    }
  }

  lemma ReservedBytes(n: nat)
    ensures RoundUp(PAGE_SIZE * 4 + n * PAGE_SIZE + RoundUp(n * 8, PAGE_SIZE) + PAGE_SIZE * 2, HUGE_PAGE_SIZE) ==
      ReservedHuge(n) * HUGE_PAGE_SIZE
  {
    var q := (n * 8 + PAGE_SIZE - 1) / PAGE_SIZE;
    assert PAGE_SIZE * 4 + n * PAGE_SIZE + q * PAGE_SIZE + PAGE_SIZE * 2 == Reserved(n) * PAGE_SIZE;
    assert (Reserved(n) * PAGE_SIZE + HUGE_PAGE_SIZE - 1) / HUGE_PAGE_SIZE == (Reserved(n) + 511) / 512;
  }

  lemma RegsStart(map_: seq<bool>)
    ensures Regs(map_[..0]) == []
  {
  }

  lemma RegsNext(map_: seq<bool>, i: nat)
    requires i < |map_|
    ensures Regs(map_[..i + 1]) == Regs(map_[..i]) + if map_[i] then [i] else []
  {
    assert map_[..i + 1][..i] == map_[..i];
  }

  lemma BreakHere(map_: seq<bool>, i: nat)
    requires i < |map_| && map_[i] && i < |Regs(map_)|
    requires |Regs(map_[..i + 1])| == ReservedHuge(|Regs(map_)|)
    ensures BreakFound(Regs(map_)) && Regs(map_)[ReservedHuge(|Regs(map_)|) - 1] == i
  {
    hide Reserved, ReservedHuge, Regs;
    RegsPrefix(map_, i + 1);
    RegsNext(map_, i);
    var c := ReservedHuge(|Regs(map_)|);
    assert Regs(map_)[c - 1] == Regs(map_[..i + 1])[c - 1] == i;
  }

  lemma NoBreak(map_: seq<bool>, n: nat)
    requires n == |Regs(map_)| <= |map_| && |Regs(map_[..n])| < ReservedHuge(n)
    ensures !BreakFound(Regs(map_))
  {
    hide Reserved, ReservedHuge, Regs;
    var (regs, c) := (Regs(map_), ReservedHuge(n));
    RegsOrdered(map_);
    if c <= n && regs[c - 1] < n {
      RankBelow(map_, n, c - 1);
    }
  }

  lemma RankBelow(map_: seq<bool>, n: nat, k: nat)
    requires n <= |map_| && k < |Regs(map_)| && Regs(map_)[k] < n
    ensures k < |Regs(map_[..n])|
  {
    hide Regs;
    RegsOrdered(map_);
    RegsPrefix(map_, n);
    RegsComplete(map_[..n], Regs(map_)[k]);
    var l :| 0 <= l < |Regs(map_[..n])| && Regs(map_[..n])[l] == Regs(map_)[k];
    assert Regs(map_)[l] == Regs(map_)[k];
  }

  lemma BreakReserve(regs: seq<nat>)
    requires BreakFound(regs)
    ensures 1 <= ReservedHuge(|regs|) <= |regs|
  {
  }

  lemma RegisteredOk(map_: seq<bool>)
    requires |map_| == MAX_N_HUGE_PAGES && !map_[0] && !map_[1]
    ensures RegsOk(Regs(map_))
  {
    RegsOrdered(map_);
    var regs := Regs(map_);
    forall i | 0 <= i < |regs| ensures KERNEL_PAGES <= regs[i] {
      assert map_[regs[i]];
    }
    SpreadOut(regs, |regs|);
  }

  lemma {:induction false} SpreadOut(regs: seq<nat>, n: nat)
    requires n <= |regs|
    requires forall i :: 0 <= i < |regs| ==> KERNEL_PAGES <= regs[i] < MAX_N_HUGE_PAGES
    requires forall i, j :: 0 <= i < j < |regs| ==> regs[i] < regs[j]
    ensures n <= MAX_N_HUGE_PAGES - KERNEL_PAGES
    ensures n > 0 ==> n <= regs[n - 1] - KERNEL_PAGES + 1
  {
    if n > 0 {
      SpreadOut(regs, n - 1);
      assert regs[n - 1] < MAX_N_HUGE_PAGES && (n > 1 ==> regs[n - 2] < regs[n - 1]);
    }
  }

  /** On the way to the next registered page, nothing registered has been passed. */
  ghost predicate Searching(regs: seq<nat>, count: nat, next: nat) {
    var q := count / 512;
    && q < |regs|
    && next % HUGE_PAGE_SIZE == count % 512 * PAGE_SIZE
    && next / HUGE_PAGE_SIZE <= regs[q]
    && (if count % 512 != 0 then regs[q] else if q == 0 then KERNEL_PAGES else regs[q - 1] + 1) <= next / HUGE_PAGE_SIZE
  }

  lemma SearchStart(regs: seq<nat>, count: nat, next: nat)
    requires RegsOk(regs) && NextOk(regs, count, next) && count / 512 < |regs|
    ensures Searching(regs, count, next) && next / HUGE_PAGE_SIZE < MAX_N_HUGE_PAGES
  {
    if count % 512 != 0 {
      TableAddrFacts(regs, count);
    }
  }

  lemma RegisteredBetween(map_: seq<bool>, regs: seq<nat>, q: nat, p: nat)
    requires regs == Regs(map_) && RegsOk(regs) && q < |regs| && p <= regs[q]
    requires q == 0 || p > regs[q - 1]
    ensures p < |map_| && (map_[p] <==> p == regs[q])
  {
    hide Regs;
    RegsOrdered(map_);
    if map_[p] {
      RegsComplete(map_, p);
      var k :| 0 <= k < |regs| && regs[k] == p;
      LaterRank(regs, q, k);
    }
  }

  lemma LaterRank(regs: seq<nat>, q: nat, k: nat)
    requires RegsOk(regs) && q < |regs| && k < |regs| && (q == 0 || regs[k] > regs[q - 1])
    ensures k >= q
  {
  }

  lemma SearchStep(map_: seq<bool>, regs: seq<nat>, count: nat, next: nat)
    requires regs == Regs(map_) && RegsOk(regs) && Searching(regs, count, next)
    requires next / HUGE_PAGE_SIZE < |map_| && !map_[next / HUGE_PAGE_SIZE]
    ensures Searching(regs, count, next + HUGE_PAGE_SIZE) && (next + HUGE_PAGE_SIZE) / HUGE_PAGE_SIZE < MAX_N_HUGE_PAGES
  {
    hide Regs;
    var (p, q) := (next / HUGE_PAGE_SIZE, count / 512);
    assert q > 0 ==> regs[q - 1] < regs[q];
    RegisteredBetween(map_, regs, q, p);
    assert (next + HUGE_PAGE_SIZE) / HUGE_PAGE_SIZE == p + 1
      && (next + HUGE_PAGE_SIZE) % HUGE_PAGE_SIZE == next % HUGE_PAGE_SIZE;
  }

  lemma SearchEnd(map_: seq<bool>, regs: seq<nat>, count: nat, next: nat)
    requires regs == Regs(map_) && RegsOk(regs) && Searching(regs, count, next)
    requires next / HUGE_PAGE_SIZE < |map_| && map_[next / HUGE_PAGE_SIZE]
    ensures count / 512 < |regs| && next == TableAddr(regs, count)
  {
    hide Regs;
    var (p, q) := (next / HUGE_PAGE_SIZE, count / 512);
    assert q > 0 ==> regs[q - 1] < regs[q];
    RegisteredBetween(map_, regs, q, p);
    assert next == p * HUGE_PAGE_SIZE + next % HUGE_PAGE_SIZE;
  }

  lemma AfterAlloc(regs: seq<nat>, j: nat, ret: nat)
    requires RegsOk(regs) && 1 <= ReservedHuge(|regs|) <= |regs| && j < 512 * ReservedHuge(|regs|)
    requires j / 512 < |regs| && ret == TableAddr(regs, j)
    ensures NextOk(regs, j + 1, ret + PAGE_SIZE)
    ensures ret + PAGE_SIZE <= (regs[ReservedHuge(|regs|) - 1] + 1) * HUGE_PAGE_SIZE
  {
    hide ReservedHuge;
    var (q, c) := (j / 512, ReservedHuge(|regs|));
    assert q <= c - 1 && regs[q] <= regs[c - 1];
  }
}
