/** The content-addressed store of kern/duck_cache.cpp. */
module DuckCache {
  import opened Words
  import opened ByteSplice
  import opened Digest
  import opened Arena
  import opened CacheState

  // ----- layout of the arena

  /** Bytes taken by the four index arrays, each rounded up to whole pages. */
  function TableSize(nMaxObjects: nat): nat {
    RoundUp(nMaxObjects * 8, PAGE_SIZE) + RoundUp(nMaxObjects * 32, PAGE_SIZE) +
    RoundUp(nMaxObjects * 24, PAGE_SIZE) + RoundUp(nMaxObjects * 8, PAGE_SIZE)
  }

  /** Pages of the arena; init reboots the machine unless the tables leave more than one page. */
  function ArenaPages(nMaxObjects: nat, cacheSize: nat): nat {
    if TableSize(nMaxObjects) + PAGE_SIZE >= cacheSize then 0
    else (cacheSize - TableSize(nMaxObjects) + PAGE_SIZE - 1) / PAGE_SIZE
  }

  /** The four index arrays fit in front of the arena, page-aligned one behind the other, without a page to spare. */
  lemma TablesFit(n: nat)
    ensures var (hash, digest, metadata) := (RoundUp(n * 8, 4096), RoundUp(n * 32, 4096), RoundUp(n * 24, 4096));
      && hash % 4096 == 0 && digest % 4096 == 0 && metadata % 4096 == 0
      && 8 * n <= hash && hash + 32 * n <= hash + digest && hash + digest + 24 * n <= hash + digest + metadata
      && hash + digest + metadata + 8 * n <= TableSize(n) < 72 * n + 4 * 4096
  {
    hide RoundUp;
    RoundUpPage(n * 8);
    RoundUpPage(n * 32);
    RoundUpPage(n * 24);
  }

  lemma RoundUpPage(x: nat)
    ensures RoundUp(x, PAGE_SIZE) % PAGE_SIZE == 0 && x <= RoundUp(x, PAGE_SIZE) < x + PAGE_SIZE
  {
  }

  /** The arena has the pages it takes to reach the end of the cache, at least two. */
  lemma ArenaReaches(n: nat, cacheSize: nat)
    ensures ArenaPages(n, cacheSize) > 0 <==> TableSize(n) + 4096 < cacheSize
    ensures ArenaPages(n, cacheSize) > 0 ==>
      && ArenaPages(n, cacheSize) >= 2
      && TableSize(n) + 4096 * (ArenaPages(n, cacheSize) - 1) < cacheSize
         <= TableSize(n) + 4096 * ArenaPages(n, cacheSize)
  {
    hide TableSize;
  }

  lemma PagesWithinHuge(x: nat)
    ensures RoundUp(x, PAGE_SIZE) <= RoundUp(x, HUGE_PAGE_SIZE)
  {
    var q := (x + HUGE_PAGE_SIZE - 1) / HUGE_PAGE_SIZE;
    assert x <= q * HUGE_PAGE_SIZE == q * 512 * PAGE_SIZE;
    assert (x + PAGE_SIZE - 1) / PAGE_SIZE <= q * 512;
  }

  lemma WholePages(a: nat, r: nat) returns (q: nat)
    requires r > 0
    ensures RoundUp(a, r) == q * r
  {
    q := (a + r - 1) / r;
  }

  lemma TableSizeWholePages(nMaxObjects: nat) returns (q: nat)
    ensures TableSize(nMaxObjects) == q * PAGE_SIZE
  {
    hide RoundUp;
    var a := WholePages(nMaxObjects * 8, PAGE_SIZE);
    var b := WholePages(nMaxObjects * 32, PAGE_SIZE);
    var c := WholePages(nMaxObjects * 24, PAGE_SIZE);
    q := a + b + c + a;
  }

  lemma RoundUpRest(x: nat, q: nat, r: nat)
    requires r > 0 && q * r <= x
    ensures q * r + (x - q * r + r - 1) / r * r == RoundUp(x, r)
  {
    var k := (x - q * r + r - 1) / r;
    assert (q + k) * r == q * r + k * r;
    QuotientIs(x + r - 1, q + k, x + r - 1 - (q + k) * r, r);
  }

  /** The last page may stick out of cacheSize, but never out of the allocation, which comes in huge pages. */
  lemma ArenaFitsAllocation(nMaxObjects: nat, cacheSize: nat)
    requires ArenaPages(nMaxObjects, cacheSize) > 0
    ensures TableSize(nMaxObjects) + ArenaPages(nMaxObjects, cacheSize) * PAGE_SIZE
            <= RoundUp(cacheSize, HUGE_PAGE_SIZE)
  {
    hide RoundUp, TableSize;
    var q := TableSizeWholePages(nMaxObjects);
    RoundUpRest(cacheSize, q, PAGE_SIZE);
    PagesWithinHuge(cacheSize);
  }

  // ----- the arena after init

  ghost function InitialShape(total: nat): Shape {
    Shape(seq(total, k requires 0 <= k < total => k), map[],
          seq(total, p requires 0 <= p < total => Free(total - 1 - p)))
  }

  ghost function InitialView(pages: seq<Page>): View {
    View(pages, [], [], [], InitialShape(|pages|), map[])
  }

  lemma InitialFacts(pages: seq<Page>)
    requires pages != []
    ensures var v := InitialView(pages);
      && v.pages == pages && v.hash == [] && v.digest == [] && v.meta == [] && v.objs == map[]
      && |v.shape.free| == |pages| && HeadOf(v.shape.free) == 0
  {
  }

  lemma InitialCoherent(pages: seq<Page>)
    requires forall p :: 0 <= p < |pages| ==> |pages[p].content| == ONE_PAGE_CONTENT_SIZE
    requires forall p :: 0 <= p < |pages| - 1 ==> pages[p].next == p + 1
    requires pages != [] ==> pages[|pages| - 1].next == NULL
    ensures Coherent(InitialView(pages))
  {
    var s := InitialShape(|pages|);
    forall k | 0 <= k < |s.free|
      ensures pages[s.free[k]].next == HeadOf(s.free[k + 1..])
    {
    }
  }

  /** The loop of init: each page points at the one above it, the last at nothing. */
  method LinkPages(pages: array<Page>, nMaxObjects: nat, cacheSize: nat) returns (nPages: nat)
    requires pages.Length == ArenaPages(nMaxObjects, cacheSize) > 0
    requires forall p :: 0 <= p < pages.Length ==> |pages[p].content| == ONE_PAGE_CONTENT_SIZE
    modifies pages
    ensures nPages == pages.Length
    ensures Coherent(InitialView(pages[..]))
  {
    var addr := TableSize(nMaxObjects);
    nPages := 0;
    while addr + PAGE_SIZE < cacheSize
      invariant addr == TableSize(nMaxObjects) + nPages * PAGE_SIZE
      invariant 0 <= nPages < pages.Length
      invariant forall p :: 0 <= p < pages.Length ==> |pages[p].content| == ONE_PAGE_CONTENT_SIZE
      invariant forall p :: 0 <= p < nPages ==> pages[p].next == p + 1
    {
      pages[nPages] := pages[nPages].(next := nPages + 1);
      addr := addr + PAGE_SIZE;
      nPages := nPages + 1;
    }
    pages[nPages] := pages[nPages].(next := NULL);
    nPages := nPages + 1;
    InitialCoherent(pages[..]);
  }

  // ----- eviction, on values

  ghost function PagesOf(objs: Objects, victims: seq<Digest256>): nat
    requires forall v :: v in victims ==> v in objs
  {
    if victims == [] then 0
    else
      var n := |victims| - 1;
      PagesOf(objs, victims[..n]) + NPages(|objs[victims[n]].data|)
  }

  /** Removing the victims leaves room for need pages and one more entry. */
  ghost predicate Enough(objs: Objects, nFree: nat, nMax: nat, need: nat, victims: seq<Digest256>)
    requires forall v :: v in victims ==> v in objs
  {
    need <= nFree + PagesOf(objs, victims) && |objs| + 1 <= nMax + |victims|
  }

  /** Distinct objects, least recently used first, none of them used after a survivor. */
  ghost predicate LruPrefix(objs: Objects, victims: seq<Digest256>) {
    && Distinct(victims)
    && (forall v :: v in victims ==> v in objs)
    && (forall i, j :: 0 <= i < j < |victims| ==> objs[victims[i]].lastUsed <= objs[victims[j]].lastUsed)
    && (forall v, e :: v in victims && e in objs && e !in victims ==> objs[v].lastUsed <= objs[e].lastUsed)
  }

  /** The shortest sufficient prefix of an order of last use; empty when there is room already. */
  ghost predicate IsEviction(objs: Objects, nFree: nat, nMax: nat, need: nat, victims: seq<Digest256>) {
    && LruPrefix(objs, victims)
    && Enough(objs, nFree, nMax, need, victims)
    && forall k :: 0 <= k < |victims| ==> !Enough(objs, nFree, nMax, need, victims[..k])
  }

  // ----- the standard algorithms store and find rely on

  /** std::lower_bound */
  method LowerBound(a: array<u64>, lo: nat, hi: nat, x: u64) returns (i: nat)
    requires lo <= hi <= a.Length
    requires forall j, k :: lo <= j < k < hi ==> a[j] <= a[k]
    ensures lo <= i <= hi
    ensures forall k :: lo <= k < i ==> a[k] < x
    ensures forall k :: i <= k < hi ==> a[k] >= x
  {
    i := lo;
    var j := hi;
    while i < j
      invariant lo <= i <= j <= hi
      invariant forall k :: lo <= k < i ==> a[k] < x
      invariant forall k :: j <= k < hi ==> a[k] >= x
    {
      var mid := (i + j) / 2;
      if a[mid] < x { i := mid + 1; } else { j := mid; }
    }
  }

  /** std::upper_bound */
  method UpperBound(a: array<u64>, lo: nat, hi: nat, x: u64) returns (i: nat)
    requires lo <= hi <= a.Length
    requires forall j, k :: lo <= j < k < hi ==> a[j] <= a[k]
    ensures lo <= i <= hi
    ensures forall k :: lo <= k < i ==> a[k] <= x
    ensures forall k :: i <= k < hi ==> a[k] > x
  {
    i := lo;
    var j := hi;
    while i < j
      invariant lo <= i <= j <= hi
      invariant forall k :: lo <= k < i ==> a[k] <= x
      invariant forall k :: j <= k < hi ==> a[k] > x
    {
      var mid := (i + j) / 2;
      if a[mid] <= x { i := mid + 1; } else { j := mid; }
    }
  }

  /** find: binary search for the bucket of the first word, then a scan of the bucket. */
  method FindSlot(objHash: array<u64>, objDigest: array<Digest256>, n: nat, digest: Digest256)
    returns (found: bool, idx: nat)
    requires n <= objHash.Length && n <= objDigest.Length && IndexOk(objHash[..n], objDigest[..n])
    ensures Splits(objDigest[..n], idx, digest)
    ensures found <==> digest in objDigest[..n]
    ensures found ==> idx < n && objDigest[idx] == digest
  {
    if n == 0 {
      return false, 0;
    }
    ghost var (hashes, digests) := (objHash[..n], objDigest[..n]);
    forall k | 0 <= k < n
      ensures objHash[k] == digests[k].a0
    {
      assert hashes[k] == digests[k].a0;
    }
    assert forall j, k :: 0 <= j < k < n ==> Less(digests[j], digests[k]);
    var hash := digest.a0;
    var idx1 := LowerBound(objHash, 0, n, hash);
    var idx2 := UpperBound(objHash, idx1, n, hash);
    idx := idx1;
    while idx < idx2
      invariant idx1 <= idx <= idx2
      invariant forall k :: 0 <= k < idx ==> Less(digests[k], digest)
    {
      var r := CmpDigest(objDigest[idx], digest);
      if r >= 0 {
        return r == 0, idx;
      }
      idx := idx + 1;
    }
    found := false;
  }

  /** The copy loop of load: one page per round, the last one cut off at len. The destination is dst from off on. */
  method CopyOut(arena: array<Page>, startAddr: int, dst: array<u8>, off: nat, len: nat, ghost chain: seq<nat>)
    requires len == 0 || off + len <= dst.Length
    requires |chain| == NPages(len) && chain[0] == startAddr
    requires forall k :: 0 <= k < |chain| ==>
      chain[k] < arena.Length && |arena[chain[k]].content| == ONE_PAGE_CONTENT_SIZE
    requires forall k :: 0 <= k < |chain| - 1 ==> arena[chain[k]].next == chain[k + 1]
    modifies dst
    ensures len <= |chain| * ONE_PAGE_CONTENT_SIZE
    ensures dst[..] == Copied(old(dst[..]), off, Bytes(arena[..], chain, len))
  {
    hide Splice, Bytes, NPages;
    NPagesCovers(len);
    ghost var (was, pages) := (dst[..], arena[..]);
    ghost var data := Bytes(pages, chain, len);
    if len == 0 {
      return;
    }
    SpliceEmpty(was, off);
    var addr := startAddr;
    var curLen := 0;
    ghost var (k, done) := (0, 0);
    while curLen < len
      invariant curLen == k * ONE_PAGE_CONTENT_SIZE && 0 <= k <= |chain| && done == Min(curLen, len)
      invariant k < |chain| ==> addr == chain[k]
      invariant dst[..] == Splice(was, off, data[..done])
    {
      var n := Min(len - curLen, ONE_PAGE_CONTENT_SIZE);
      BytesPage(pages, chain, len, k, n);
      Copy(dst, off + curLen, arena[addr].content[..n]);
      SpliceJoin(was, off, data[..done], pages[chain[k]].content[..n]);
      addr := arena[addr].next;
      curLen := curLen + ONE_PAGE_CONTENT_SIZE;
      done := done + n;
      k := k + 1;
    }
    assert data[..done] == data;
  }

  /** The bytes on the k-th page of a chain. */
  lemma BytesPage(pages: seq<Page>, chain: seq<nat>, len: nat, k: nat, n: nat)
    requires k < |chain| && len <= |chain| * ONE_PAGE_CONTENT_SIZE
    requires forall i :: 0 <= i < |chain| ==> chain[i] < |pages| && |pages[chain[i]].content| == ONE_PAGE_CONTENT_SIZE
    requires n == Min(len - k * ONE_PAGE_CONTENT_SIZE, ONE_PAGE_CONTENT_SIZE) && n >= 0
    ensures var (data, at) := (Bytes(pages, chain, len), k * ONE_PAGE_CONTENT_SIZE);
      data[..at] + pages[chain[k]].content[..n] == data[..at + n]
  {
    var (data, at) := (Bytes(pages, chain, len), k * ONE_PAGE_CONTENT_SIZE);
    forall i | at <= i < at + n
      ensures data[i] == pages[chain[k]].content[i - at]
    {
      assert i / ONE_PAGE_CONTENT_SIZE == k && i % ONE_PAGE_CONTENT_SIZE == i - at;
    }
  }

  function Overwrite(content: seq<u8>, src: seq<u8>): seq<u8>
    requires |src| <= |content|
  {
    src + content[|src|..]
  }

  /** The first n bytes of src are in the pages of the chain. */
  ghost predicate Holds(pages: seq<Page>, chain: seq<nat>, src: seq<u8>, n: nat) {
    && n <= |src| && n <= |chain| * ONE_PAGE_CONTENT_SIZE
    && (forall k :: 0 <= k < |chain| ==>
         chain[k] < |pages| && |pages[chain[k]].content| == ONE_PAGE_CONTENT_SIZE)
    && forall i :: 0 <= i < n ==>
         pages[chain[i / ONE_PAGE_CONTENT_SIZE]].content[i % ONE_PAGE_CONTENT_SIZE] == src[i]
  }

  lemma HoldsNextPage(pages: seq<Page>, chain: seq<nat>, src: seq<u8>, k: nat, n: nat)
    requires k < |chain| && Distinct(chain) && Holds(pages, chain, src, k * ONE_PAGE_CONTENT_SIZE)
    requires n == Min(|src| - k * ONE_PAGE_CONTENT_SIZE, ONE_PAGE_CONTENT_SIZE)
    ensures var cur := k * ONE_PAGE_CONTENT_SIZE;
      var page := pages[chain[k]].(content := Overwrite(pages[chain[k]].content, src[cur..cur + n]));
      Holds(pages[chain[k] := page], chain, src, cur + n)
  {
    var cur := k * ONE_PAGE_CONTENT_SIZE;
    var content := Overwrite(pages[chain[k]].content, src[cur..cur + n]);
    var pages' := pages[chain[k] := pages[chain[k]].(content := content)];
    forall i | 0 <= i < cur + n
      ensures pages'[chain[i / ONE_PAGE_CONTENT_SIZE]].content[i % ONE_PAGE_CONTENT_SIZE] == src[i]
    {
      var (q, r) := (i / ONE_PAGE_CONTENT_SIZE, i % ONE_PAGE_CONTENT_SIZE);
      if i < cur {
        assert q < k && chain[q] != chain[k];
      } else {
        assert q == k && r == i - cur;
      }
    }
  }

  /** memcpy into the k-th page of the free chain; returns the address of the next one. */
  method FillPage(arena: array<Page>, addr: int, src: seq<u8>, curLen: nat, n: nat,
                  ghost k: nat, ghost pages0: seq<Page>, ghost s: Shape) returns (next: int)
    requires curLen == k * ONE_PAGE_CONTENT_SIZE
    requires k < |s.free| && addr == HeadOf(s.free[k..]) && FreeLinks(pages0, s)
    requires n == Min(|src| - k * ONE_PAGE_CONTENT_SIZE, ONE_PAGE_CONTENT_SIZE)
    requires SameOutsideFree(pages0, arena[..], s)
    requires Holds(arena[..], s.free, src, curLen)
    modifies arena
    ensures SameOutsideFree(pages0, arena[..], s)
    ensures Holds(arena[..], s.free, src, curLen + n)
    ensures next == HeadOf(s.free[k + 1..])
  {
    ghost var pages := arena[..];
    assert addr == s.free[k] && pages[addr].next == pages0[addr].next;
    HoldsNextPage(pages, s.free, src, k, n);
    var page := arena[addr].(content := Overwrite(arena[addr].content, src[curLen..curLen + n]));
    arena[addr] := page;
    assert arena[..] == pages[s.free[k] := page];
    next := page.next;
  }

  /** The copy loop of store, filling pages from the top of the free chain; returns the first page left over. */
  method CopyIn(arena: array<Page>, startAddr: int, src: seq<u8>, ghost s: Shape) returns (addr: int)
    requires WellFormed(arena[..], s) && NPages(|src|) <= |s.free| && startAddr == HeadOf(s.free)
    modifies arena
    ensures SameOutsideFree(old(arena[..]), arena[..], s)
    ensures addr == HeadOf(s.free[NPages(|src|)..])
    ensures Holds(arena[..], s.free, src, |src|)
  {
    ghost var pages0 := arena[..];
    NPagesCovers(|src|);
    hide WellFormed, Holds, SameOutsideFree, NPages, FreeLinks, HeadOf;
    FreeChain(pages0, s);
    SameAsItself(pages0, s);
    HoldsNothing(pages0, s, src);
    addr := startAddr;
    var curLen := 0;
    ghost var (k, done) := (0, 0);
    assert s.free[0..] == s.free;
    while curLen < |src|
      invariant curLen == k * ONE_PAGE_CONTENT_SIZE && 0 <= k <= NPages(|src|)
      invariant curLen > 0 ==> (k - 1) * ONE_PAGE_CONTENT_SIZE < |src|
      invariant addr == HeadOf(s.free[k..])
      invariant SameOutsideFree(pages0, arena[..], s)
      invariant done == Min(curLen, |src|) && Holds(arena[..], s.free, src, done)
    {
      var n := Min(|src| - curLen, ONE_PAGE_CONTENT_SIZE);
      addr := FillPage(arena, addr, src, curLen, n, k, pages0, s);
      done := curLen + n;
      curLen := curLen + ONE_PAGE_CONTENT_SIZE;
      k := k + 1;
    }
    if |src| == 0 {
      FreeNext(pages0, arena[..], s);
      addr := arena[addr].next;
    }
  }

  lemma SameAsItself(pages: seq<Page>, s: Shape)
    ensures SameOutsideFree(pages, pages, s)
  {
  }

  lemma FreeNext(pages: seq<Page>, pages': seq<Page>, s: Shape)
    requires SameOutsideFree(pages, pages', s) && FreeLinks(pages, s) && s.free != []
    ensures 0 <= HeadOf(s.free[0..]) < |pages'| && pages'[HeadOf(s.free[0..])].next == HeadOf(s.free[1..])
  {
  }

  lemma HoldsNothing(pages: seq<Page>, s: Shape, src: seq<u8>)
    requires FreeLinks(pages, s)
    ensures Holds(pages, s.free, src, 0)
  {
  }

  /** memmove of the tail by one place, then a write into the gap. */
  method InsertAt<T>(a: array<T>, idx: nat, n: nat, x: T)
    requires idx <= n < a.Length
    modifies a
    ensures a[..n + 1] == Inserted(old(a[..n]), idx, x)
  {
    forall k | idx <= k < n {
      a[k + 1] := a[k];
    }
    a[idx] := x;
  }

  lemma LivePositionsStep(meta: seq<Metadata>, i: nat, idx: seq<nat>)
    requires i < |meta| && LivePositions(meta, i, idx)
    ensures LivePositions(meta, i + 1, if meta[i].lastUsedTsc != 0 then idx + [i] else idx)
  {
    if meta[i].lastUsedTsc != 0 {
      var next := idx + [i];
      assert next[|idx|] == i;
      forall x | 0 <= x < i + 1 && meta[x].lastUsedTsc != 0 ensures x in next {
        assert x < i ==> x in idx;
      }
    }
  }

  /** One index array during the defragmentation: the entries kept so far in front, those from i on untouched. */
  ghost predicate Sliding<T>(now: seq<T>, whole: seq<T>, i: nat, idx: seq<nat>) {
    && |now| == |whole| && |idx| <= i <= |whole|
    && now[i..] == whole[i..]
    && Picks(now[..|idx|], whole, idx)
  }

  lemma SkipEntry<T>(now: seq<T>, whole: seq<T>, i: nat, idx: seq<nat>)
    requires i < |whole| && Sliding(now, whole, i, idx)
    ensures Sliding(now, whole, i + 1, idx) && now[i] == whole[i]
  {
    assert now[i] == now[i..][0];
    assert now[i + 1..] == now[i..][1..] == whole[i..][1..];
  }

  /** Moves entry i of one index array down to place j. */
  method KeepEntry<T>(a: array<T>, i: nat, j: nat, n: nat, ghost whole: seq<T>, ghost idx: seq<nat>)
    requires |idx| == j && i < n == |whole| <= a.Length && Sliding(a[..n], whole, i, idx)
    modifies a
    ensures Sliding(a[..n], whole, i + 1, idx + [i])
  {
    ghost var now := a[..n];
    SkipEntry(now, whole, i, idx);
    a[j] := a[i];
    assert a[..n] == now[j := whole[i]];
    assert a[..n][..j + 1] == now[..j] + [whole[i]];
    assert a[..n][i + 1..] == now[i + 1..];
  }

  lemma SlidingStart<T>(whole: seq<T>)
    ensures Sliding(whole, whole, 0, [])
  {
  }

  lemma LivePositionsStart(meta: seq<Metadata>)
    ensures LivePositions(meta, 0, [])
  {
  }

  lemma SlidingEnd<T>(now: seq<T>, whole: seq<T>, idx: seq<nat>)
    requires Sliding(now, whole, |whole|, idx)
    ensures |idx| <= |now| && Picks(now[..|idx|], whole, idx)
  {
  }

  /** Defrag: slides the entries that are not tombstones to the front, in order. */
  method Compact(objHash: array<u64>, objDigest: array<Digest256>, objMetadata: array<Metadata>, n: nat)
    returns (ghost idx: seq<nat>)
    requires n <= objHash.Length && n <= objDigest.Length && n <= objMetadata.Length
    modifies objHash, objDigest, objMetadata
    ensures LivePositions(old(objMetadata[..n]), n, idx)
    ensures Sliding(objHash[..n], old(objHash[..n]), n, idx)
    ensures Sliding(objDigest[..n], old(objDigest[..n]), n, idx)
    ensures Sliding(objMetadata[..n], old(objMetadata[..n]), n, idx)
  {
    hide LivePositions, Sliding;
    ghost var (hash, digest, meta) := (objHash[..n], objDigest[..n], objMetadata[..n]);
    idx := [];
    SlidingStart(hash);
    SlidingStart(digest);
    SlidingStart(meta);
    LivePositionsStart(meta);
    var j := 0;
    for i := 0 to n
      invariant |idx| == j <= i
      invariant LivePositions(meta, i, idx)
      invariant Sliding(objHash[..n], hash, i, idx)
      invariant Sliding(objDigest[..n], digest, i, idx)
      invariant Sliding(objMetadata[..n], meta, i, idx)
    {
      LivePositionsStep(meta, i, idx);
      SkipEntry(objHash[..n], hash, i, idx);
      SkipEntry(objDigest[..n], digest, i, idx);
      SkipEntry(objMetadata[..n], meta, i, idx);
      if objMetadata[i].lastUsedTsc != 0 {
        KeepEntry(objHash, i, j, n, hash, idx);
        KeepEntry(objDigest, i, j, n, digest, idx);
        KeepEntry(objMetadata, i, j, n, meta, idx);
        idx := idx + [i];
        j := j + 1;
      }
    }
  }

  /** The first n ids are a permutation of 0..n: place is its inverse. */
  ghost predicate Permutes(ids: seq<nat>, place: seq<nat>) {
    && |place| == |ids|
    && (forall q :: 0 <= q < |ids| ==> ids[q] < |ids| && place[ids[q]] == q)
    && (forall i :: 0 <= i < |place| ==> place[i] < |ids| && ids[place[i]] == i)
  }

  lemma SwapPermutes(ids: seq<nat>, place: seq<nat>, k: nat)
    requires Permutes(ids, place) && 0 < k < |ids|
    ensures Permutes(ids[k := ids[k - 1]][k - 1 := ids[k]], place[ids[k] := k - 1][ids[k - 1] := k])
  {
  }

  ghost predicate InOrder(meta: seq<Metadata>, x: nat, y: nat) {
    x < |meta| && y < |meta| && meta[x].lastUsedTsc <= meta[y].lastUsedTsc
  }

  ghost predicate SortedByTime(ids: seq<nat>, meta: seq<Metadata>) {
    forall a, b :: 0 <= a < b < |ids| ==> InOrder(meta, ids[a], ids[b])
  }

  /** std::sort by last use. Nothing is promised about the order of equal stamps. */
  method SortByTime(ids: array<nat>, n: nat, meta: array<Metadata>) returns (ghost place: seq<nat>)
    requires n <= ids.Length && n <= meta.Length
    requires forall i :: 0 <= i < n ==> ids[i] == i
    modifies ids
    ensures Permutes(ids[..n], place)
    ensures SortedByTime(ids[..n], meta[..])
  {
    place := seq(n, i => i);
    for i := 0 to n
      invariant Permutes(ids[..n], place)
      invariant SortedByTime(ids[..i], meta[..])
    {
      place := SinkById(ids, i, n, meta, place);
    }
  }

  lemma SortedPrefix(ids: seq<nat>, meta: seq<Metadata>, n: nat, place: seq<nat>)
    requires SortedByTime(ids, meta) && Permutes(ids, place) && |ids| == n <= |meta|
    ensures SortedByTime(ids, meta[..n])
  {
    forall a, b | 0 <= a < b < |ids|
      ensures InOrder(meta[..n], ids[a], ids[b])
    {
      assert InOrder(meta, ids[a], ids[b]);
    }
  }

  /** Among the first i + 1 ids only the one at place k may be out of order with those before it. */
  ghost predicate SortedExcept(ids: seq<nat>, meta: seq<Metadata>, i: nat, k: nat)
    requires i < |ids|
  {
    forall a, b :: 0 <= a < b <= i && b != k ==> InOrder(meta, ids[a], ids[b])
  }

  lemma SwapSorts(ids: seq<nat>, meta: seq<Metadata>, i: nat, k: nat)
    requires 0 < k <= i < |ids| && forall a :: 0 <= a < |ids| ==> ids[a] < |meta|
    requires SortedExcept(ids, meta, i, k) && meta[ids[k]].lastUsedTsc < meta[ids[k - 1]].lastUsedTsc
    ensures SortedExcept(ids[k := ids[k - 1]][k - 1 := ids[k]], meta, i, k - 1)
  {
    var ids' := ids[k := ids[k - 1]][k - 1 := ids[k]];
    forall a, b | 0 <= a < b <= i && b != k - 1
      ensures InOrder(meta, ids'[a], ids'[b])
    {
      assert b > k ==> InOrder(meta, ids[k - 1], ids[b]) && InOrder(meta, ids[k], ids[b]);
    }
  }

  /** The inner loop of the sort: moves ids[i] down to its place among the first i. */
  method SinkById(ids: array<nat>, i: nat, n: nat, meta: array<Metadata>, ghost place0: seq<nat>)
    returns (ghost place: seq<nat>)
    requires i < n <= ids.Length && n <= meta.Length
    requires Permutes(ids[..n], place0) && SortedByTime(ids[..i], meta[..])
    modifies ids
    ensures Permutes(ids[..n], place) && SortedByTime(ids[..i + 1], meta[..])
  {
    place := place0;
    var k := i;
    forall a | 0 <= a < n ensures ids[a] < n { assert ids[..n][a] < n; }
    assert ids[..n][..i] == ids[..i];
    SinkStart(ids[..n], meta[..], i);
    hide Permutes, SortedExcept, SortedByTime;
    while k > 0 && meta[ids[k]].lastUsedTsc < meta[ids[k - 1]].lastUsedTsc
      invariant 0 <= k <= i
      invariant Permutes(ids[..n], place)
      invariant forall a :: 0 <= a < n ==> ids[a] < n
      invariant SortedExcept(ids[..n], meta[..], i, k)
    {
      ghost var ids0 := ids[..n];
      PermutesBounds(ids0, place);
      SwapPermutes(ids0, place, k);
      SwapSorts(ids0, meta[..], i, k);
      place := place[ids[k] := k - 1][ids[k - 1] := k];
      ids[k], ids[k - 1] := ids[k - 1], ids[k];
      assert ids[..n] == ids0[k := ids0[k - 1]][k - 1 := ids0[k]];
      k := k - 1;
    }
    SinkEnd(ids[..n], meta[..], i, k);
    assert ids[..n][..i + 1] == ids[..i + 1];
  }

  lemma PermutesBounds(ids: seq<nat>, place: seq<nat>)
    requires Permutes(ids, place)
    ensures |place| == |ids| && forall q :: 0 <= q < |ids| ==> ids[q] < |ids|
  {
  }

  lemma SinkStart(ids: seq<nat>, meta: seq<Metadata>, i: nat)
    requires i < |ids| && SortedByTime(ids[..i], meta)
    ensures SortedExcept(ids, meta, i, i)
  {
    forall a, b | 0 <= a < b < i
      ensures InOrder(meta, ids[a], ids[b])
    {
      assert InOrder(meta, ids[..i][a], ids[..i][b]);
    }
  }

  lemma SinkEnd(ids: seq<nat>, meta: seq<Metadata>, i: nat, k: nat)
    requires k <= i < |ids| && SortedExcept(ids, meta, i, k)
    requires forall a :: 0 <= a < |ids| ==> ids[a] < |meta|
    requires k > 0 ==> meta[ids[k]].lastUsedTsc >= meta[ids[k - 1]].lastUsedTsc
    ensures SortedByTime(ids[..i + 1], meta)
  {
    var part := ids[..i + 1];
    forall a, b | 0 <= a < b < |part|
      ensures InOrder(meta, part[a], part[b])
    {
      assert b != k ==> InOrder(meta, ids[a], ids[b]);
      assert b == k && a < k - 1 ==> InOrder(meta, ids[a], ids[k - 1]);
    }
  }

  // ----- the victims of the eviction loop

  /** The digests of the first k entries in sorted order. */
  ghost function VictimsOf(digest: seq<Digest256>, ids: seq<nat>, k: nat): (v: seq<Digest256>)
    requires k <= |ids| && forall q :: 0 <= q < |ids| ==> ids[q] < |digest|
    ensures |v| == k && forall q :: 0 <= q < k ==> v[q] == digest[ids[q]]
  {
    seq(k, q requires 0 <= q < k => digest[ids[q]])
  }

  /** The entries are exactly the objects, each with its stamp. */
  ghost predicate Lists(digest: seq<Digest256>, meta: seq<Metadata>, objs: Objects) {
    && |digest| == |meta| && Distinct(digest)
    && (forall d :: d in objs <==> d in digest)
    && (forall i :: 0 <= i < |digest| ==> objs[digest[i]].lastUsed == meta[i].lastUsedTsc)
  }

  lemma LiveLists(v: View)
    requires Coherent(v) && AllLive(v.meta)
    ensures Lists(v.digest, v.meta, v.objs) && |v.objs| == |v.digest| == |v.meta|
  {
    LiveCount(v);
    SortedDistinct(v.digest);
    forall i | 0 <= i < |v.digest|
      ensures v.objs[v.digest[i]].lastUsed == v.meta[i].lastUsedTsc
    {
      assert EntryOk(v.pages, v.shape, v.objs, v.digest[i], v.meta[i]);
    }
  }

  lemma VictimsLru(digest: seq<Digest256>, meta: seq<Metadata>, objs: Objects, ids: seq<nat>, place: seq<nat>, k: nat)
    requires Lists(digest, meta, objs)
    requires |ids| == |digest| && Permutes(ids, place) && SortedByTime(ids, meta) && k <= |ids|
    ensures LruPrefix(objs, VictimsOf(digest, ids, k))
  {
    var victims := VictimsOf(digest, ids, k);
    forall i, j | 0 <= i < j < k
      ensures victims[i] != victims[j] && objs[victims[i]].lastUsed <= objs[victims[j]].lastUsed
    {
      assert InOrder(meta, ids[i], ids[j]) && place[ids[i]] == i && place[ids[j]] == j;
    }
    forall v, e | v in victims && e in objs && e !in victims
      ensures objs[v].lastUsed <= objs[e].lastUsed
    {
      var q :| 0 <= q < k && victims[q] == v;
      var i :| 0 <= i < |digest| && digest[i] == e;
      assert ids[place[i]] == i && place[i] >= k;
      assert InOrder(meta, ids[q], ids[place[i]]);
    }
  }

  lemma VictimsExhaust(digest: seq<Digest256>, meta: seq<Metadata>, objs: Objects, ids: seq<nat>, place: seq<nat>)
    requires Lists(digest, meta, objs) && |ids| == |digest| && Permutes(ids, place)
    ensures objs - Elements(VictimsOf(digest, ids, |ids|)) == map[]
  {
    var victims := VictimsOf(digest, ids, |ids|);
    forall e | e in objs
      ensures e in victims
    {
      var i :| 0 <= i < |digest| && digest[i] == e;
      assert victims[place[i]] == e;
    }
  }

  lemma WithoutOneMore(objs: Objects, v: seq<Digest256>, d: Digest256)
    ensures objs - Elements(v + [d]) == objs - Elements(v) - {d}
  {
    assert Elements(v + [d]) == Elements(v) + {d};
  }

  /** An eviction in progress, as seen when it starts: the entries, and the order they are visited in. */
  datatype Eviction = Eviction(digest: seq<Digest256>, meta: seq<Metadata>, objs: Objects,
                                     ids: seq<nat>, place: seq<nat>, nFree: nat, nMax: nat, need: nat)
  {
    ghost predicate Ok() {
      && Lists(digest, meta, objs) && |objs| == |digest| == |ids|
      && Permutes(ids, place) && SortedByTime(ids, meta)
    }

    ghost function Victims(k: nat): (v: seq<Digest256>)
      requires Ok() && k <= |ids|
      ensures |v| == k
    {
      VictimsOf(digest, ids, k)
    }

    lemma VictimsAreObjects(k: nat)
      requires Ok() && k <= |ids|
      ensures forall v :: v in Victims(k) ==> v in objs
    {
    }

    ghost predicate EnoughAfter(k: nat)
      requires Ok() && k <= |ids|
    {
      VictimsAreObjects(k);
      Enough(objs, nFree, nMax, need, Victims(k))
    }

    /** k objects are gone, and none of the shorter prefixes was enough. */
    ghost predicate Progress(k: nat, objsNow: Objects, metaNow: seq<Metadata>, nFreeNow: nat, nRemovedPages: nat)
      requires Ok()
    {
      && k <= |ids| && |metaNow| == |meta|
      && objsNow == objs - Elements(Victims(k))
      && (VictimsAreObjects(k); nRemovedPages == PagesOf(objs, Victims(k)))
      && nFreeNow == nFree + nRemovedPages
      && (forall q :: k <= q < |ids| ==> metaNow[ids[q]] == meta[ids[q]])
      && (forall j :: 0 <= j < k ==> !EnoughAfter(j))
    }

    lemma Start()
      requires Ok() && (need > nFree || |digest| + 1 > nMax)
      ensures Progress(0, objs, meta, nFree, 0) && !EnoughAfter(0)
    {
      assert objs - Elements(Victims(0)) == objs;
    }

    /** The next victim is still there, with its stamp. */
    lemma Current(k: nat, objsNow: Objects, metaNow: seq<Metadata>, nFreeNow: nat, nRemovedPages: nat)
      requires Ok() && Progress(k, objsNow, metaNow, nFreeNow, nRemovedPages) && k < |ids|
      ensures ids[k] < |digest| && digest[ids[k]] in objs && digest[ids[k]] in objsNow
      ensures objsNow[digest[ids[k]]] == objs[digest[ids[k]]] && metaNow[ids[k]] == meta[ids[k]]
    {
      assert place[ids[k]] == k;
      forall q | 0 <= q < k
        ensures digest[ids[q]] != digest[ids[k]]
      {
        assert place[ids[q]] == q;
      }
    }

    lemma NextVictims(k: nat)
      requires Ok() && k < |ids|
      ensures Victims(k + 1) == Victims(k) + [digest[ids[k]]]
      ensures forall v :: v in Victims(k + 1) ==> v in objs
      ensures PagesOf(objs, Victims(k + 1)) == PagesOf(objs, Victims(k)) + NPages(|objs[digest[ids[k]]].data|)
    {
      var (v, d) := (Victims(k), digest[ids[k]]);
      assert Victims(k + 1) == v + [d] && (v + [d])[..k] == v;
    }

    lemma OthersKeepMeta(k: nat, metaNow: seq<Metadata>, m: Metadata)
      requires Ok() && k < |ids| && |metaNow| == |meta|
      requires forall q :: k <= q < |ids| ==> metaNow[ids[q]] == meta[ids[q]]
      ensures forall q :: k + 1 <= q < |ids| ==> metaNow[ids[k] := m][ids[q]] == meta[ids[q]]
    {
      forall q | k < q < |ids|
        ensures ids[q] != ids[k]
      {
        assert place[ids[q]] == q && place[ids[k]] == k;
      }
    }

    lemma NextEnough(k: nat)
      requires Ok() && k < |ids|
      ensures EnoughAfter(k + 1) <==>
        && need <= nFree + PagesOf(objs, Victims(k)) + NPages(|objs[digest[ids[k]]].data|)
        && |digest| + 1 <= nMax + k + 1
    {
      NextVictims(k);
    }

    /** Taking one more victim. */
    lemma Next(k: nat, objsNow: Objects, metaNow: seq<Metadata>, nFreeNow: nat, nRemovedPages: nat)
      requires Ok() && Progress(k, objsNow, metaNow, nFreeNow, nRemovedPages) && k < |ids| && !EnoughAfter(k)
      ensures var (d, n) := (digest[ids[k]], NPages(|objs[digest[ids[k]]].data|));
        && Progress(k + 1, objsNow - {d}, metaNow[ids[k] := metaNow[ids[k]].(lastUsedTsc := 0)],
                    nFreeNow + n, nRemovedPages + n)
        && (EnoughAfter(k + 1) <==> need <= nFree + nRemovedPages + n && |digest| + 1 <= nMax + k + 1)
    {
      NextEnough(k);
      NextVictims(k);
      WithoutOneMore(objs, Victims(k), digest[ids[k]]);
      OthersKeepMeta(k, metaNow, metaNow[ids[k]].(lastUsedTsc := 0));
      hide Permutes, SortedByTime, VictimsOf, Distinct, EnoughAfter;
    }

    lemma Finish(k: nat, objsNow: Objects, metaNow: seq<Metadata>, nFreeNow: nat, nRemovedPages: nat)
      requires Ok() && Progress(k, objsNow, metaNow, nFreeNow, nRemovedPages) && EnoughAfter(k)
      ensures IsEviction(objs, nFree, nMax, need, Victims(k)) && nFreeNow == nFree + nRemovedPages
      ensures objsNow == objs - Elements(Victims(k)) && need <= nFreeNow
      ensures nRemovedPages == PagesOf(objs, Victims(k))
    {
      VictimsLru(digest, meta, objs, ids, place, k);
      forall j | 0 <= j < k
        ensures !Enough(objs, nFree, nMax, need, Victims(k)[..j])
      {
        assert !EnoughAfter(j) && Victims(k)[..j] == Victims(j);
      }
    }

    /** With every object gone the whole arena is free. */
    lemma Exhausted(pages: seq<Page>, s: Shape, objsNow: Objects, metaNow: seq<Metadata>, nRemovedPages: nat)
      requires Ok() && Progress(|ids|, objsNow, metaNow, |s.free|, nRemovedPages)
      requires WellFormed(pages, s) && s.chains.Keys == objsNow.Keys && need <= |pages| && nMax >= 1
      ensures EnoughAfter(|ids|)
    {
      VictimsExhaust(digest, meta, objs, ids, place);
      AllFree(s, |pages|);
    }
  }

  /** The new entry in the index and its bytes in the pages, together. */
  lemma FilledAndStored(v: View, i: nat, d: Digest256, now: nat, data: seq<u8>, pages: seq<Page>)
    requires Coherent(v) && AllLive(v.meta) && i <= |v.hash| == |v.digest| == |v.meta|
    requires d !in v.objs && Splits(v.digest, i, d) && now != 0
    requires NPages(|data|) <= |v.shape.free|
    requires SameOutsideFree(v.pages, pages, v.shape) && Holds(pages, v.shape.free, data, |data|)
    ensures var w := Stored(v.(pages := pages), i, d, now, data);
      AllLive(w.meta) && Coherent(w)
  {
    FreeContentsFrame(v, pages);
    NPagesCovers(|data|);
    assert data == Bytes(pages, v.shape.free[..NPages(|data|)], |data|);
    hide WellFormed, Coherent, SameOutsideFree;
    StoredCoherent(v.(pages := pages), i, d, now, data);
  }

  lemma NoEviction(objs: Objects, nFree: nat, nMax: nat, need: nat)
    requires need <= nFree && |objs| + 1 <= nMax
    ensures IsEviction(objs, nFree, nMax, need, []) && objs - Elements([]) == objs
  {
  }

  /** How many objects an eviction leaves. */
  lemma EvictionFacts(objs: Objects, nFree: nat, nMax: nat, need: nat, victims: seq<Digest256>)
    requires IsEviction(objs, nFree, nMax, need, victims)
    ensures |objs - Elements(victims)| == |objs| - |victims| && |objs| + 1 <= nMax + |victims|
  {
    DistinctSize(victims);
    assert (objs - Elements(victims)).Keys == objs.Keys - Elements(victims);
    assert Elements(victims) <= objs.Keys;
  }

  method BlankPages(n: nat) returns (pages: array<Page>)
    ensures fresh(pages) && pages.Length == n
    ensures forall p :: 0 <= p < n ==> |pages[p].content| == ONE_PAGE_CONTENT_SIZE
  {
    var blank := seq(ONE_PAGE_CONTENT_SIZE, _ => 0 as u8);
    pages := new Page[n](_ => Page(NULL, blank));
  }

  class Cache {
    var nMaxObjects: nat
    var nCurObjects: nat
    var freeListAddr: int
    var nFreePages: nat
    var nTotalPages: nat
    var objHash: array<u64>
    var objDigest: array<Digest256>
    var objMetadata: array<Metadata>
    var sortIds: array<nat>
    var arena: array<Page>

    /** The state as values, with the chains threaded through the arena and the map the cache stands for. */
    ghost var view: View

    /** The arrays hold what the view says. */
    ghost predicate Represents()
      reads this, objHash, objDigest, objMetadata, sortIds, arena
    {
      && objHash.Length == objDigest.Length == objMetadata.Length == sortIds.Length == nMaxObjects
      && objHash as object != sortIds as object
      && nCurObjects <= nMaxObjects && nMaxObjects >= 1
      && arena.Length == nTotalPages && arena[..] == view.pages
      && objHash[..nCurObjects] == view.hash
      && objDigest[..nCurObjects] == view.digest
      && objMetadata[..nCurObjects] == view.meta
      && freeListAddr == HeadOf(view.shape.free)
    }

    /** Holds throughout, also between the eviction loop and the end of the defragmentation. */
    ghost predicate Inv()
      reads this, objHash, objDigest, objMetadata, sortIds, arena
    {
      Represents() && Coherent(view)
    }

    ghost predicate Valid()
      reads this, objHash, objDigest, objMetadata, sortIds, arena
    {
      Inv() && AllLive(view.meta) && nFreePages == |view.shape.free|
    }

    /** The bounded map this cache stands for. */
    ghost function Objects(): map<Digest256, Object>
      reads this
    {
      view.objs
    }

    /** init, after the allocation of virtual memory: links all pages into one free chain. */
    constructor (nMaxObjects: nat, cacheSize: nat)
      requires nMaxObjects >= 1
      requires ArenaPages(nMaxObjects, cacheSize) > 0
      ensures Valid() && Objects() == map[]
      ensures this.nMaxObjects == nMaxObjects
      ensures nTotalPages == nFreePages == ArenaPages(nMaxObjects, cacheSize)
      ensures fresh(objHash) && fresh(objDigest) && fresh(objMetadata) && fresh(sortIds) && fresh(arena)
    {
      hide Coherent, ArenaPages, TableSize, RoundUp, InitialView, HeadOf;
      var total := ArenaPages(nMaxObjects, cacheSize);
      this.nMaxObjects := nMaxObjects;
      nCurObjects := 0;
      freeListAddr := 0;
      objHash := new u64[nMaxObjects];
      objDigest := new Digest256[nMaxObjects];
      objMetadata := new Metadata[nMaxObjects];
      sortIds := new nat[nMaxObjects];
      var pages := BlankPages(total);
      arena := pages;
      new;
      var nPages := LinkPages(arena, nMaxObjects, cacheSize);
      nFreePages := nPages;
      nTotalPages := nPages;
      view := InitialView(arena[..]);
      InitialFacts(arena[..]);
    }

    lemma LiveSizes()
      requires Valid()
      ensures |view.objs| == nCurObjects && forall d :: d in view.digest <==> d in view.objs
    {
      LiveCount(view);
    }

    lemma EntryFacts(idx: nat)
      requires Valid() && idx < nCurObjects
      ensures idx < |view.meta| == |view.digest| && arena[..] == view.pages
      ensures objMetadata.Length == nMaxObjects >= nCurObjects && objMetadata[idx] == view.meta[idx]
      ensures objDigest.Length == nMaxObjects && objDigest[idx] == view.digest[idx]
      ensures view.meta[idx].lastUsedTsc != 0
    {
    }

    /** find, on the live entries. */
    method Find(digest: Digest256) returns (found: bool, idx: nat)
      requires Inv()
      ensures Splits(view.digest, idx, digest)
      ensures found <==> digest in view.digest
      ensures found ==> idx < nCurObjects && objDigest[idx] == digest
    {
      CoherentSizes(view);
      hide Coherent, IndexOk, WellFormed;
      found, idx := FindSlot(objHash, objDigest, nCurObjects, digest);
    }

    /** load finds an object only under its exact length. */
    ghost predicate Hits(digest: Digest256, requiredLen: nat)
      reads this
    {
      digest in Objects() && |Objects()[digest].data| == requiredLen
    }

    method Contains(digest: Digest256) returns (found: bool)
      requires Valid()
      ensures found <==> digest in Objects()
    {
      hide Coherent, WellFormed, AllLive, Represents;
      LiveSizes();
      var idx;
      found, idx := Find(digest);
    }

    /** The first half of load. */
    method Lookup(digest: Digest256, requiredLen: nat) returns (hit: bool, idx: nat)
      requires Valid()
      ensures hit <==> Hits(digest, requiredLen)
      ensures hit ==> idx < nCurObjects && idx < objDigest.Length && objDigest[idx] == digest
    {
      hide Coherent, WellFormed, AllLive, Represents;
      LiveSizes();
      hit, idx := Find(digest);
      if !hit {
        return;
      }
      EntryFacts(idx);
      LiveEntry(view, idx);
      hit := objMetadata[idx].len == requiredLen;
    }

    /** load: a hit stamps the object and copies out its bytes to dst from off on, which it must fit. */
    method Load(digest: Digest256, dst: array<u8>, off: nat, requiredLen: nat, now: nat) returns (ok: bool)
      requires Valid() && now != 0
      requires Hits(digest, requiredLen) ==> requiredLen == 0 || off + requiredLen <= dst.Length
      modifies objMetadata, dst, this`view
      ensures Valid()
      ensures ok <==> old(Hits(digest, requiredLen))
      ensures dst[..] == if ok then Copied(old(dst[..]), off, old(Objects())[digest].data) else old(dst[..])
      ensures Objects() == if ok then old(Objects())[digest := old(Objects())[digest].(lastUsed := now)]
                           else old(Objects())
    {
      hide Coherent, WellFormed, AllLive, Bytes, Represents;
      ghost var v := view;
      var idx;
      ok, idx := Lookup(digest, requiredLen);
      if !ok {
        return;
      }
      LiveSizes();
      CoherentSizes(v);
      EntryFacts(idx);
      var metadata := objMetadata[idx];
      LiveEntry(v, idx);
      Stamp(idx, now);
      EntryFacts(idx);
      CopyOut(arena, metadata.startAddr, dst, off, requiredLen, v.shape.chains[digest]);
    }

    /** Updates the last use of an entry. */
    method Stamp(idx: nat, now: nat)
      requires Valid() && idx < nCurObjects && now != 0
      modifies objMetadata, this`view
      ensures Valid() && |old(view).digest| == |old(view).meta| == nCurObjects
      ensures view.digest[idx] in old(view).objs && view == Touched(old(view), idx, now)
    {
      hide Coherent, WellFormed, AllLive, HeadOf, Touched;
      ghost var v := view;
      LiveAt(v, idx);
      TouchedCoherent(v, idx, now);
      TouchedParts(v, idx, now);
      objMetadata[idx] := objMetadata[idx].(lastUsedTsc := now);
      view := Touched(v, idx, now);
      assert objMetadata[..nCurObjects] == v.meta[idx := v.meta[idx].(lastUsedTsc := now)];
    }

    /** Gives the pages of entry id back, on top of the free chain, and makes the entry a tombstone. */
    method ReleaseObject(id: nat) returns (nPages: nat)
      requires Inv() && id < nCurObjects && objMetadata[id].lastUsedTsc != 0
      modifies objMetadata, arena, this`freeListAddr, this`view
      ensures Inv() && Evictable(old(view), id) && view == Evicted(old(view), id)
      ensures view.digest[id] in old(view).objs && nPages == NPages(|old(view).objs[view.digest[id]].data|)
      ensures |view.shape.free| == |old(view).shape.free| + nPages
    {
      hide Coherent, WellFormed;
      ghost var v := view;
      CoherentSizes(v);
      var metadata := objMetadata[id];
      assert metadata == v.meta[id];
      LiveEntry(v, id);
      ghost var chain := v.shape.chains[v.digest[id]];
      nPages := NPages(metadata.len);
      objMetadata[id] := metadata.(lastUsedTsc := 0);
      var addr := metadata.startAddr;
      for pageId := 1 to nPages
        invariant addr == chain[pageId - 1]
      {
        addr := arena[addr].next;
      }
      EvictedCoherent(v, id);
      arena[addr] := arena[addr].(next := freeListAddr);
      freeListAddr := metadata.startAddr;
      view := Evicted(v, id);
    }

    /** Sorts the entry numbers by last use. */
    method SortIds() returns (ghost place: seq<nat>)
      requires Represents() && |view.meta| == |view.digest|
      modifies sortIds
      ensures Represents()
      ensures Permutes(sortIds[..nCurObjects], place)
      ensures SortedByTime(sortIds[..nCurObjects], view.meta)
    {
      for i := 0 to nCurObjects
        invariant forall k :: 0 <= k < i ==> sortIds[k] == k
        modifies sortIds
      {
        sortIds[i] := i;
      }
      place := SortByTime(sortIds, nCurObjects, objMetadata);
      SortedPrefix(sortIds[..nCurObjects], objMetadata[..], nCurObjects, place);
      hide Permutes, SortedByTime;
      assert objMetadata[..][..nCurObjects] == view.meta;
    }

    /** Sorts the entries and records where the eviction starts from. */
    method BeginEviction(nNeedPages: nat) returns (ghost e: Eviction)
      requires Valid()
      requires nNeedPages > nFreePages || nCurObjects + 1 > nMaxObjects
      modifies sortIds
      ensures Inv() && e.Ok() && |e.ids| == nCurObjects && AllLive(e.meta)
      ensures e.ids == sortIds[..nCurObjects] && e.digest == view.digest && e.objs == view.objs
      ensures e.need == nNeedPages && e.nFree == nFreePages && e.nMax == nMaxObjects
      ensures e.Progress(0, view.objs, view.meta, |view.shape.free|, 0) && !e.EnoughAfter(0)
    {
      LiveLists(view);
      hide Coherent, WellFormed;
      ghost var place := SortIds();
      e := Eviction(view.digest, view.meta, view.objs, sortIds[..nCurObjects], place,
                    nFreePages, nMaxObjects, nNeedPages);
      e.Start();
      hide Eviction.Progress, Eviction.EnoughAfter, Eviction.Ok;
    }

    /** One round of the eviction loop. */
    method EvictNext(k: nat, nRemovedPages: nat, ghost e: Eviction) returns (nPages: nat)
      requires Inv() && k < nCurObjects && e.Ok() && |e.ids| == nCurObjects && !e.EnoughAfter(k)
      requires e.ids == sortIds[..nCurObjects] && e.digest == view.digest && AllLive(e.meta)
      requires e.Progress(k, view.objs, view.meta, |view.shape.free|, nRemovedPages)
      modifies objMetadata, arena, this`freeListAddr, this`view
      ensures Inv() && view.digest == old(view).digest
      ensures e.Progress(k + 1, view.objs, view.meta, |view.shape.free|, nRemovedPages + nPages)
      ensures e.EnoughAfter(k + 1) <==>
              e.need <= e.nFree + nRemovedPages + nPages && nCurObjects + 1 <= e.nMax + k + 1
    {
      hide Coherent, WellFormed;
      ghost var v := view;
      var id := sortIds[k];
      assert id == e.ids[k];
      e.Current(k, v.objs, v.meta, |v.shape.free|, nRemovedPages);
      assert objMetadata[id] == v.meta[id] == e.meta[id];
      e.Next(k, v.objs, v.meta, |v.shape.free|, nRemovedPages);
      hide Eviction.Progress, Eviction.EnoughAfter, Eviction.Ok;
      nPages := ReleaseObject(id);
    }

    lemma InvShape()
      requires Inv()
      ensures WellFormed(view.pages, view.shape) && view.shape.chains.Keys == view.objs.Keys
      ensures |view.pages| == nTotalPages && nMaxObjects >= 1
    {
    }

    /** The rounds of the eviction loop. */
    method EvictRounds(ghost e: Eviction, nNeedPages: nat) returns (nRemovedObjects: nat, nRemovedPages: nat)
      requires Inv() && e.Ok() && |e.ids| == nCurObjects && AllLive(e.meta) && nNeedPages <= nTotalPages
      requires e.ids == sortIds[..nCurObjects] && e.digest == view.digest
      requires e.need == nNeedPages && e.nFree == nFreePages && e.nMax == nMaxObjects
      requires e.Progress(0, view.objs, view.meta, |view.shape.free|, 0) && !e.EnoughAfter(0)
      modifies objMetadata, arena, this`freeListAddr, this`view
      ensures Inv()
      ensures e.Progress(nRemovedObjects, view.objs, view.meta, |view.shape.free|, nRemovedPages)
      ensures nRemovedObjects <= nCurObjects && e.EnoughAfter(nRemovedObjects)
    {
      hide Coherent, WellFormed, Eviction.Progress, Eviction.EnoughAfter, Eviction.Ok;
      nRemovedObjects, nRemovedPages := 0, 0;
      for i := 0 to nCurObjects
        invariant Inv() && nRemovedObjects == i && !e.EnoughAfter(i) && view.digest == e.digest
        invariant e.Progress(i, view.objs, view.meta, |view.shape.free|, nRemovedPages)
      {
        var nPages := EvictNext(i, nRemovedPages, e);
        nRemovedObjects := nRemovedObjects + 1;
        nRemovedPages := nRemovedPages + nPages;
        if !(nNeedPages > nFreePages + nRemovedPages) && !(nCurObjects + 1 > nMaxObjects + nRemovedObjects) {
          return;
        }
      }
      InvShape();
      e.Exhausted(view.pages, view.shape, view.objs, view.meta, nRemovedPages);
    }

    /** The eviction loop: releases objects in the order of last use until there is room. */
    method Evict(nNeedPages: nat) returns (nRemovedObjects: nat, nRemovedPages: nat, ghost victims: seq<Digest256>)
      requires Valid() && nNeedPages <= nTotalPages
      requires nNeedPages > nFreePages || nCurObjects + 1 > nMaxObjects
      modifies sortIds, objMetadata, arena, this`freeListAddr, this`view
      ensures Inv()
      ensures IsEviction(old(Objects()), nFreePages, nMaxObjects, nNeedPages, victims)
      ensures Objects() == old(Objects()) - Elements(victims)
      ensures |victims| == nRemovedObjects <= nCurObjects
      ensures |view.shape.free| == nFreePages + nRemovedPages >= nNeedPages
      ensures nRemovedPages == PagesOf(old(Objects()), victims)
    {
      hide Coherent, WellFormed, Eviction.Progress, Eviction.EnoughAfter, Eviction.Ok, IsEviction;
      ghost var e := BeginEviction(nNeedPages);
      nRemovedObjects, nRemovedPages := EvictRounds(e, nNeedPages);
      e.Finish(nRemovedObjects, view.objs, view.meta, |view.shape.free|, nRemovedPages);
      victims := e.Victims(nRemovedObjects);
    }

    /** The loop of the defragmentation, on the three index arrays. */
    method CompactIndex() returns (ghost idx: seq<nat>)
      requires Represents() && |view.hash| == |view.digest| == |view.meta|
      modifies objHash, objDigest, objMetadata
      ensures |idx| <= nCurObjects && LivePositions(view.meta, |view.meta|, idx)
      ensures Picks(objHash[..|idx|], view.hash, idx) && Picks(objDigest[..|idx|], view.digest, idx)
      ensures Picks(objMetadata[..|idx|], view.meta, idx)
    {
      hide LivePositions, Sliding, Picks;
      ghost var n := nCurObjects;
      idx := Compact(objHash, objDigest, objMetadata, nCurObjects);
      SlidingEnd(objHash[..n], view.hash, idx);
      SlidingEnd(objDigest[..n], view.digest, idx);
      SlidingEnd(objMetadata[..n], view.meta, idx);
      assert objHash[..n][..|idx|] == objHash[..|idx|];
      assert objDigest[..n][..|idx|] == objDigest[..|idx|];
      assert objMetadata[..n][..|idx|] == objMetadata[..|idx|];
    }

    /** Defrag: drops the tombstones and gets the counts right. */
    method Defrag(nRemovedObjects: nat, nRemovedPages: nat)
      requires Inv() && nRemovedObjects + |view.objs| == nCurObjects
      requires nFreePages + nRemovedPages == |view.shape.free|
      modifies objHash, objDigest, objMetadata, this`nCurObjects, this`nFreePages, this`view
      ensures Valid() && nCurObjects == |view.objs| && nFreePages == old(nFreePages) + nRemovedPages
      ensures view.objs == old(view).objs
    {
      hide WellFormed, Coherent, LivePositions, Picks, AllLive;
      ghost var v := view;
      CoherentSizes(v);
      ghost var idx := CompactIndex();
      ghost var w := v.(hash := objHash[..|idx|], digest := objDigest[..|idx|], meta := objMetadata[..|idx|]);
      DefraggedCoherent(v, w, idx);
      LiveSize(w);
      assert nCurObjects - nRemovedObjects == |idx|;
      nCurObjects := nCurObjects - nRemovedObjects;
      nFreePages := nFreePages + nRemovedPages;
      view := w;
      assert objHash[..nCurObjects] == w.hash;
      assert objDigest[..nCurObjects] == w.digest;
      assert objMetadata[..nCurObjects] == w.meta;
    }

    /** memmove of the three index arrays and the new entry. */
    method InsertEntry(idx: nat, digest: Digest256, metadata: Metadata)
      requires Represents() && idx <= nCurObjects < nMaxObjects
      modifies objHash, objDigest, objMetadata, this`nCurObjects
      ensures nCurObjects == old(nCurObjects) + 1
      ensures objHash[..nCurObjects] == Inserted(view.hash, idx, digest.a0)
      ensures objDigest[..nCurObjects] == Inserted(view.digest, idx, digest)
      ensures objMetadata[..nCurObjects] == Inserted(view.meta, idx, metadata)
    {
      hide Inserted;
      InsertAt(objHash, idx, nCurObjects, digest.a0);
      InsertAt(objDigest, idx, nCurObjects, digest);
      InsertAt(objMetadata, idx, nCurObjects, metadata);
      nCurObjects := nCurObjects + 1;
    }

    /** store for a digest that is not there yet, once there is room. */
    method StoreNew(digest: Digest256, src: seq<u8>, now: nat, idx: nat)
      requires Valid() && digest !in view.objs && now != 0
      requires Splits(view.digest, idx, digest)
      requires nCurObjects < nMaxObjects && NPages(|src|) <= nFreePages
      modifies objHash, objDigest, objMetadata, arena, this`nCurObjects, this`freeListAddr, this`nFreePages, this`view
      ensures Valid()
      ensures Objects() == old(Objects())[digest := Object(now, src)]
      ensures nFreePages == old(nFreePages) - NPages(|src|) && nCurObjects == old(nCurObjects) + 1
    {
      hide WellFormed, Coherent, SameOutsideFree, Splits, AllLive, Holds, Inserted, Acquire, NPages, HeadOf, Bytes;
      ghost var v := view;
      CoherentSizes(v);
      SplitsBound(v.digest, idx, digest);
      AcquireParts(v.shape, digest, NPages(|src|));
      var metadata := Metadata(now, freeListAddr, |src|);
      InsertEntry(idx, digest, metadata);
      var addr := CopyIn(arena, metadata.startAddr, src, v.shape);
      FilledAndStored(v, idx, digest, now, src, arena[..]);
      nFreePages := nFreePages - NPages(|src|);
      freeListAddr := addr;
      view := Stored(v.(pages := arena[..]), idx, digest, now, src);
    }

    /** The eviction, the defragmentation and the second search: there is room now, and idx is its place. */
    method MakeRoom(digest: Digest256, nNeedPages: nat) returns (idx: nat, ghost victims: seq<Digest256>)
      requires Valid() && digest !in view.objs && nNeedPages <= nTotalPages
      requires nNeedPages > nFreePages || nCurObjects + 1 > nMaxObjects
      modifies this`nCurObjects, this`freeListAddr, this`nFreePages, this`view
      modifies objHash, objDigest, objMetadata, sortIds, arena
      ensures Valid() && Splits(view.digest, idx, digest)
      ensures nCurObjects < nMaxObjects && nNeedPages <= nFreePages
      ensures IsEviction(old(Objects()), old(nFreePages), nMaxObjects, nNeedPages, victims)
      ensures Objects() == old(Objects()) - Elements(victims)
      ensures nFreePages == old(nFreePages) + PagesOf(old(Objects()), victims)
    {
      hide Coherent, WellFormed, IsEviction, Splits, AllLive, Represents;
      ghost var objs := view.objs;
      LiveSizes();
      var nRemovedObjects, nRemovedPages;
      nRemovedObjects, nRemovedPages, victims := Evict(nNeedPages);
      EvictionFacts(objs, nFreePages, nMaxObjects, nNeedPages, victims);
      Defrag(nRemovedObjects, nRemovedPages);
      var found;
      found, idx := Find(digest);
      LiveSizes();
      assert found == false;
    }

    /**
     store: keeps what is there; otherwise evicts the least recently used objects if it must, and adds
     the object. Only an object larger than the whole arena is refused.
     */
    method Store(digest: Digest256, src: seq<u8>, now: nat) returns (ok: bool, ghost victims: seq<Digest256>)
      requires Valid() && now != 0
      modifies this`nCurObjects, this`freeListAddr, this`nFreePages, this`view
      modifies objHash, objDigest, objMetadata, sortIds, arena
      ensures Valid()
      ensures ok <==> digest in old(Objects()) || NPages(|src|) <= nTotalPages
      ensures digest in old(Objects()) || !ok ==> Objects() == old(Objects()) && nFreePages == old(nFreePages)
      ensures digest !in old(Objects()) && ok ==>
        && IsEviction(old(Objects()), old(nFreePages), nMaxObjects, NPages(|src|), victims)
        && Objects() == (old(Objects()) - Elements(victims))[digest := Object(now, src)]
        && nFreePages == old(nFreePages) + PagesOf(old(Objects()), victims) - NPages(|src|)
    {
      hide Coherent, WellFormed, IsEviction, Splits, AllLive;
      LiveCount(view);
      victims := [];
      var found, idx := Find(digest);
      if found {
        return true, victims;
      }
      var nNeedPages := NPages(|src|);
      if nNeedPages > nTotalPages {
        return false, victims;
      }
      if nNeedPages > nFreePages || nCurObjects + 1 > nMaxObjects {
        idx, victims := MakeRoom(digest, nNeedPages);
      } else {
        CoherentSizes(view);
        NoEviction(view.objs, nFreePages, nMaxObjects, nNeedPages);
      }
      StoreNew(digest, src, now, idx);
      ok := true;
    }
  }
}
