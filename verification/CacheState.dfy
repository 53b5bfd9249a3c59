/**
 What the index arrays, the arena and the stored objects of kern/duck_cache.cpp have to do with each
 other, over plain values, and how each stage of load and store keeps it.
 */
module CacheState {
  import opened Words
  import opened Digest
  import opened Arena

  /** A tombstone of the eviction loop is an entry whose lastUsedTsc is zero. */
  datatype Metadata = Metadata(lastUsedTsc: nat, startAddr: int, len: nat)

  /** What a client stored, and when it was last touched. */
  datatype Object = Object(lastUsed: nat, data: seq<u8>)

  type Objects = map<Digest256, Object>

  /** A snapshot of a cache: arena, live part of the index arrays, chains, and the map it stands for. */
  datatype View = View(pages: seq<Page>, hash: seq<u64>, digest: seq<Digest256>, meta: seq<Metadata>,
                       shape: Shape, objs: Objects)

  ghost predicate StrictlySorted(digests: seq<Digest256>) {
    forall i, j :: 0 <= i < j < |digests| ==> Less(digests[i], digests[j])
  }

  /** Entry m of object d: its chain starts at startAddr, has the right size and holds its bytes. */
  ghost predicate EntryOk(pages: seq<Page>, s: Shape, objs: Objects, d: Digest256, m: Metadata)
    requires WellFormed(pages, s)
  {
    && d in objs && d in s.chains
    && objs[d].lastUsed == m.lastUsedTsc && |objs[d].data| == m.len
    && |s.chains[d]| == NPages(m.len) && s.chains[d][0] == m.startAddr
    && objs[d].data == Bytes(pages, s.chains[d], m.len)
  }

  /** Every entry is a tombstone of an object that is gone, or describes the object of its digest. */
  ghost predicate EntriesOk(pages: seq<Page>, digest: seq<Digest256>, meta: seq<Metadata>,
                            s: Shape, objs: Objects)
    requires WellFormed(pages, s)
  {
    && |digest| == |meta|
    && forall i :: 0 <= i < |meta| ==>
         if meta[i].lastUsedTsc == 0 then digest[i] !in objs
         else EntryOk(pages, s, objs, digest[i], meta[i])
  }

  ghost predicate IndexOk(hash: seq<u64>, digest: seq<Digest256>) {
    && |hash| == |digest|
    && StrictlySorted(digest)
    && forall i :: 0 <= i < |digest| ==> hash[i] == digest[i].a0
  }

  ghost predicate Coherent(v: View) {
    && WellFormed(v.pages, v.shape)
    && IndexOk(v.hash, v.digest)
    && EntriesOk(v.pages, v.digest, v.meta, v.shape, v.objs)
    && v.shape.chains.Keys == v.objs.Keys
    && (forall d :: d in v.objs ==> d in v.digest)
  }

  ghost predicate AllLive(meta: seq<Metadata>) {
    forall i :: 0 <= i < |meta| ==> meta[i].lastUsedTsc != 0
  }

  lemma SortedDistinct(digest: seq<Digest256>)
    requires StrictlySorted(digest)
    ensures Distinct(digest)
  {
  }

  lemma CoherentSizes(v: View)
    requires Coherent(v)
    ensures |v.hash| == |v.digest| == |v.meta|
    ensures WellFormed(v.pages, v.shape) && v.shape.chains.Keys == v.objs.Keys && IndexOk(v.hash, v.digest)
  {
  }

  /** Without tombstones there are as many entries as objects. */
  lemma LiveCount(v: View)
    requires Coherent(v) && AllLive(v.meta)
    ensures |v.objs| == |v.digest|
    ensures forall d :: d in v.digest <==> d in v.objs
  {
    SortedDistinct(v.digest);
    DistinctSize(v.digest);
    forall i | 0 <= i < |v.digest|
      ensures v.digest[i] in v.objs
    {
      assert v.meta[i].lastUsedTsc != 0;
    }
    assert Elements(v.digest) == v.objs.Keys;
  }

  lemma LiveSize(v: View)
    requires Coherent(v) && AllLive(v.meta)
    ensures |v.objs| == |v.digest|
  {
    LiveCount(v);
  }

  /** What a live entry tells about its chain. */
  lemma LiveEntry(v: View, i: nat)
    requires Coherent(v) && i < |v.digest| == |v.meta| && v.meta[i].lastUsedTsc != 0
    ensures v.digest[i] in v.objs && v.digest[i] in v.shape.chains
    ensures v.objs[v.digest[i]].lastUsed == v.meta[i].lastUsedTsc && |v.objs[v.digest[i]].data| == v.meta[i].len
    ensures var c := v.shape.chains[v.digest[i]];
      && |c| == NPages(v.meta[i].len) && c[0] == v.meta[i].startAddr
      && v.meta[i].len <= |c| * ONE_PAGE_CONTENT_SIZE
      && (forall k :: 0 <= k < |c| ==> c[k] < |v.pages| && |v.pages[c[k]].content| == ONE_PAGE_CONTENT_SIZE)
      && (forall k :: 0 <= k < |c| - 1 ==> v.pages[c[k]].next == c[k + 1])
      && v.objs[v.digest[i]].data == Bytes(v.pages, c, v.meta[i].len)
  {
    assert EntryOk(v.pages, v.shape, v.objs, v.digest[i], v.meta[i]);
    NPagesCovers(v.meta[i].len);
  }

  /** Bytes depends only on the contents of the pages of the chain. */
  lemma BytesFrame(pages: seq<Page>, pages': seq<Page>, chain: seq<nat>, len: nat)
    requires forall k :: 0 <= k < |chain| ==>
      chain[k] < |pages| && |pages[chain[k]].content| == ONE_PAGE_CONTENT_SIZE
    requires len <= |chain| * ONE_PAGE_CONTENT_SIZE
    requires |pages'| == |pages|
    requires forall k :: 0 <= k < |chain| ==> pages'[chain[k]].content == pages[chain[k]].content
    ensures Bytes(pages', chain, len) == Bytes(pages, chain, len)
  {
  }

  /** Another object's entry survives any step that keeps its chain, its bytes and its stamp. */
  lemma EntryFrame(pages: seq<Page>, s: Shape, objs: Objects, d: Digest256, m: Metadata,
                   pages': seq<Page>, s': Shape, objs': Objects)
    requires WellFormed(pages, s) && WellFormed(pages', s') && EntryOk(pages, s, objs, d, m)
    requires d in objs' && objs'[d] == objs[d] && d in s'.chains && s'.chains[d] == s.chains[d]
    requires |pages'| == |pages|
    requires forall p :: 0 <= p < |pages| && p in s.chains[d] ==> pages'[p].content == pages[p].content
    ensures EntryOk(pages', s', objs', d, m)
  {
    BytesFrame(pages, pages', s.chains[d], m.len);
  }

  // ----- load: stamping an entry

  ghost function Touched(v: View, i: nat, now: nat): View
    requires i < |v.digest| == |v.meta| && v.digest[i] in v.objs
  {
    v.(meta := v.meta[i := v.meta[i].(lastUsedTsc := now)],
       objs := v.objs[v.digest[i] := v.objs[v.digest[i]].(lastUsed := now)])
  }

  lemma LiveAt(v: View, i: nat)
    requires Coherent(v) && AllLive(v.meta) && i < |v.digest|
    ensures |v.digest| == |v.meta| && v.digest[i] in v.objs
  {
    LiveCount(v);
    assert v.digest[i] in v.digest;
  }

  lemma TouchedParts(v: View, i: nat, now: nat)
    requires i < |v.digest| == |v.meta| && v.digest[i] in v.objs
    ensures var w := Touched(v, i, now);
      && w.pages == v.pages && w.hash == v.hash && w.digest == v.digest && w.shape == v.shape
      && w.meta == v.meta[i := v.meta[i].(lastUsedTsc := now)]
  {
  }

  lemma TouchedCoherent(v: View, i: nat, now: nat)
    requires Coherent(v) && AllLive(v.meta) && i < |v.digest| == |v.meta| && now != 0
    requires v.digest[i] in v.objs
    ensures AllLive(Touched(v, i, now).meta) && Coherent(Touched(v, i, now))
  {
    SortedDistinct(v.digest);
    assert EntryOk(v.pages, v.shape, v.objs, v.digest[i], v.meta[i]);
  }

  // ----- the eviction loop: one object goes

  ghost predicate Evictable(v: View, i: nat) {
    && i < |v.digest| == |v.meta| && v.digest[i] in v.shape.chains
    && var c := v.shape.chains[v.digest[i]];
       c != [] && c[|c| - 1] < |v.pages|
  }

  /** Entry i becomes a tombstone, and its chain goes on top of the free chain. */
  ghost function Evicted(v: View, i: nat): View
    requires Evictable(v, i)
  {
    var c := v.shape.chains[v.digest[i]];
    var last := c[|c| - 1];
    v.(pages := v.pages[last := v.pages[last].(next := HeadOf(v.shape.free))],
       meta := v.meta[i := v.meta[i].(lastUsedTsc := 0)],
       shape := Release(v.shape, v.digest[i]),
       objs := v.objs - {v.digest[i]})
  }

  lemma EvictedEntries(v: View, i: nat)
    requires Coherent(v) && Evictable(v, i) && WellFormed(Evicted(v, i).pages, Evicted(v, i).shape)
    ensures var w := Evicted(v, i); EntriesOk(w.pages, w.digest, w.meta, w.shape, w.objs)
  {
    var w := Evicted(v, i);
    SortedDistinct(v.digest);
    forall j | 0 <= j < |v.meta| && j != i && v.meta[j].lastUsedTsc != 0
      ensures EntryOk(w.pages, w.shape, w.objs, w.digest[j], w.meta[j])
    {
      OtherEntry(v, i, j);
    }
  }

  lemma OtherEntry(v: View, i: nat, j: nat)
    requires Coherent(v) && Evictable(v, i) && WellFormed(Evicted(v, i).pages, Evicted(v, i).shape)
    requires j < |v.meta| && j != i && v.meta[j].lastUsedTsc != 0 && v.digest[j] != v.digest[i]
    ensures var w := Evicted(v, i); EntryOk(w.pages, w.shape, w.objs, w.digest[j], w.meta[j])
  {
    hide WellFormed, IndexOk;
    var w := Evicted(v, i);
    EntryFrame(v.pages, v.shape, v.objs, v.digest[j], v.meta[j], w.pages, w.shape, w.objs);
  }

  lemma EvictedCoherent(v: View, i: nat)
    requires Coherent(v) && Evictable(v, i)
    ensures Coherent(Evicted(v, i))
    ensures |Evicted(v, i).shape.free| == |v.shape.free| + |v.shape.chains[v.digest[i]]|
  {
    ReleaseWellFormed(v.pages, v.shape, v.digest[i], Evicted(v, i).pages);
    EvictedEntries(v, i);
  }

  // ----- defragmentation

  /** idx lists, in order, exactly the positions below n that are not tombstones. */
  ghost predicate LivePositions(meta: seq<Metadata>, n: nat, idx: seq<nat>)
    requires n <= |meta|
  {
    && (forall j, k :: 0 <= j < k < |idx| ==> idx[j] < idx[k])
    && (forall k :: 0 <= k < |idx| ==> idx[k] < n && meta[idx[k]].lastUsedTsc != 0)
    && (forall i :: 0 <= i < n && meta[i].lastUsedTsc != 0 ==> i in idx)
  }

  ghost predicate Picks<T>(part: seq<T>, whole: seq<T>, idx: seq<nat>) {
    && |part| == |idx|
    && forall k :: 0 <= k < |idx| ==> idx[k] < |whole| && part[k] == whole[idx[k]]
  }

  /** w is v with the tombstones squeezed out. */
  ghost predicate Defragged(v: View, w: View, idx: seq<nat>) {
    && LivePositions(v.meta, |v.meta|, idx)
    && Picks(w.hash, v.hash, idx) && Picks(w.digest, v.digest, idx) && Picks(w.meta, v.meta, idx)
    && w == v.(hash := w.hash, digest := w.digest, meta := w.meta)
  }

  lemma DefraggedDigests(v: View, w: View, idx: seq<nat>)
    requires Coherent(v) && Defragged(v, w, idx)
    ensures forall d :: d in v.objs ==> d in w.digest
  {
    forall d | d in v.objs
      ensures d in w.digest
    {
      var i :| 0 <= i < |v.digest| && v.digest[i] == d;
      assert v.meta[i].lastUsedTsc != 0;
      var k :| 0 <= k < |idx| && idx[k] == i;
      assert w.digest[k] == d;
    }
  }

  lemma DefraggedEntries(v: View, w: View, idx: seq<nat>)
    requires WellFormed(v.pages, v.shape) && EntriesOk(v.pages, v.digest, v.meta, v.shape, v.objs)
    requires Defragged(v, w, idx)
    ensures AllLive(w.meta) && EntriesOk(v.pages, w.digest, w.meta, v.shape, v.objs)
  {
    hide WellFormed;
    forall k | 0 <= k < |w.meta|
      ensures EntryOk(v.pages, v.shape, v.objs, w.digest[k], w.meta[k])
    {
      assert EntryOk(v.pages, v.shape, v.objs, v.digest[idx[k]], v.meta[idx[k]]);
    }
  }

  lemma DefraggedCoherent(v: View, w: View, idx: seq<nat>)
    requires Coherent(v) && Defragged(v, w, idx)
    ensures Coherent(w) && AllLive(w.meta)
  {
    hide WellFormed, EntriesOk, AllLive;
    DefraggedDigests(v, w, idx);
    DefraggedEntries(v, w, idx);
  }

  // ----- insertion

  function Inserted<T>(a: seq<T>, i: nat, x: T): (r: seq<T>)
    requires i <= |a|
    ensures |r| == |a| + 1 && r[i] == x
    ensures forall j :: 0 <= j < i ==> r[j] == a[j]
    ensures forall j :: i < j <= |a| ==> r[j] == a[j - 1]
  {
    a[..i] + [x] + a[i..]
  }

  /** i splits the index into the digests below d and those above it. */
  ghost predicate Splits(digest: seq<Digest256>, i: nat, d: Digest256) {
    && i <= |digest|
    && (forall j :: 0 <= j < i ==> Less(digest[j], d))
    && (forall j :: i <= j < |digest| ==> !Less(digest[j], d))
  }

  lemma SplitsBound(digest: seq<Digest256>, i: nat, d: Digest256)
    requires Splits(digest, i, d)
    ensures i <= |digest|
  {
  }

  /** Only the contents of pages on the free chain of s may differ. */
  ghost predicate SameOutsideFree(pages: seq<Page>, pages': seq<Page>, s: Shape) {
    && |pages'| == |pages|
    && (forall p :: 0 <= p < |pages| ==>
         pages'[p].next == pages[p].next && |pages'[p].content| == |pages[p].content|)
    && (forall p :: 0 <= p < |pages| && p !in s.free ==> pages'[p] == pages[p])
  }

  /** The free chain as its next pointers spell it out. */
  ghost predicate FreeLinks(pages: seq<Page>, s: Shape) {
    && (forall k :: 0 <= k < |s.free| ==>
         s.free[k] < |pages| && pages[s.free[k]].next == HeadOf(s.free[k + 1..])
         && |pages[s.free[k]].content| == ONE_PAGE_CONTENT_SIZE)
    && Distinct(s.free)
  }

  lemma FreeChain(pages: seq<Page>, s: Shape)
    requires WellFormed(pages, s)
    ensures FreeLinks(pages, s)
  {
  }

  lemma UsedNotFree(pages: seq<Page>, s: Shape, d: Digest256)
    requires WellFormed(pages, s) && d in s.chains
    ensures forall p :: p in s.chains[d] ==> p !in s.free
  {
    forall k | 0 <= k < |s.chains[d]|
      ensures s.chains[d][k] !in s.free
    {
      assert s.owner[s.chains[d][k]] == Used(d, k);
    }
  }

  lemma FreeContentsWellFormed(pages: seq<Page>, s: Shape, pages': seq<Page>)
    requires WellFormed(pages, s) && SameOutsideFree(pages, pages', s)
    ensures WellFormed(pages', s)
  {
  }

  lemma FreeContentsFrame(v: View, pages': seq<Page>)
    requires Coherent(v) && SameOutsideFree(v.pages, pages', v.shape)
    ensures Coherent(v.(pages := pages'))
  {
    FreeContentsWellFormed(v.pages, v.shape, pages');
    forall j | 0 <= j < |v.meta| && v.meta[j].lastUsedTsc != 0
      ensures EntryOk(pages', v.shape, v.objs, v.digest[j], v.meta[j])
    {
      hide WellFormed, IndexOk;
      assert EntryOk(v.pages, v.shape, v.objs, v.digest[j], v.meta[j]);
      UsedNotFree(v.pages, v.shape, v.digest[j]);
      EntryFrame(v.pages, v.shape, v.objs, v.digest[j], v.meta[j], pages', v.shape, v.objs);
    }
    hide WellFormed, EntryOk;
  }

  lemma InsertIndex(hash: seq<u64>, digest: seq<Digest256>, i: nat, d: Digest256)
    requires IndexOk(hash, digest) && Splits(digest, i, d) && d !in digest
    ensures IndexOk(Inserted(hash, i, d.a0), Inserted(digest, i, d))
    ensures forall e :: e in Inserted(digest, i, d) <==> e == d || e in digest
  {
    hide Inserted;
    forall j | i <= j < |digest|
      ensures Less(d, digest[j])
    {
      assert digest[j] in digest;
    }
    InsertedMembers(digest, i, d);
    hide Less;
    var after := Inserted(digest, i, d);
    forall j, k | 0 <= j < k < |after| ensures Less(after[j], after[k]) {
      InsertedAt(digest, i, d, j);
      InsertedAt(digest, i, d, k);
    }
  }

  lemma InsertedAt<T>(a: seq<T>, i: nat, x: T, j: nat)
    requires i <= |a| && j <= |a|
    ensures Inserted(a, i, x)[j] == if j < i then a[j] else if j == i then x else a[j - 1]
  {
  }

  lemma InsertedMembers<T>(a: seq<T>, i: nat, x: T)
    requires i <= |a|
    ensures forall e :: e in Inserted(a, i, x) <==> e == x || e in a
  {
    assert a == a[..i] + a[i..];
  }

  /** The object goes to place i of the index and takes the top of the free chain. */
  ghost function Stored(v: View, i: nat, d: Digest256, now: nat, data: seq<u8>): View
    requires i <= |v.digest| == |v.meta| == |v.hash| && NPages(|data|) <= |v.shape.free|
  {
    View(v.pages, Inserted(v.hash, i, d.a0), Inserted(v.digest, i, d),
         Inserted(v.meta, i, Metadata(now, HeadOf(v.shape.free), |data|)),
         Acquire(v.shape, d, NPages(|data|)), v.objs[d := Object(now, data)])
  }

  /** The new object's entry is right as soon as the top of the free chain holds its bytes. */
  lemma NewEntryOk(pages: seq<Page>, s: Shape, objs: Objects, d: Digest256, now: nat, data: seq<u8>)
    requires NPages(|data|) <= |s.free|
    requires WellFormed(pages, s) && WellFormed(pages, Acquire(s, d, NPages(|data|)))
    requires data == Bytes(pages, s.free[..NPages(|data|)], |data|)
    ensures EntryOk(pages, Acquire(s, d, NPages(|data|)), objs[d := Object(now, data)],
                    d, Metadata(now, HeadOf(s.free), |data|))
  {
  }

  lemma StoredEntries(v: View, i: nat, d: Digest256, now: nat, data: seq<u8>)
    requires WellFormed(v.pages, v.shape) && EntriesOk(v.pages, v.digest, v.meta, v.shape, v.objs)
    requires AllLive(v.meta) && i <= |v.digest| == |v.hash| && d !in v.digest && now != 0
    requires NPages(|data|) <= |v.shape.free|
    requires data == Bytes(v.pages, v.shape.free[..NPages(|data|)], |data|)
    requires WellFormed(v.pages, Stored(v, i, d, now, data).shape)
    ensures var w := Stored(v, i, d, now, data);
      AllLive(w.meta) && EntriesOk(w.pages, w.digest, w.meta, w.shape, w.objs)
  {
    var w := Stored(v, i, d, now, data);
    NewEntryOk(v.pages, v.shape, v.objs, d, now, data);
    forall k | 0 <= k < |v.meta|
      ensures EntryOk(w.pages, w.shape, w.objs, v.digest[k], v.meta[k])
    {
      assert v.digest[k] in v.digest && EntryOk(v.pages, v.shape, v.objs, v.digest[k], v.meta[k]);
      EntryFrame(v.pages, v.shape, v.objs, v.digest[k], v.meta[k], w.pages, w.shape, w.objs);
    }
  }

  lemma StoredCoherent(v: View, i: nat, d: Digest256, now: nat, data: seq<u8>)
    requires Coherent(v) && AllLive(v.meta) && i <= |v.digest| == |v.meta| == |v.hash|
    requires d !in v.objs && Splits(v.digest, i, d) && now != 0
    requires NPages(|data|) <= |v.shape.free|
    requires data == Bytes(v.pages, v.shape.free[..NPages(|data|)], |data|)
    ensures AllLive(Stored(v, i, d, now, data).meta) && Coherent(Stored(v, i, d, now, data))
  {
    hide WellFormed, IndexOk, EntriesOk, Splits, AllLive, Acquire, Inserted, Bytes;
    LiveCount(v);
    AcquireWellFormed(v.pages, v.shape, d, NPages(|data|));
    AcquireParts(v.shape, d, NPages(|data|));
    InsertIndex(v.hash, v.digest, i, d);
    StoredEntries(v, i, d, now, data);
  }
}
