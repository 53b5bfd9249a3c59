/**
 The page arena of kern/duck_cache.cpp as a mathematical object: a LIFO chain of free pages and one
 chain of pages per stored object, threaded through the pages' next pointers.
 */
module Arena {
  import opened Words
  import opened Digest

  const ONE_PAGE_CONTENT_SIZE: nat := 4088

  /** The null page address; a page is addressed by its number in the arena. */
  const NULL: int := -1

  /** One page: the next pointer in its first eight bytes, and the rest. */
  datatype Page = Page(next: int, content: seq<u8>)

  /** Who holds a page: the free chain, at a height above its bottom, or an object, at a position. */
  datatype Owner = Free(height: nat) | Used(digest: Digest256, pos: nat)

  /** The chains the next pointers spell out, and the inverse map from pages to places in them. */
  datatype Shape = Shape(free: seq<nat>, chains: map<Digest256, seq<nat>>, owner: seq<Owner>)

  /** Pages an object of this length takes; at least one. */
  function NPages(len: nat): nat {
    Max((len + ONE_PAGE_CONTENT_SIZE - 1) / ONE_PAGE_CONTENT_SIZE, 1)
  }

  lemma NPagesCovers(len: nat)
    ensures len <= NPages(len) * ONE_PAGE_CONTENT_SIZE
    ensures NPages(len) >= 1 && (NPages(len) > 1 ==> (NPages(len) - 1) * ONE_PAGE_CONTENT_SIZE < len)
    ensures 8 + ONE_PAGE_CONTENT_SIZE == 4096
  {
  }

  ghost predicate OwnerOk(s: Shape, p: nat)
    requires p < |s.owner|
  {
    match s.owner[p]
    case Free(h) => h < |s.free| && s.free[|s.free| - 1 - h] == p
    case Used(d, k) => d in s.chains && k < |s.chains[d]| && s.chains[d][k] == p
  }

  /** Every page of the arena stands at exactly one place of exactly one chain. */
  ghost predicate Partition(s: Shape, total: nat) {
    && |s.owner| == total
    && (forall k :: 0 <= k < |s.free| ==>
         s.free[k] < total && s.owner[s.free[k]] == Free(|s.free| - 1 - k))
    && (forall d, k :: d in s.chains && 0 <= k < |s.chains[d]| ==>
         s.chains[d][k] < total && s.owner[s.chains[d][k]] == Used(d, k))
    && (forall p :: 0 <= p < total ==> OwnerOk(s, p))
  }

  function HeadOf(chain: seq<nat>): int {
    if chain == [] then NULL else chain[0]
  }

  /** The next pointers agree with the shape. The last page of an object's chain may point anywhere. */
  ghost predicate Linked(pages: seq<Page>, s: Shape) {
    && (forall k :: 0 <= k < |s.free| ==>
         s.free[k] < |pages| && pages[s.free[k]].next == HeadOf(s.free[k + 1..]))
    && (forall d, k :: d in s.chains && 0 <= k < |s.chains[d]| ==> s.chains[d][k] < |pages|)
    && (forall d, k :: d in s.chains && 0 <= k < |s.chains[d]| - 1 ==>
         pages[s.chains[d][k]].next == s.chains[d][k + 1])
  }

  ghost predicate WellFormed(pages: seq<Page>, s: Shape) {
    && Partition(s, |pages|)
    && Linked(pages, s)
    && (forall p :: 0 <= p < |pages| ==> |pages[p].content| == ONE_PAGE_CONTENT_SIZE)
  }

  /** The first len bytes held by a chain of pages. */
  ghost function Bytes(pages: seq<Page>, chain: seq<nat>, len: nat): (data: seq<u8>)
    requires forall k :: 0 <= k < |chain| ==>
      chain[k] < |pages| && |pages[chain[k]].content| == ONE_PAGE_CONTENT_SIZE
    requires len <= |chain| * ONE_PAGE_CONTENT_SIZE
    ensures |data| == len
  {
    seq(len, i requires 0 <= i < len =>
      pages[chain[i / ONE_PAGE_CONTENT_SIZE]].content[i % ONE_PAGE_CONTENT_SIZE])
  }

  // ----- moving a whole chain between an object and the free chain

  /** The chain of d goes on top of the free chain. */
  ghost function Release(s: Shape, d: Digest256): Shape
    requires d in s.chains
  {
    var n := |s.free| + |s.chains[d]|;
    Shape(s.chains[d] + s.free, s.chains - {d},
          seq(|s.owner|, p requires 0 <= p < |s.owner| =>
            match s.owner[p]
            case Free(h) => Free(h)
            case Used(e, k) => if e == d && k < n then Free(n - 1 - k) else Used(e, k)))
  }

  lemma ReleaseOwner(s: Shape, d: Digest256, total: nat, p: nat)
    requires Partition(s, total) && d in s.chains && p < total
    ensures OwnerOk(Release(s, d), p)
  {
    assert OwnerOk(s, p);
  }

  lemma ReleasePartition(s: Shape, d: Digest256, total: nat)
    requires Partition(s, total) && d in s.chains
    ensures Partition(Release(s, d), total)
  {
    forall p: nat | p < total
      ensures OwnerOk(Release(s, d), p)
    {
      ReleaseOwner(s, d, total, p);
    }
    hide OwnerOk;
  }

  /** One page of the new free chain, and the page its next pointer names. */
  lemma ReleaseFree(pages: seq<Page>, s: Shape, d: Digest256, pages': seq<Page>, k: nat)
    requires Partition(s, |pages|) && Linked(pages, s) && d in s.chains && s.chains[d] != []
    requires var last := s.chains[d][|s.chains[d]| - 1];
      pages' == pages[last := pages[last].(next := HeadOf(s.free))]
    requires k < |s.chains[d] + s.free|
    ensures var free := s.chains[d] + s.free;
      free[k] < |pages'| && pages'[free[k]].next == HeadOf(free[k + 1..])
  {
    hide OwnerOk;
    var (free, c) := (s.chains[d] + s.free, s.chains[d]);
    assert s.owner[c[|c| - 1]] == Used(d, |c| - 1);
    if k < |c| {
      assert free[k] == c[k] && s.owner[c[k]] == Used(d, k);
      assert k < |c| - 1 ==> free[k + 1] == c[k + 1];
      assert k == |c| - 1 ==> free[k + 1..] == s.free;
    } else {
      assert free[k] == s.free[k - |c|];
      assert free[k + 1..] == s.free[k - |c| + 1..];
    }
  }

  lemma ReleaseLinked(pages: seq<Page>, s: Shape, d: Digest256, pages': seq<Page>)
    requires Partition(s, |pages|) && Linked(pages, s) && d in s.chains && s.chains[d] != []
    requires var last := s.chains[d][|s.chains[d]| - 1];
      pages' == pages[last := pages[last].(next := HeadOf(s.free))]
    ensures Linked(pages', Release(s, d))
  {
    hide OwnerOk, HeadOf;
    var (t, c) := (Release(s, d), s.chains[d]);
    assert s.owner[c[|c| - 1]] == Used(d, |c| - 1);
    forall k: nat | k < |t.free|
      ensures t.free[k] < |pages'| && pages'[t.free[k]].next == HeadOf(t.free[k + 1..])
    {
      ReleaseFree(pages, s, d, pages', k);
    }
    forall e, k | e in t.chains && 0 <= k < |t.chains[e]|
      ensures s.owner[t.chains[e][k]] == Used(e, k) && e != d
    {
    }
  }

  /** Pointing the last page of d's chain at the old top of the free chain realises Release. */
  lemma ReleaseWellFormed(pages: seq<Page>, s: Shape, d: Digest256, pages': seq<Page>)
    requires WellFormed(pages, s) && d in s.chains && s.chains[d] != []
    requires var last := s.chains[d][|s.chains[d]| - 1];
      pages' == pages[last := pages[last].(next := HeadOf(s.free))]
    ensures WellFormed(pages', Release(s, d))
  {
    ReleasePartition(s, d, |pages|);
    ReleaseLinked(pages, s, d, pages');
    hide Partition, Linked;
  }

  /** The top n pages of the free chain become the chain of d. */
  ghost function Acquire(s: Shape, d: Digest256, n: nat): Shape
    requires n <= |s.free|
  {
    Shape(s.free[n..], s.chains[d := s.free[..n]],
          seq(|s.owner|, p requires 0 <= p < |s.owner| =>
            match s.owner[p]
            case Free(h) => if |s.free| - n <= h < |s.free| then Used(d, |s.free| - 1 - h) else Free(h)
            case Used(e, k) => Used(e, k)))
  }

  lemma AcquireParts(s: Shape, d: Digest256, n: nat)
    requires n <= |s.free|
    ensures Acquire(s, d, n).free == s.free[n..]
    ensures Acquire(s, d, n).chains.Keys == s.chains.Keys + {d}
  {
  }

  lemma AcquireOwner(s: Shape, d: Digest256, n: nat, total: nat, p: nat)
    requires Partition(s, total) && d !in s.chains && n <= |s.free| && p < total
    ensures OwnerOk(Acquire(s, d, n), p)
  {
    assert OwnerOk(s, p);
  }

  lemma AcquirePartition(s: Shape, d: Digest256, n: nat, total: nat)
    requires Partition(s, total) && d !in s.chains && n <= |s.free|
    ensures Partition(Acquire(s, d, n), total)
  {
    var t := Acquire(s, d, n);
    forall k | 0 <= k < |t.free|
      ensures t.free[k] < total && t.owner[t.free[k]] == Free(|t.free| - 1 - k)
    {
      assert s.owner[s.free[n + k]] == Free(|s.free| - 1 - (n + k));
    }
    forall e, k | e in t.chains && 0 <= k < |t.chains[e]|
      ensures t.chains[e][k] < total && t.owner[t.chains[e][k]] == Used(e, k)
    {
      if e == d {
        assert s.owner[s.free[k]] == Free(|s.free| - 1 - k);
      } else {
        assert s.owner[s.chains[e][k]] == Used(e, k);
      }
    }
    forall p: nat | p < total
      ensures OwnerOk(t, p)
    {
      AcquireOwner(s, d, n, total, p);
    }
  }

  lemma AcquireWellFormed(pages: seq<Page>, s: Shape, d: Digest256, n: nat)
    requires WellFormed(pages, s) && d !in s.chains && n <= |s.free|
    ensures WellFormed(pages, Acquire(s, d, n))
  {
    AcquirePartition(s, d, n, |pages|);
    var t := Acquire(s, d, n);
    forall k | 0 <= k < |t.free|
      ensures pages[t.free[k]].next == HeadOf(t.free[k + 1..])
    {
      assert t.free[k] == s.free[n + k];
      assert t.free[k + 1..] == s.free[n + k + 1..];
    }
    forall e, k | e in t.chains && 0 <= k < |t.chains[e]| - 1
      ensures pages[t.chains[e][k]].next == t.chains[e][k + 1]
    {
      if e == d {
        assert t.chains[e][k] == s.free[k] && s.free[k + 1..][0] == s.free[k + 1];
      } else {
        assert e in s.chains && t.chains[e] == s.chains[e];
      }
    }
  }

  // ----- conservation

  ghost predicate Distinct<T>(s: seq<T>) {
    forall i, j :: 0 <= i < j < |s| ==> s[i] != s[j]
  }

  ghost function Elements<T>(s: seq<T>): set<T> {
    set x | x in s
  }

  lemma DistinctSize<T>(s: seq<T>)
    requires Distinct(s)
    ensures |Elements(s)| == |s|
  {
    if s != [] {
      var n := |s| - 1;
      DistinctSize(s[..n]);
      assert Elements(s) == Elements(s[..n]) + {s[n]};
    }
  }

  ghost function Range(n: nat): (r: set<nat>)
    ensures |r| == n
    ensures forall i :: i in r <==> 0 <= i < n
  {
    if n == 0 then {} else Range(n - 1) + {n - 1}
  }

  lemma DistinctCover(s: seq<nat>, n: nat)
    requires Distinct(s)
    requires forall k :: 0 <= k < |s| ==> s[k] < n
    requires forall p :: 0 <= p < n ==> p in s
    ensures |s| == n
  {
    DistinctSize(s);
    assert Elements(s) == Range(n);
  }

  /** With no object left, the free chain is the whole arena. */
  lemma AllFree(s: Shape, total: nat)
    requires Partition(s, total) && s.chains == map[]
    ensures |s.free| == total
  {
    forall p: nat | p < total
      ensures p in s.free
    {
      assert OwnerOk(s, p);
    }
    DistinctCover(s.free, total);
  }

  ghost function TotalLength(chains: map<Digest256, seq<nat>>, order: seq<Digest256>): nat
    requires forall d :: d in order ==> d in chains
  {
    if order == [] then 0 else |chains[order[0]]| + TotalLength(chains, order[1..])
  }

  lemma TotalLengthFrame(chains: map<Digest256, seq<nat>>, d: Digest256, order: seq<Digest256>)
    requires forall e :: e in order ==> e in chains && e != d
    ensures TotalLength(chains - {d}, order) == TotalLength(chains, order)
  {
    if order != [] {
      assert forall e :: e in order[1..] ==> e in order;
      TotalLengthFrame(chains, d, order[1..]);
    }
  }

  lemma TailOfDistinct<T>(s: seq<T>)
    requires s != [] && Distinct(s)
    ensures Distinct(s[1..]) && s[0] !in s[1..]
    ensures forall e :: e in s <==> e == s[0] || e in s[1..]
  {
    assert s == [s[0]] + s[1..];
  }

  /** However the objects are listed, their chains and the free chain add up to the arena. */
  lemma {:induction false} Conservation(s: Shape, total: nat, order: seq<Digest256>)
    requires Partition(s, total)
    requires Distinct(order) && forall d :: d in order <==> d in s.chains
    ensures |s.free| + TotalLength(s.chains, order) == total
    decreases order
  {
    if order == [] {
      AllFree(s, total);
    } else {
      hide Partition, Distinct;
      ReleasePartition(s, order[0], total);
      TailOfDistinct(order);
      Conservation(Release(s, order[0]), total, order[1..]);
      TotalLengthFrame(s.chains, order[0], order[1..]);
    }
  }
}
