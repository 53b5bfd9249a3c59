/**
 The user range [0x400000, vaddr_break) as values: its bytes, and per page what the level-1 entry says.
 Offsets are counted from 0x400000, pages from the first page of the range.
 */
module AddressSpace {
  import opened Words
  import opened ByteSplice
  import opened PageFlags

  datatype Space = Space(bytes: seq<u8>, attrs: seq<Attr>)

  ghost predicate SpaceOk(s: Space) {
    |s.bytes| == |s.attrs| * PAGE_SIZE
  }

  // ----- single operations

  function FlagRange(attrs: seq<Attr>, lo: nat, hi: nat, op: FlagOp): (r: seq<Attr>)
    ensures |r| == |attrs|
    ensures forall p :: 0 <= p < |attrs| ==> r[p] == if lo <= p < hi then ApplyAttr(op, attrs[p]) else attrs[p]
  {
    seq(|attrs|, p requires 0 <= p < |attrs| => if lo <= p < hi then ApplyAttr(op, attrs[p]) else attrs[p])
  }

  lemma FlagRangeStep(attrs: seq<Attr>, lo: nat, hi: nat, op: FlagOp)
    requires lo <= hi < |attrs|
    ensures FlagRange(FlagRange(attrs, lo, hi, op), hi, hi + 1, op) == FlagRange(attrs, lo, hi + 1, op)
  {
  }

  function Flags(s: Space, lo: nat, hi: nat, op: FlagOp): Space {
    s.(attrs := FlagRange(s.attrs, lo, hi, op))
  }

  /** The pages a nonempty stretch of bytes touches end here. */
  function PageEnd(off: nat): nat {
    (off + PAGE_SIZE - 1) / PAGE_SIZE
  }

  /** A write by the kernel: the bytes, and the processor's marks on the pages they lie in. */
  function Put(s: Space, off: nat, data: seq<u8>): Space
    requires off + |data| <= |s.bytes|
  {
    if data == [] then s
    else Space(Splice(s.bytes, off, data), FlagRange(s.attrs, off / PAGE_SIZE, PageEnd(off + |data|), Touch))
  }

  /** Zeroes the pages of a range that are marked as written, and clears the mark. */
  ghost predicate DuckCleared(s: Space, t: Space, lo: nat, hi: nat) {
    && SpaceOk(s) && SpaceOk(t) && |t.attrs| == |s.attrs|
    && (forall p :: 0 <= p < |s.attrs| ==>
         t.attrs[p] == if lo <= p < hi && s.attrs[p].duck then ApplyAttr(ClearDirtyDuck, s.attrs[p]) else s.attrs[p])
    && (forall i :: 0 <= i < |s.bytes| ==>
         t.bytes[i] == if lo <= i / PAGE_SIZE < hi && s.attrs[i / PAGE_SIZE].duck then 0 else s.bytes[i])
  }

  /** Between programs: whatever is not zero is marked as written. */
  ghost predicate Idle(s: Space) {
    && SpaceOk(s)
    && forall i :: 0 <= i < |s.bytes| && s.bytes[i] != 0 ==> s.attrs[i / PAGE_SIZE].duck
  }

  /** On an idle space, clearing the marked pages zeroes the whole range. */
  lemma LazyClearing(s: Space, t: Space, lo: nat, hi: nat)
    requires Idle(s) && DuckCleared(s, t, lo, hi)
    ensures Idle(t)
    ensures forall i :: 0 <= i < |t.bytes| && lo <= i / PAGE_SIZE < hi ==> t.bytes[i] == 0
    ensures forall p :: 0 <= p < |t.attrs| && lo <= p < hi ==> !t.attrs[p].duck
  {
  }

  // ----- what a list of writes and grants adds up to

  datatype Write = Write(off: nat, data: seq<u8>)

  predicate Covers(w: Write, i: nat) {
    w.off <= i < w.off + |w.data|
  }

  /** The byte at i after the writes on zeroed memory: the last write that covers it decides. */
  function ByteAt(writes: seq<Write>, i: nat): u8 {
    if writes == [] then 0
    else
      var w := writes[|writes| - 1];
      if Covers(w, i) then w.data[i - w.off] else ByteAt(writes[..|writes| - 1], i)
  }

  /** A permission given to a range of pages. */
  datatype Grant = Grant(lo: nat, hi: nat, writable: bool, noExecute: bool)

  datatype Perm = Perm(writable: bool, noExecute: bool)

  /** The last grant that covers a page decides; without one it is writable and not executable. */
  function PermAt(grants: seq<Grant>, p: nat): Perm {
    if grants == [] then Perm(true, true)
    else
      var g := grants[|grants| - 1];
      if g.lo <= p < g.hi then Perm(g.writable, g.noExecute) else PermAt(grants[..|grants| - 1], p)
  }

  lemma ByteAtSnoc(writes: seq<Write>, w: Write, i: nat)
    ensures ByteAt(writes + [w], i) == if Covers(w, i) then w.data[i - w.off] else ByteAt(writes, i)
  {
    assert (writes + [w])[..|writes + [w]| - 1] == writes;
  }

  lemma PermAtSnoc(grants: seq<Grant>, g: Grant, p: nat)
    ensures PermAt(grants + [g], p) == if g.lo <= p < g.hi then Perm(g.writable, g.noExecute) else PermAt(grants, p)
  {
    assert (grants + [g])[..|grants + [g]| - 1] == grants;
  }

  // ----- a program being loaded into the first n pages

  /** The first n pages hold the writes under the grants; page loose need not be marked yet. */
  ghost predicate RegionOk(s: Space, n: nat, writes: seq<Write>, grants: seq<Grant>, loose: int)
    requires SpaceOk(s) && n <= |s.attrs|
  {
    && (forall i :: 0 <= i < n * PAGE_SIZE ==> s.bytes[i] == ByteAt(writes, i))
    && (forall i :: 0 <= i < n * PAGE_SIZE && s.bytes[i] != 0 && i / PAGE_SIZE != loose ==>
         s.attrs[i / PAGE_SIZE].duck)
    && (forall p :: 0 <= p < n ==> s.attrs[p].present && s.attrs[p].user)
    && (forall p :: 0 <= p < n ==> Perm(s.attrs[p].writable, s.attrs[p].noExecute) == PermAt(grants, p))
  }

  /** The rest is out of the program's reach, and otherwise as it was in s0. */
  ghost predicate RestOk(s: Space, s0: Space, n: nat)
    requires SpaceOk(s) && SpaceOk(s0) && n <= |s.attrs|
  {
    && |s.attrs| == |s0.attrs|
    && (forall i :: n * PAGE_SIZE <= i < |s.bytes| ==> s.bytes[i] == s0.bytes[i])
    && (forall p :: n <= p < |s.attrs| ==> !s.attrs[p].user && s.attrs[p].duck == s0.attrs[p].duck)
  }

  ghost predicate Loading(s: Space, s0: Space, n: nat, writes: seq<Write>, grants: seq<Grant>, loose: int) {
    && SpaceOk(s) && SpaceOk(s0) && n <= |s.attrs|
    && RegionOk(s, n, writes, grants, loose)
    && RestOk(s, s0, n)
  }

  /** Flags set on both sides and the marked pages cleared: the region is blank, writable and not executable. */
  lemma LoadingStart(s0: Space, n: nat, s: Space)
    requires Idle(s0) && n <= |s0.attrs|
    requires DuckCleared(Flags(Flags(s0, 0, n, SetUserWritable), n, |s0.attrs|, SetKernel), s, 0, n)
    ensures Loading(s, s0, n, [], [], -1)
  {
    var s1 := Flags(Flags(s0, 0, n, SetUserWritable), n, |s0.attrs|, SetKernel);
    forall i | 0 <= i < |s1.bytes| && s1.bytes[i] != 0
      ensures s1.attrs[i / PAGE_SIZE].duck
    {
      assert s0.attrs[i / PAGE_SIZE].duck;
    }
    LazyClearing(s1, s, 0, n);
  }

  /** Byte by byte and page by page: a write leaves permissions and marks alone. */
  lemma PutFacts(s: Space, off: nat, data: seq<u8>)
    requires SpaceOk(s) && off + |data| <= |s.bytes|
    ensures var t := Put(s, off, data);
      && SpaceOk(t) && |t.bytes| == |s.bytes| && |t.attrs| == |s.attrs|
      && (forall i :: 0 <= i < |s.bytes| ==>
           t.bytes[i] == if off <= i < off + |data| then data[i - off] else s.bytes[i])
      && (forall p :: 0 <= p < |s.attrs| ==> t.attrs[p].(dirty := s.attrs[p].dirty) == s.attrs[p])
  {
  }

  /** A write followed by marks on pages that include the ones it touched. */
  lemma LoadingPut(s: Space, s0: Space, n: nat, writes: seq<Write>, grants: seq<Grant>, loose: int,
                   off: nat, data: seq<u8>, lo: nat, hi: nat)
    requires Loading(s, s0, n, writes, grants, loose)
    requires off + |data| <= n * PAGE_SIZE && hi <= n
    requires data != [] ==> lo <= off / PAGE_SIZE && PageEnd(off + |data|) <= hi
    ensures Loading(Flags(Put(s, off, data), lo, hi, SetDuckWritten), s0, n, writes + [Write(off, data)], grants, loose)
  {
    hide Put, ByteAt, PermAt;
    PutFacts(s, off, data);
    var t := Flags(Put(s, off, data), lo, hi, SetDuckWritten);
    forall i | 0 <= i < n * PAGE_SIZE
      ensures t.bytes[i] == ByteAt(writes + [Write(off, data)], i)
    {
      ByteAtSnoc(writes, Write(off, data), i);
    }
    forall i | 0 <= i < n * PAGE_SIZE && t.bytes[i] != 0 && i / PAGE_SIZE != loose
      ensures t.attrs[i / PAGE_SIZE].duck
    {
      if off <= i < off + |data| {
        assert off / PAGE_SIZE <= i / PAGE_SIZE < PageEnd(off + |data|);
      }
    }
  }

  /** A write into the loose page, not marked yet. */
  lemma LoadingPush(s: Space, s0: Space, n: nat, writes: seq<Write>, grants: seq<Grant>, loose: int,
                    off: nat, data: seq<u8>)
    requires Loading(s, s0, n, writes, grants, loose)
    requires 0 <= loose < n && loose * PAGE_SIZE <= off && off + |data| <= (loose + 1) * PAGE_SIZE
    ensures Loading(Put(s, off, data), s0, n, writes + [Write(off, data)], grants, loose)
  {
    hide Put, ByteAt, PermAt;
    PutFacts(s, off, data);
    var t := Put(s, off, data);
    forall i | 0 <= i < n * PAGE_SIZE
      ensures t.bytes[i] == ByteAt(writes + [Write(off, data)], i)
    {
      ByteAtSnoc(writes, Write(off, data), i);
    }
    forall i | 0 <= i < n * PAGE_SIZE && t.bytes[i] != 0 && i / PAGE_SIZE != loose
      ensures t.attrs[i / PAGE_SIZE].duck
    {
      assert !(off <= i < off + |data|);
    }
  }

  /** A page may be left loose, and marking it ends that. */
  lemma LoadingLoose(s: Space, s0: Space, n: nat, writes: seq<Write>, grants: seq<Grant>, loose: nat)
    requires Loading(s, s0, n, writes, grants, -1)
    ensures Loading(s, s0, n, writes, grants, loose)
  {
  }

  lemma LoadingMarked(s: Space, s0: Space, n: nat, writes: seq<Write>, grants: seq<Grant>, loose: nat)
    requires Loading(s, s0, n, writes, grants, loose) && loose < n
    ensures Loading(Flags(s, loose, loose + 1, SetDuckWritten), s0, n, writes, grants, -1)
  {
  }

  /** The permission setters on a range inside the region. */
  function GrantFlags(s: Space, g: Grant): Space {
    var s1 := Flags(s, g.lo, g.hi, SetUserReadonly);
    var s2 := if g.noExecute then s1 else Flags(s1, g.lo, g.hi, AddExecutable);
    if g.writable then Flags(s2, g.lo, g.hi, AddWritable) else s2
  }

  lemma LoadingGrant(s: Space, s0: Space, n: nat, writes: seq<Write>, grants: seq<Grant>, g: Grant)
    requires Loading(s, s0, n, writes, grants, -1) && g.hi <= n
    ensures Loading(GrantFlags(s, g), s0, n, writes, grants + [g], -1)
  {
    var t := GrantFlags(s, g);
    forall p | 0 <= p < n
      ensures Perm(t.attrs[p].writable, t.attrs[p].noExecute) == PermAt(grants + [g], p)
      ensures t.attrs[p].present && t.attrs[p].user && t.attrs[p].duck == s.attrs[p].duck
    {
      PermAtSnoc(grants, g, p);
    }
  }

  /** The end of loading: nothing in the region counts as accessed or dirty. */
  ghost predicate Loaded(s: Space, s0: Space, n: nat, writes: seq<Write>, grants: seq<Grant>) {
    && Loading(s, s0, n, writes, grants, -1)
    && forall p :: 0 <= p < n ==> !s.attrs[p].dirty
  }

  lemma LoadingDone(s: Space, s0: Space, n: nat, writes: seq<Write>, grants: seq<Grant>)
    requires Loading(s, s0, n, writes, grants, -1)
    ensures Loaded(Flags(s, 0, n, ClearAccessedDirty), s0, n, writes, grants)
  {
  }

  lemma LoadedIdle(s: Space, s0: Space, n: nat, writes: seq<Write>, grants: seq<Grant>)
    requires Loaded(s, s0, n, writes, grants) && Idle(s0)
    ensures Idle(s)
  {
  }
}
