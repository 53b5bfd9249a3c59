/** What a program finds in its memory and what it reports, from the bytes of its file and its inputs alone. */
module ElfImage {
  import opened Words
  import opened AddressSpace
  import opened ElfLayout
  import opened ElfLoad
  import opened ElfRun

  // ----- numbers in the file, lowest byte first

  function Le2(b: seq<u8>, o: nat): nat
    requires o + 2 <= |b|
  {
    b[o] as int + 0x100 * (b[o + 1] as int)
  }

  function Le4(b: seq<u8>, o: nat): nat
    requires o + 4 <= |b|
  {
    Le2(b, o) + 0x1_0000 * Le2(b, o + 2)
  }

  function Le8(b: seq<u8>, o: nat): nat
    requires o + 8 <= |b|
  {
    Le4(b, o) + 0x1_0000_0000 * Le4(b, o + 4)
  }

  lemma TwoBytes(s: seq<u8>)
    requires |s| == 2
    ensures LittleEndian(s) == Le2(s, 0)
  {
    assert LittleEndian(s[1..]) == s[1] as int by { assert s[1..][1..] == []; }
  }

  lemma {:induction false} LittleEndianConcat(a: seq<u8>, b: seq<u8>)
    ensures LittleEndian(a + b) == LittleEndian(a) + Pow256(|a|) * LittleEndian(b)
  {
    if a == [] {
      assert a + b == b;
    } else {
      assert (a + b)[1..] == a[1..] + b;
      LittleEndianConcat(a[1..], b);
      HeadAndTail(a[0] as int, LittleEndian(a[1..]), Pow256(|a| - 1), LittleEndian(b));
    }
  }

  lemma HeadAndTail(x: nat, t: nat, p: nat, n: nat)
    ensures x + 256 * (t + p * n) == (x + 256 * t) + (256 * p) * n
  {
    assert 256 * (p * n) == (256 * p) * n;
  }

  lemma SmallPowers()
    ensures Pow256(2) == 0x1_0000 && Pow256(4) == 0x1_0000_0000
  {
    Pow256Values();
  }

  lemma FourBytes(s: seq<u8>)
    requires |s| == 4
    ensures LittleEndian(s) == Le4(s, 0)
  {
    hide LittleEndian, Pow256;
    assert s == s[..2] + s[2..];
    LittleEndianConcat(s[..2], s[2..]);
    TwoBytes(s[..2]);
    TwoBytes(s[2..]);
    SmallPowers();
  }

  lemma EightBytes(s: seq<u8>)
    requires |s| == 8
    ensures LittleEndian(s) == Le8(s, 0)
  {
    hide LittleEndian, Pow256;
    assert s == s[..4] + s[4..];
    LittleEndianConcat(s[..4], s[4..]);
    FourBytes(s[..4]);
    FourBytes(s[4..]);
    SmallPowers();
    LeSlice(s, 0, 4);
    LeSlice(s, 4, 4);
  }

  /** A number read from a part of s. */
  lemma LeSlice(s: seq<u8>, o: nat, n: nat)
    requires o + n <= |s|
    ensures n >= 2 ==> Le2(s[o..o + n], 0) == Le2(s, o)
    ensures n >= 4 ==> Le4(s[o..o + n], 0) == Le4(s, o)
    ensures n >= 8 ==> Le8(s[o..o + n], 0) == Le8(s, o)
  {
    var t := s[o..o + n];
    assert forall i :: 0 <= i < n ==> t[i] == s[i + o];
  }

  lemma FieldsAre(b: seq<u8>, o: nat)
    ensures o + 2 <= |b| ==> U16At(b, o) == Le2(b, o)
    ensures o + 4 <= |b| ==> U32At(b, o) == Le4(b, o)
    ensures o + 8 <= |b| ==> U64At(b, o) == Le8(b, o)
  {
    hide LittleEndian, Le2, Le4, Le8;
    if o + 2 <= |b| {
      TwoBytes(b[o..o + 2]);
      LeSlice(b, o, 2);
    }
    if o + 4 <= |b| {
      FourBytes(b[o..o + 4]);
      LeSlice(b, o, 4);
    }
    if o + 8 <= |b| {
      EightBytes(b[o..o + 8]);
      LeSlice(b, o, 8);
    }
  }

  // ----- headers

  /** The header of a fixed-address executable for 64-bit x86, byte by byte. */
  lemma HeaderIs(buf: seq<u8>)
    ensures HeaderOk(buf) <==>
      && |buf| >= 64
      && buf[0] == 0x7f && buf[1] == 'E' as int && buf[2] == 'L' as int && buf[3] == 'F' as int
      && buf[4] == 2 && buf[5] == 1 && buf[6] == 1 && (buf[7] == 0 || buf[7] == 3)
      && buf[16] == 2 && buf[17] == 0 && buf[18] == 62 && buf[19] == 0
      && buf[20] == 1 && buf[21] == 0 && buf[22] == 0 && buf[23] == 0
      && Le8(buf, 32) < |buf| && Le2(buf, 54) < |buf| && Le2(buf, 56) < |buf|
  {
    hide U16At, U32At, U64At, Le8;
    if |buf| >= 64 {
      FieldsAre(buf, 16);
      FieldsAre(buf, 18);
      FieldsAre(buf, 20);
      FieldsAre(buf, 32);
      FieldsAre(buf, 54);
      FieldsAre(buf, 56);
    }
  }

  function Times(i: nat, n: nat): nat {
    i * n
  }

  /** Offset of program header i. */
  function HeaderAt(buf: seq<u8>, i: nat): nat
    requires |buf| >= 64
  {
    Le8(buf, 32) + Times(i, Le2(buf, 54))
  }

  /** Program header i is there and of type 1, a loadable segment. */
  predicate Loadable(buf: seq<u8>, i: nat) {
    |buf| >= 64 && i < Le2(buf, 56) && HeaderAt(buf, i) + 56 <= |buf| && Le4(buf, HeaderAt(buf, i)) == 1
  }

  /** Its offset in the file, its address, and its sizes in the file and in memory. */
  function Offset(buf: seq<u8>, i: nat): nat
    requires Loadable(buf, i)
  {
    Le8(buf, HeaderAt(buf, i) + 8)
  }

  function Address(buf: seq<u8>, i: nat): nat
    requires Loadable(buf, i)
  {
    Le8(buf, HeaderAt(buf, i) + 16)
  }

  function FileSize(buf: seq<u8>, i: nat): nat
    requires Loadable(buf, i)
  {
    Le8(buf, HeaderAt(buf, i) + 32)
  }

  function MemSize(buf: seq<u8>, i: nat): nat
    requires Loadable(buf, i)
  {
    Le8(buf, HeaderAt(buf, i) + 40)
  }

  lemma PlacesAgree(buf: seq<u8>, i: nat)
    requires |buf| >= 64
    ensures PhOff(buf) == Le8(buf, 32) && PhEntSize(buf) == Le2(buf, 54) && PhNum(buf) == Le2(buf, 56)
    ensures PhdrOff(buf, i) == HeaderAt(buf, i)
  {
    hide U16At, U64At, Le8, Le2;
    FieldsAre(buf, 32);
    FieldsAre(buf, 54);
    FieldsAre(buf, 56);
  }

  lemma HeaderFields(buf: seq<u8>, o: nat)
    requires o + 56 <= |buf|
    ensures var p := PhdrAt(buf, o);
      && (p.Load() <==> Le4(buf, o) == 1)
      && (p.Executable() <==> buf[o + 4] % 2 == 1) && (p.Writable() <==> buf[o + 4] / 2 % 2 == 1)
      && p.offset == Le8(buf, o + 8) && p.vaddr == Le8(buf, o + 16)
      && p.filesz == Le8(buf, o + 32) && p.memsz == Le8(buf, o + 40)
  {
    hide U32At, U64At, Le8, Le4;
    FieldsAre(buf, o);
    FieldsAre(buf, o + 4);
    FieldsAre(buf, o + 8);
    FieldsAre(buf, o + 16);
    FieldsAre(buf, o + 32);
    FieldsAre(buf, o + 40);
    LowBits(buf, o + 4);
  }

  lemma LowBits(b: seq<u8>, o: nat)
    requires o + 4 <= |b|
    ensures Le4(b, o) % 2 == b[o] as int % 2 && Le4(b, o) / 2 % 2 == b[o] as int / 2 % 2
  {
    var h := 0x40 * (b[o + 1] as int) + 0x4000 * Le2(b, o + 2);
    LowBitsOf(b[o] as int, h);
  }

  lemma LowBitsOf(x: nat, h: nat)
    ensures (x + 4 * h) % 2 == x % 2 && (x + 4 * h) / 2 % 2 == x / 2 % 2
  {
  }

  // ----- segments

  /** Header i is that of segment k of the model. */
  ghost predicate IsSegment(job: Job, i: nat, k: nat)
    requires HeaderOk(job.buf) && PhdrsInFile(job.buf, PhNum(job.buf))
  {
    && Loadable(job.buf, i) && k < |job.Segs()|
    && var (p, o) := (job.Segs()[k], HeaderAt(job.buf, i));
       p.offset == Offset(job.buf, i) && p.vaddr == Address(job.buf, i)
       && p.filesz == FileSize(job.buf, i) && p.memsz == MemSize(job.buf, i)
       && (p.Executable() <==> job.buf[o + 4] % 2 == 1) && (p.Writable() <==> job.buf[o + 4] / 2 % 2 == 1)
  }

  lemma AcceptedParts(job: Job, vaddrBreak: nat)
    requires job.Accepted(vaddrBreak)
    ensures HeaderOk(job.buf) && PhdrsInFile(job.buf, PhNum(job.buf)) && |job.buf| >= 64
  {
    hide U16At, U32At, U64At, LayoutOf, Fits, Segments, SegmentOk;
  }

  lemma HeaderSegment(job: Job, vaddrBreak: nat, i: nat) returns (k: nat)
    requires job.Accepted(vaddrBreak) && HeaderOk(job.buf) && PhdrsInFile(job.buf, PhNum(job.buf))
    requires Loadable(job.buf, i)
    ensures IsSegment(job, i, k) && k == |SegmentsBelow(job, i)|
  {
    hide HeaderOk, Acceptable, PhdrAt, Le2, Le4, Le8, Segments, U16At, U64At;
    AcceptedParts(job, vaddrBreak);
    PlacesAgree(job.buf, i);
    SegmentIndex(job.buf, i, PhNum(job.buf));
    HeaderFields(job.buf, HeaderAt(job.buf, i));
    k := |SegmentsBelow(job, i)|;
  }

  function SegmentsBelow(job: Job, i: nat): seq<Phdr>
    requires HeaderOk(job.buf) && PhdrsInFile(job.buf, PhNum(job.buf))
  {
    if i <= PhNum(job.buf) then Segments(job.buf, i) else []
  }

  /** And every segment has its header. */
  lemma SegmentHeader(job: Job, vaddrBreak: nat, k: nat) returns (i: nat)
    requires job.Accepted(vaddrBreak) && HeaderOk(job.buf) && PhdrsInFile(job.buf, PhNum(job.buf))
    requires k < |job.Segs()|
    ensures IsSegment(job, i, k) && k == |SegmentsBelow(job, i)|
  {
    hide HeaderOk, Acceptable, PhdrAt, Le2, Le4, Le8, Segments, U16At, U64At;
    AcceptedParts(job, vaddrBreak);
    i := FindHeader(job.buf, PhNum(job.buf), k);
    PlacesAgree(job.buf, i);
    SegmentIndex(job.buf, i, PhNum(job.buf));
    HeaderFields(job.buf, HeaderAt(job.buf, i));
  }

  lemma {:induction false} FindHeader(buf: seq<u8>, n: nat, k: nat) returns (i: nat)
    requires |buf| >= EHDR_SIZE && PhdrsInFile(buf, n) && k < |Segments(buf, n)|
    ensures i < n && PhdrOff(buf, i) + PHDR_SIZE <= |buf| && PhdrAt(buf, PhdrOff(buf, i)).Load()
    ensures PhdrsInFile(buf, i) && |Segments(buf, i)| == k
  {
    hide PhdrAt, PhOff, PhEntSize;
    SegmentsStep(buf, n - 1);
    if k < |Segments(buf, n - 1)| {
      i := FindHeader(buf, n - 1, k);
    } else {
      i := n - 1;
    }
  }

  lemma {:induction false} BelowGrows(buf: seq<u8>, i: nat, j: nat)
    requires |buf| >= EHDR_SIZE && i <= j && PhdrsInFile(buf, j)
    ensures PhdrsInFile(buf, i) && |Segments(buf, i)| <= |Segments(buf, j)|
  {
    hide PhdrAt, PhOff, PhEntSize;
    if i < j {
      SegmentsStep(buf, j - 1);
      BelowGrows(buf, i, j - 1);
    }
  }

  /** A later segment has a later header. */
  lemma Later(job: Job, vaddrBreak: nat, i: nat, k: nat, l: nat) returns (j: nat)
    requires job.Accepted(vaddrBreak) && HeaderOk(job.buf) && PhdrsInFile(job.buf, PhNum(job.buf))
    requires IsSegment(job, i, k) && k == |SegmentsBelow(job, i)| && k < l < |job.Segs()|
    ensures i < j && IsSegment(job, j, l)
  {
    hide HeaderOk, Acceptable, PhdrAt, Le2, Le4, Le8, IsSegment, U16At, U64At, Segments, SegmentsBelow, PhdrsInFile,
         LayoutOf;
    AcceptedParts(job, vaddrBreak);
    j := SegmentHeader(job, vaddrBreak, l);
    InTable(job, vaddrBreak, i, k);
    InTable(job, vaddrBreak, j, l);
    if j <= i {
      BelowGrows(job.buf, j, i);
    }
  }

  lemma InTable(job: Job, vaddrBreak: nat, i: nat, k: nat)
    requires job.Accepted(vaddrBreak) && HeaderOk(job.buf) && PhdrsInFile(job.buf, PhNum(job.buf))
    requires IsSegment(job, i, k)
    ensures |job.buf| >= EHDR_SIZE && i < PhNum(job.buf) && PhdrsInFile(job.buf, i)
    ensures SegmentsBelow(job, i) == Segments(job.buf, i)
  {
    hide HeaderOk, Acceptable, Le2, Le4, Le8, U16At, U64At, PhdrAt;
    AcceptedParts(job, vaddrBreak);
    PlacesAgree(job.buf, i);
  }

  // ----- permissions

  /** Some byte of the segment lies on page p of the user range, or an empty segment lies inside it. */
  predicate OnPage(buf: seq<u8>, i: nat, p: nat)
    requires Loadable(buf, i)
  {
    var a := 0x40_0000 + 4096 * p;
    Address(buf, i) < a + 4096 && a < Address(buf, i) + MemSize(buf, i)
  }

  lemma GrantPages(g: Phdr, p: nat)
    requires KERNEL_BREAK <= g.vaddr
    ensures var a := 0x40_0000 + 4096 * p;
      SegmentGrant(g).lo <= p < SegmentGrant(g).hi <==> g.vaddr < a + 4096 && a < g.vaddr + g.memsz
  {
    var (x, y) := (g.vaddr - KERNEL_BREAK, g.vaddr + g.memsz - KERNEL_BREAK);
    PageLow(x, p);
    PageHigh(y, p);
  }

  lemma PageLow(x: nat, p: nat)
    ensures x / PAGE_SIZE <= p <==> x < PAGE_SIZE * p + PAGE_SIZE
  {
  }

  lemma PageHigh(y: nat, p: nat)
    ensures p < PageEnd(y) <==> PAGE_SIZE * p < y
  {
  }

  /**
   The page permissions of a loaded program, from the file's bytes: if header i is the last one whose segment
   touches the page, the page is executable exactly if bit 0, and writable exactly if bit 1, of the flags in that
   header is set.
   */
  lemma PermsFromFile(job: Job, vaddrBreak: nat, i: nat, p: nat)
    requires job.Accepted(vaddrBreak) && Loadable(job.buf, i) && OnPage(job.buf, i, p)
    requires forall j :: j > i && Loadable(job.buf, j) ==> !OnPage(job.buf, j, p)
    ensures p < |InitialImage(job, vaddrBreak).perms|
    ensures var (perm, flags) := (InitialImage(job, vaddrBreak).perms[p], job.buf[HeaderAt(job.buf, i) + 4]);
      (perm.noExecute <==> flags % 2 == 0) && (perm.writable <==> flags / 2 % 2 == 1)
  {
    hide HeaderOk, Acceptable, Le2, Le4, Le8, IsSegment, SegmentGrant, SegmentsPlaced, LayoutOf, Segments, PhdrsInFile,
         ImageGrants, ImageWrites, OnPage, U16At, U64At;
    AcceptedParts(job, vaddrBreak);
    HeadersAccepted(job, vaddrBreak);
    var k := HeaderSegment(job, vaddrBreak, i);
    SegmentPages(job, vaddrBreak, i, k, p);
    forall l | k <= l < |job.Segs()| ensures KERNEL_BREAK <= job.Segs()[l].vaddr {
      SegmentAt(job, vaddrBreak, l);
    }
    forall l | k < l < |job.Segs()| ensures !(SegmentGrant(job.Segs()[l]).lo <= p < SegmentGrant(job.Segs()[l]).hi) {
      var j := Later(job, vaddrBreak, i, k, l);
      SegmentPages(job, vaddrBreak, j, l, p);
    }
    LastSegmentDecides(job, vaddrBreak, k, p);
    PageInside(job, vaddrBreak, k, p);
  }

  lemma SegmentAt(job: Job, vaddrBreak: nat, k: nat)
    requires job.Accepted(vaddrBreak) && HeaderOk(job.buf) && PhdrsInFile(job.buf, PhNum(job.buf)) && k < |job.Segs()|
    ensures var (p, l) := (job.Segs()[k], job.Layout());
      && KERNEL_BREAK <= p.vaddr && p.vaddr + p.memsz + PAGE_SIZE <= l.loadBreak && p.filesz <= p.memsz
      && (p.filesz != 0 ==> p.offset + p.filesz <= |job.buf|)
      && KERNEL_BREAK + job.Pages() * PAGE_SIZE == l.break_ && l.loadBreak <= l.break_
  {
    hide HeaderOk, LayoutOf, Segments, PhdrsInFile, Acceptable;
    PagesFit(job, vaddrBreak);
    LayoutOrdered(job.config);
  }

  lemma SegmentPages(job: Job, vaddrBreak: nat, i: nat, k: nat, p: nat)
    requires job.Accepted(vaddrBreak) && HeaderOk(job.buf) && PhdrsInFile(job.buf, PhNum(job.buf))
    requires IsSegment(job, i, k)
    ensures Loadable(job.buf, i) && k < |job.Segs()| && KERNEL_BREAK <= job.Segs()[k].vaddr
    ensures OnPage(job.buf, i, p) <==> SegmentGrant(job.Segs()[k]).lo <= p < SegmentGrant(job.Segs()[k]).hi
    ensures var (g, flags) := (job.Segs()[k], job.buf[HeaderAt(job.buf, i) + 4]);
      (g.Executable() <==> flags % 2 == 1) && (g.Writable() <==> flags / 2 % 2 == 1)
  {
    hide HeaderOk, Acceptable, Le2, Le4, Le8, SegmentGrant, LayoutOf, Segments, PhdrsInFile, U16At, U64At;
    SegmentAt(job, vaddrBreak, k);
    GrantPages(job.Segs()[k], p);
  }

  lemma PageInside(job: Job, vaddrBreak: nat, k: nat, p: nat)
    requires job.Accepted(vaddrBreak) && HeaderOk(job.buf) && PhdrsInFile(job.buf, PhNum(job.buf)) && k < |job.Segs()|
    requires KERNEL_BREAK <= job.Segs()[k].vaddr && SegmentGrant(job.Segs()[k]).lo <= p < SegmentGrant(job.Segs()[k]).hi
    ensures p < job.Pages()
  {
    hide HeaderOk, Acceptable, SegmentGrant, LayoutOf, Segments, PhdrsInFile;
    SegmentAt(job, vaddrBreak, k);
    GrantPages(job.Segs()[k], p);
  }

  // ----- contents

  lemma {:induction false} ByteAtSkip(a: seq<Write>, b: seq<Write>, i: nat)
    requires forall k :: 0 <= k < |b| ==> !Covers(b[k], i)
    ensures ByteAt(a + b, i) == ByteAt(a, i)
  {
    if b == [] {
      assert a + b == a;
    } else {
      assert (a + b)[..|a + b| - 1] == a + b[..|b| - 1];
      ByteAtSkip(a, b[..|b| - 1], i);
    }
  }

  /** The last write that covers a byte decides. */
  lemma ByteAtLast(ws: seq<Write>, k: nat, i: nat)
    requires k < |ws| && Covers(ws[k], i) && forall l :: k < l < |ws| ==> !Covers(ws[l], i)
    ensures ByteAt(ws, i) == ws[k].data[i - ws[k].off]
  {
    var (front, back) := (ws[..k], ws[k + 1..]);
    assert ws == (front + [ws[k]]) + back;
    ByteAtSkip(front + [ws[k]], back, i);
    ByteAtSnoc(front, ws[k], i);
  }

  lemma ByteAtNone(ws: seq<Write>, i: nat)
    requires forall l :: 0 <= l < |ws| ==> !Covers(ws[l], i)
    ensures ByteAt(ws, i) == 0
  {
    assert [] + ws == ws;
    ByteAtSkip([], ws, i);
  }

  /** Where the writes of a load lie: inputs behind the load region, the stack on its last page. */
  lemma WhereRegions(job: Job, k: nat)
    requires job.Ok() && RegionsPlaced(job.config) && k < |RegionWrites(job)|
    ensures RegionWrites(job)[k].off >= job.Layout().loadBreak - KERNEL_BREAK >= 0
  {
    hide LayoutOf, Bytes;
    LayoutOrdered(job.config);
  }

  lemma WhereStack(job: Job, k: nat)
    requires job.Ok() && HeaderOk(job.buf) && job.Layout().break_ <= MAX_MEMORY_SIZE
    requires KERNEL_BREAK + PAGE_SIZE <= job.Layout().loadBreak && k < |StackWrites(job)|
    ensures |StackWrites(job)| == 35
    ensures var (w, top) := (StackWrites(job)[k], job.Layout().loadBreak - KERNEL_BREAK - 112);
      if k == 0 then w.off == top && |w.data| == 112 else w.off == top - 8 * k && |w.data| == 8
  {
    hide LayoutOf, Bytes, HeaderOk, DuckInfo, StackWords;
  }

  lemma SegmentBytesBelow(job: Job, vaddrBreak: nat, i: nat)
    requires job.Accepted(vaddrBreak) && KERNEL_BREAK + i + PAGE_SIZE < job.Layout().loadBreak
    ensures HeaderOk(job.buf) && PhdrsInFile(job.buf, PhNum(job.buf))
    ensures SegmentsPlaced(job.Segs(), |job.buf|, job.Layout().loadBreak)
    ensures ByteAt(ImageWrites(job, vaddrBreak), i) ==
      ByteAt(SegmentWrites(job.buf, job.Segs(), job.Layout().loadBreak), i)
  {
    hide LayoutOf, Acceptable, HeaderOk, PhdrsInFile, Segments, SegmentsPlaced, SegmentWrites, RegionWrites,
         StackWrites, RegionsPlaced;
    PagesFit(job, vaddrBreak);
    LayoutOrdered(job.config);
    var (a, b, c) := (SegmentWrites(job.buf, job.Segs(), job.Layout().loadBreak), RegionWrites(job), StackWrites(job));
    forall k | 0 <= k < |b| ensures !Covers(b[k], i) { WhereRegions(job, k); }
    forall k | 0 <= k < |c| ensures !Covers(c[k], i) { WhereStack(job, k); }
    ByteAtSkip(a + b, c, i);
    ByteAtSkip(a, b, i);
  }

  /** An address holds a byte of the file for header i. */
  predicate InFilePart(buf: seq<u8>, i: nat, a: nat)
    requires Loadable(buf, i)
  {
    Address(buf, i) <= a < Address(buf, i) + FileSize(buf, i)
  }

  lemma SegmentCovers(job: Job, vaddrBreak: nat, i: nat, k: nat, a: nat)
    requires job.Accepted(vaddrBreak) && HeaderOk(job.buf) && PhdrsInFile(job.buf, PhNum(job.buf))
    requires SegmentsPlaced(job.Segs(), |job.buf|, job.Layout().loadBreak) && IsSegment(job, i, k) && a >= KERNEL_BREAK
    ensures Loadable(job.buf, i) && k < |job.Segs()|
    ensures var w := SegmentWrites(job.buf, job.Segs(), job.Layout().loadBreak)[k];
      && (Covers(w, a - KERNEL_BREAK) <==> InFilePart(job.buf, i, a))
      && (InFilePart(job.buf, i, a) ==>
           Offset(job.buf, i) + (a - Address(job.buf, i)) < |job.buf|
           && w.data[a - KERNEL_BREAK - w.off] == job.buf[Offset(job.buf, i) + (a - Address(job.buf, i))]
           && a + PAGE_SIZE < job.Layout().loadBreak)
  {
    hide HeaderOk, PhdrsInFile, Segments, Le2, Le4, Le8, LayoutOf, Acceptable, U16At, U64At;
    SegmentAt(job, vaddrBreak, k);
  }

  /**
   The contents of a loaded program, from the file's bytes: byte k of segment i in memory is byte k behind the
   segment's offset in the file, if no later segment's part of the file lies over it.
   */
  lemma BytesFromFile(job: Job, vaddrBreak: nat, i: nat, k: nat)
    requires job.Accepted(vaddrBreak) && Loadable(job.buf, i) && k < FileSize(job.buf, i)
    requires forall j :: j > i && Loadable(job.buf, j) ==> !InFilePart(job.buf, j, Address(job.buf, i) + k)
    ensures var (img, at) := (InitialImage(job, vaddrBreak), Address(job.buf, i) + k - 0x40_0000);
      && 0 <= at < |img.bytes| && Offset(job.buf, i) + k < |job.buf|
      && img.bytes[at] == job.buf[Offset(job.buf, i) + k]
  {
    hide HeaderOk, Acceptable, Le2, Le4, Le8, IsSegment, SegmentsPlaced, LayoutOf, Segments, PhdrsInFile, ImageWrites,
         InFilePart, U16At, U64At, Covers, SegmentWrites;
    AcceptedParts(job, vaddrBreak);
    HeadersAccepted(job, vaddrBreak);
    var s := HeaderSegment(job, vaddrBreak, i);
    var a := Address(job.buf, i) + k;
    AddressAt(job, vaddrBreak, i, s, k);
    SegmentCovers(job, vaddrBreak, i, s, a);
    var ws := SegmentWrites(job.buf, job.Segs(), job.Layout().loadBreak);
    SegmentAt(job, vaddrBreak, s);
    WriteCount(job);
    forall l | s < l < |ws| ensures !Covers(ws[l], a - KERNEL_BREAK) {
      var j := Later(job, vaddrBreak, i, s, l);
      SegmentCovers(job, vaddrBreak, j, l, a);
    }
    ByteAtLast(ws, s, a - KERNEL_BREAK);
    SegmentBytesBelow(job, vaddrBreak, a - KERNEL_BREAK);
  }

  lemma AddressAt(job: Job, vaddrBreak: nat, i: nat, s: nat, k: nat)
    requires job.Accepted(vaddrBreak) && HeaderOk(job.buf) && PhdrsInFile(job.buf, PhNum(job.buf))
    requires IsSegment(job, i, s) && k < FileSize(job.buf, i)
    ensures Address(job.buf, i) >= KERNEL_BREAK && InFilePart(job.buf, i, Address(job.buf, i) + k)
  {
    hide HeaderOk, PhdrsInFile, Segments, Le2, Le4, Le8, LayoutOf, Acceptable, U16At, U64At;
    SegmentAt(job, vaddrBreak, s);
  }

  lemma WriteCount(job: Job)
    requires HeaderOk(job.buf) && PhdrsInFile(job.buf, PhNum(job.buf))
    requires SegmentsPlaced(job.Segs(), |job.buf|, job.Layout().loadBreak)
    ensures |SegmentWrites(job.buf, job.Segs(), job.Layout().loadBreak)| == |job.Segs()|
  {
    hide HeaderOk, PhdrsInFile, Segments, LayoutOf, SegmentWrite;
  }

  /** Everything else below the stack page is zero. */
  lemma ZeroElsewhere(job: Job, vaddrBreak: nat, a: nat)
    requires job.Accepted(vaddrBreak) && 0x40_0000 <= a < job.Layout().loadBreak - 4096
    requires forall j :: Loadable(job.buf, j) ==> !InFilePart(job.buf, j, a)
    ensures a - 0x40_0000 < |InitialImage(job, vaddrBreak).bytes|
    ensures InitialImage(job, vaddrBreak).bytes[a - 0x40_0000] == 0
  {
    hide HeaderOk, Acceptable, Le2, Le4, Le8, IsSegment, SegmentsPlaced, LayoutOf, Segments, PhdrsInFile, ImageWrites,
         InFilePart, U16At, U64At, Covers, SegmentWrites;
    AcceptedParts(job, vaddrBreak);
    HeadersAccepted(job, vaddrBreak);
    PagesFit(job, vaddrBreak);
    LayoutOrdered(job.config);
    WriteCount(job);
    var ws := SegmentWrites(job.buf, job.Segs(), job.Layout().loadBreak);
    forall l | 0 <= l < |ws| ensures !Covers(ws[l], a - KERNEL_BREAK) {
      var j := SegmentHeader(job, vaddrBreak, l);
      SegmentCovers(job, vaddrBreak, j, l, a);
    }
    ByteAtNone(ws, a - KERNEL_BREAK);
    SegmentBytesBelow(job, vaddrBreak, a - KERNEL_BREAK);
  }

  // ----- inputs and stack

  lemma {:induction false} BytesValue(v: nat, n: nat)
    requires v < Pow256(n)
    ensures LittleEndian(Bytes(v, n)) == v
  {
    if n > 0 {
      BytesValue(v / 256, n - 1);
      assert Bytes(v, n)[1..] == Bytes(v / 256, n - 1);
    }
  }

  lemma WordBytes(v: u64)
    ensures Le8(Bytes(v, 8), 0) == v
  {
    hide Bytes, LittleEndian, Le8, Pow256;
    Pow256Values();
    BytesValue(v, 8);
    EightBytes(Bytes(v, 8));
  }

  lemma {:induction false} ConcatWord(words: seq<u64>, j: nat)
    requires j < |words|
    ensures Concat(words)[8 * j..8 * j + 8] == Bytes(words[j], 8)
  {
    hide Bytes;
    if j > 0 {
      ConcatWord(words[1..], j - 1);
      var t := Concat(words[1..]);
      assert Concat(words)[8 * j..8 * j + 8] == t[8 * (j - 1)..8 * (j - 1) + 8];
    }
  }

  /** A write that no later one touches is found unchanged. */
  lemma WrittenAt(ws: seq<Write>, k: nat, b: seq<u8>)
    requires k < |ws| && ws[k].off + |ws[k].data| <= |b| && forall i :: 0 <= i < |b| ==> b[i] == ByteAt(ws, i)
    requires forall l :: k < l < |ws| ==>
      ws[l].off + |ws[l].data| <= ws[k].off || ws[k].off + |ws[k].data| <= ws[l].off
    ensures b[ws[k].off..ws[k].off + |ws[k].data|] == ws[k].data
  {
    hide ByteAt;
    var w := ws[k];
    forall i | w.off <= i < w.off + |w.data| ensures b[i] == w.data[i - w.off] {
      ByteAtLast(ws, k, i);
    }
  }

  /** The bytes a program starts with. */
  ghost function Start(job: Job, vaddrBreak: nat): (b: seq<u8>)
    requires job.Accepted(vaddrBreak)
    ensures |b| == job.Pages() * PAGE_SIZE
  {
    InitialImage(job, vaddrBreak).bytes
  }

  lemma StartSize(job: Job, vaddrBreak: nat)
    requires job.Accepted(vaddrBreak)
    ensures var l := job.Layout();
      && HeaderOk(job.buf) && RegionsPlaced(job.config) && l.break_ <= MAX_MEMORY_SIZE
      && KERNEL_BREAK + 2 * PAGE_SIZE <= l.loadBreak && KERNEL_BREAK + |Start(job, vaddrBreak)| == l.break_
      && l.loadBreak <= l.stdout <= l.stderr <= l.ib <= l.ob <= l.image < l.random < l.break_
  {
    hide LayoutOf, Acceptable, HeaderOk, PhdrsInFile, Segments, RegionsPlaced, SegmentsPlaced, InitialImage;
    PagesFit(job, vaddrBreak);
    LayoutOrdered(job.config);
  }

  lemma StartBytes(job: Job, vaddrBreak: nat, i: nat)
    requires job.Accepted(vaddrBreak) && i < |Start(job, vaddrBreak)|
    ensures Start(job, vaddrBreak)[i] == ByteAt(ImageWrites(job, vaddrBreak), i)
  {
    hide ImageWrites, ByteAt, Acceptable;
  }

  lemma StackCount(job: Job)
    requires job.Ok() && HeaderOk(job.buf) && job.Layout().break_ <= MAX_MEMORY_SIZE
    requires KERNEL_BREAK + PAGE_SIZE <= job.Layout().loadBreak
    ensures |StackWrites(job)| == 35
  {
    hide LayoutOf, HeaderOk, DuckInfo, StackWords;
  }

  lemma StackWritten(job: Job, vaddrBreak: nat, k: nat)
    requires job.Accepted(vaddrBreak)
    ensures HeaderOk(job.buf) && job.Layout().break_ <= MAX_MEMORY_SIZE
      && KERNEL_BREAK + PAGE_SIZE <= job.Layout().loadBreak
    ensures |StackWrites(job)| == 35
    ensures k < 35 ==> var (w, b) := (StackWrites(job)[k], Start(job, vaddrBreak));
      w.off + |w.data| <= |b| && b[w.off..w.off + |w.data|] == w.data
  {
    hide LayoutOf, Acceptable, HeaderOk, PhdrsInFile, Segments, RegionsPlaced, SegmentsPlaced, StackWrites,
         RegionWrites, SegmentWrites, Start;
    StartSize(job, vaddrBreak);
    PagesFit(job, vaddrBreak);
    StackCount(job);
    if k < 35 {
      var front := SegmentWrites(job.buf, job.Segs(), job.Layout().loadBreak) + RegionWrites(job);
      var st := StackWrites(job);
      var ws := ImageWrites(job, vaddrBreak);
      assert ws == front + st;
      forall i | 0 <= i < |Start(job, vaddrBreak)| ensures Start(job, vaddrBreak)[i] == ByteAt(ws, i) {
        StartBytes(job, vaddrBreak, i);
      }
      WhereStack(job, k);
      forall l | |front| + k < l < |ws|
        ensures ws[l].off + |ws[l].data| <= st[k].off || st[k].off + |st[k].data| <= ws[l].off
      {
        WhereStack(job, l - |front|);
      }
      assert ws[|front| + k] == st[k];
      WrittenAt(ws, |front| + k, Start(job, vaddrBreak));
    }
  }

  /** Word j of duckinfo, 8 j bytes behind its start. */
  lemma InfoWord(job: Job, vaddrBreak: nat, j: nat)
    requires job.Accepted(vaddrBreak) && j < 14
    ensures var (l, c, b) := (job.Layout(), job.config, Start(job, vaddrBreak));
      var o := l.loadBreak - 112 - 0x40_0000;
      && 0 <= o && o + 112 <= |b|
      && Le8(b, o + 8 * j) ==
         [40, l.loadBreak, |c.stdin|, l.stdout, c.stdoutMaxSize, 0, l.stderr, c.stderrMaxSize, 0,
          l.ib, |c.ib|, l.ob, |c.ob|, job.tscFreq][j]
  {
    hide LayoutOf, Acceptable, HeaderOk, RegionsPlaced, Start, Le8, Bytes, Concat;
    StartSize(job, vaddrBreak);
    StackWritten(job, vaddrBreak, 0);
    WhereStack(job, 0);
    var (l, c, b) := (job.Layout(), job.config, Start(job, vaddrBreak));
    var o := l.loadBreak - 112 - KERNEL_BREAK;
    var words: seq<u64> := [40, l.loadBreak, |c.stdin|, l.stdout, c.stdoutMaxSize, 0, l.stderr, c.stderrMaxSize, 0,
                            l.ib, |c.ib|, l.ob, |c.ob|, job.tscFreq];
    InfoWords(job, words);
    ConcatWord(words, j);
    WordBytes(words[j]);
    assert b[o + 8 * j..o + 8 * j + 8] == b[o..o + 112][8 * j..8 * j + 8];
    LeSlice(b, o + 8 * j, 8);
  }

  lemma InfoWords(job: Job, words: seq<u64>)
    requires job.Ok() && job.Layout().break_ <= MAX_MEMORY_SIZE && HeaderOk(job.buf)
    requires KERNEL_BREAK + PAGE_SIZE <= job.Layout().loadBreak
    requires var (l, c) := (job.Layout(), job.config);
      words == [40, l.loadBreak, |c.stdin|, l.stdout, c.stdoutMaxSize, 0, l.stderr, c.stderrMaxSize, 0,
                l.ib, |c.ib|, l.ob, |c.ob|, job.tscFreq]
    ensures |StackWrites(job)| > 0 && StackWrites(job)[0].data == Concat(words)
  {
    hide LayoutOf, HeaderOk, Concat, StackWords;
  }

  /** Word j behind offset o. */
  function WordAt(b: seq<u8>, o: int, j: nat): nat {
    if 0 <= o && o + 8 * j + 8 <= |b| then Le8(b, o + 8 * j) else 0
  }

  lemma StackWordAt(job: Job, vaddrBreak: nat, j: nat)
    requires job.Accepted(vaddrBreak) && j < 34
    ensures HeaderOk(job.buf) && job.Layout().break_ <= MAX_MEMORY_SIZE
    ensures var (b, o) := (Start(job, vaddrBreak), job.Layout().loadBreak - 384 - KERNEL_BREAK);
      0 <= o && o + 384 <= |b| && WordAt(b, o, j) == StackWords(job)[33 - j]
  {
    hide LayoutOf, Acceptable, HeaderOk, RegionsPlaced, Start, Le8, Bytes, StackWords;
    StartSize(job, vaddrBreak);
    var k := 34 - j;
    StackWritten(job, vaddrBreak, k);
    WhereStack(job, k);
    PushedWord(job, k);
    WordBytes(StackWords(job)[k - 1]);
    LeSlice(Start(job, vaddrBreak), job.Layout().loadBreak - 384 - KERNEL_BREAK + 8 * j, 8);
  }

  /**
   The stack a program starts on, word by word from where rsp points: argument count, the ends of arguments and
   environment, and the auxiliary vector in pairs of tag and value.
   */
  lemma StackIs(job: Job, vaddrBreak: nat)
    requires job.Accepted(vaddrBreak)
    ensures |job.buf| >= 64
    ensures var (l, buf, b) := (job.Layout(), job.buf, Start(job, vaddrBreak));
      var o := l.loadBreak - 384 - 0x40_0000;
      && 0 <= o && o + 384 <= |b|
      && WordAt(b, o, 0) == 0 && WordAt(b, o, 1) == 0 && WordAt(b, o, 2) == 0
      && WordAt(b, o, 3) == 25 && WordAt(b, o, 4) == l.random
      && WordAt(b, o, 5) == 23 && WordAt(b, o, 6) == 0
      && WordAt(b, o, 7) == 14 && WordAt(b, o, 8) == 1000 && WordAt(b, o, 9) == 13 && WordAt(b, o, 10) == 1000
      && WordAt(b, o, 11) == 12 && WordAt(b, o, 12) == 1000 && WordAt(b, o, 13) == 11 && WordAt(b, o, 14) == 1000
      && WordAt(b, o, 15) == 16 && WordAt(b, o, 16) == 2 && WordAt(b, o, 17) == 16 && WordAt(b, o, 18) == 0xbfebfbff
      && WordAt(b, o, 19) == 5 && WordAt(b, o, 20) == Le2(buf, 56)
      && WordAt(b, o, 21) == 4 && WordAt(b, o, 22) == Le2(buf, 54)
      && WordAt(b, o, 23) == 9 && WordAt(b, o, 24) == Le8(buf, 24)
      && WordAt(b, o, 25) == 3 && WordAt(b, o, 26) == l.image + Le8(buf, 32)
      && WordAt(b, o, 27) == 7 && WordAt(b, o, 28) == l.image
      && WordAt(b, o, 29) == 0x6b637564 && WordAt(b, o, 30) == l.loadBreak - 112
      && WordAt(b, o, 31) == 6 && WordAt(b, o, 32) == 4096 && WordAt(b, o, 33) == 0
  {
    hide LayoutOf, Acceptable, HeaderOk, Start, Le8, Le2, WordAt, U16At, U64At, StackWords;
    AcceptedParts(job, vaddrBreak);
    StackWordAt(job, vaddrBreak, 0);
    var (b, o) := (Start(job, vaddrBreak), job.Layout().loadBreak - 384 - KERNEL_BREAK);
    forall j | 0 <= j < 34 ensures WordAt(b, o, j) == StackWords(job)[33 - j] {
      StackWordAt(job, vaddrBreak, j);
    }
    PlacesAgree(job.buf, 0);
    FieldsAre(job.buf, 24);
    FixedWords(job);
    HeaderWords(job);
  }

  lemma FixedWords(job: Job)
    requires job.Ok() && HeaderOk(job.buf) && job.Layout().break_ <= MAX_MEMORY_SIZE
    ensures var (w, l) := (StackWords(job), job.Layout());
      && w[33] == 0 && w[32] == 0 && w[31] == 0 && w[30] == 25 && w[29] == l.random && w[28] == 23 && w[27] == 0
      && w[26] == 14 && w[25] == 1000 && w[24] == 13 && w[23] == 1000 && w[22] == 12 && w[21] == 1000
      && w[20] == 11 && w[19] == 1000 && w[18] == 16 && w[17] == 2 && w[16] == 16 && w[15] == 0xbfebfbff
  {
    hide LayoutOf, HeaderOk, U16At, U64At;
  }

  lemma HeaderWords(job: Job)
    requires job.Ok() && HeaderOk(job.buf) && job.Layout().break_ <= MAX_MEMORY_SIZE && |job.buf| >= 64
    ensures var (w, l, buf) := (StackWords(job), job.Layout(), job.buf);
      && w[14] == 5 && w[13] == PhNum(buf) && w[12] == 4 && w[11] == PhEntSize(buf) && w[10] == 9 && w[9] == Entry(buf)
      && w[8] == 3 && w[7] == l.image + PhOff(buf) && w[6] == 7 && w[5] == l.image
      && w[4] == 0x6b637564 && w[3] == l.loadBreak - 112 && w[2] == 6 && w[1] == 4096 && w[0] == 0
  {
    hide LayoutOf, HeaderOk, U16At, U64At;
  }

  lemma PushedWord(job: Job, k: nat)
    requires job.Ok() && HeaderOk(job.buf) && job.Layout().break_ <= MAX_MEMORY_SIZE
    requires KERNEL_BREAK + PAGE_SIZE <= job.Layout().loadBreak && 0 < k < 35
    ensures |StackWrites(job)| == 35 && StackWrites(job)[k].data == Bytes(StackWords(job)[k - 1], 8)
  {
    hide LayoutOf, HeaderOk, Bytes, DuckInfo, StackWords;
  }

  lemma RegionsOrdered(job: Job, k: nat, l: nat)
    requires job.Ok() && RegionsPlaced(job.config) && k < l < |RegionWrites(job)|
    ensures RegionWrites(job)[k].off + |RegionWrites(job)[k].data| <= RegionWrites(job)[l].off
  {
    hide LayoutOf, Bytes;
    LayoutOrdered(job.config);
  }

  lemma RegionEnds(job: Job, k: nat)
    requires job.Ok() && RegionsPlaced(job.config) && k < |RegionWrites(job)|
    ensures RegionWrites(job)[k].off + |RegionWrites(job)[k].data| <= job.Layout().break_ - KERNEL_BREAK
  {
    hide LayoutOf, Bytes;
    LayoutOrdered(job.config);
  }

  lemma RegionWritten(job: Job, vaddrBreak: nat, k: nat)
    requires job.Accepted(vaddrBreak) && k < |RegionWrites(job)|
    ensures var (w, b) := (RegionWrites(job)[k], Start(job, vaddrBreak));
      w.off + |w.data| <= |b| && b[w.off..w.off + |w.data|] == w.data
  {
    hide LayoutOf, Acceptable, HeaderOk, PhdrsInFile, Segments, RegionsPlaced, SegmentsPlaced, StackWrites,
         RegionWrites, SegmentWrites, Start;
    StartSize(job, vaddrBreak);
    PagesFit(job, vaddrBreak);
    var front := SegmentWrites(job.buf, job.Segs(), job.Layout().loadBreak);
    var (rs, st) := (RegionWrites(job), StackWrites(job));
    var ws := ImageWrites(job, vaddrBreak);
    assert ws == front + rs + st;
    forall i | 0 <= i < |Start(job, vaddrBreak)| ensures Start(job, vaddrBreak)[i] == ByteAt(ws, i) {
      StartBytes(job, vaddrBreak, i);
    }
    WhereRegions(job, k);
    RegionEnds(job, k);
    forall l | |front| + k < l < |ws|
      ensures ws[l].off + |ws[l].data| <= rs[k].off || rs[k].off + |rs[k].data| <= ws[l].off
    {
      if l < |front| + |rs| {
        RegionsOrdered(job, k, l - |front|);
      } else {
        WhereStack(job, l - |front| - |rs|);
      }
    }
    assert ws[|front| + k] == rs[k];
    WrittenAt(ws, |front| + k, Start(job, vaddrBreak));
  }

  /** The output buffers, and OB if it is to be cleared, are given to the program as zeros. */
  lemma ClearRegions(job: Job, vaddrBreak: nat, a: nat)
    requires job.Accepted(vaddrBreak)
    requires var (l, c) := (job.Layout(), job.config);
      l.stdout <= a < l.ib || (c.obNeedClear && l.ob <= a < l.image)
    ensures 0 <= a - KERNEL_BREAK < |Start(job, vaddrBreak)| && Start(job, vaddrBreak)[a - KERNEL_BREAK] == 0
  {
    hide LayoutOf, Acceptable, HeaderOk, PhdrsInFile, Segments, RegionsPlaced, SegmentsPlaced, StackWrites,
         RegionWrites, SegmentWrites, Start, Covers;
    StartSize(job, vaddrBreak);
    PagesFit(job, vaddrBreak);
    var i := a - KERNEL_BREAK;
    var front := SegmentWrites(job.buf, job.Segs(), job.Layout().loadBreak);
    var (rs, st) := (RegionWrites(job), StackWrites(job));
    var ws := ImageWrites(job, vaddrBreak);
    assert ws == front + rs + st;
    WriteCount(job);
    forall l | 0 <= l < |ws| ensures !Covers(ws[l], i) {
      if l < |front| {
        SegmentWriteLow(job, vaddrBreak, l, i);
      } else if l < |front| + |rs| {
        NotCleared(job, l - |front|, a);
      } else {
        StackWriteLow(job, l - |front| - |rs|, i);
      }
    }
    ByteAtNone(ws, i);
    StartBytes(job, vaddrBreak, i);
  }

  lemma SegmentWriteLow(job: Job, vaddrBreak: nat, l: nat, i: nat)
    requires job.Accepted(vaddrBreak) && HeaderOk(job.buf) && PhdrsInFile(job.buf, PhNum(job.buf))
    requires SegmentsPlaced(job.Segs(), |job.buf|, job.Layout().loadBreak) && l < |job.Segs()|
    requires i >= job.Layout().loadBreak - KERNEL_BREAK
    ensures !Covers(SegmentWrites(job.buf, job.Segs(), job.Layout().loadBreak)[l], i)
  {
    hide HeaderOk, PhdrsInFile, Segments, LayoutOf, Acceptable;
  }

  lemma StackWriteLow(job: Job, k: nat, i: nat)
    requires job.Ok() && HeaderOk(job.buf) && job.Layout().break_ <= MAX_MEMORY_SIZE
    requires KERNEL_BREAK + PAGE_SIZE <= job.Layout().loadBreak && k < |StackWrites(job)|
    requires i >= job.Layout().loadBreak - KERNEL_BREAK
    ensures !Covers(StackWrites(job)[k], i)
  {
    hide HeaderOk, LayoutOf, StackWrites;
    WhereStack(job, k);
  }

  lemma NotCleared(job: Job, k: nat, a: nat)
    requires job.Ok() && RegionsPlaced(job.config) && k < |RegionWrites(job)|
    requires var (l, c) := (job.Layout(), job.config);
      l.stdout <= a < l.ib || (c.obNeedClear && l.ob <= a < l.image)
    ensures !Covers(RegionWrites(job)[k], a - KERNEL_BREAK)
  {
    hide LayoutOf, Bytes;
    LayoutOrdered(job.config);
  }

  /** The n bytes from address p on are these. */
  predicate Filled(b: seq<u8>, p: nat, n: nat, data: seq<u8>) {
    n == |data| && 0x40_0000 <= p && p + n <= 0x40_0000 + |b| && b[p - 0x40_0000..p - 0x40_0000 + n] == data
  }

  function Blank(n: nat): seq<u8> {
    seq(n, _ => 0)
  }

  /**
   What a program finds where duckinfo says: its inputs, the limits of its outputs, and the output buffers, all zero
   at first; OB as it was given or cleared.
   */
  lemma InputsIn(job: Job, vaddrBreak: nat)
    requires job.Accepted(vaddrBreak)
    ensures var (c, b, d) := (job.config, Start(job, vaddrBreak), job.Layout().loadBreak - 112 - 0x40_0000);
      && 0 <= d && d + 112 <= |b| && Le8(b, d) == 40 && Le8(b, d + 104) == job.tscFreq
      && Filled(b, Le8(b, d + 8), Le8(b, d + 16), c.stdin)
      && Filled(b, Le8(b, d + 72), Le8(b, d + 80), c.ib)
      && Filled(b, Le8(b, d + 88), Le8(b, d + 96), if c.obNeedClear then Blank(|c.ob|) else c.ob)
      && Filled(b, Le8(b, d + 24), Le8(b, d + 32), Blank(c.stdoutMaxSize)) && Le8(b, d + 40) == 0
      && Filled(b, Le8(b, d + 48), Le8(b, d + 56), Blank(c.stderrMaxSize)) && Le8(b, d + 64) == 0
  {
    hide LayoutOf, Acceptable, Start, Le8, Filled, Blank;
    AllInfo(job, vaddrBreak);
    InputBytes(job, vaddrBreak);
    OutputBytes(job, vaddrBreak);
  }

  lemma AllInfo(job: Job, vaddrBreak: nat)
    requires job.Accepted(vaddrBreak)
    ensures var (l, c, b) := (job.Layout(), job.config, Start(job, vaddrBreak));
      var d := l.loadBreak - 112 - 0x40_0000;
      && 0 <= d && d + 112 <= |b| && Le8(b, d) == 40 && Le8(b, d + 104) == job.tscFreq
      && Le8(b, d + 8) == l.loadBreak && Le8(b, d + 16) == |c.stdin|
      && Le8(b, d + 24) == l.stdout && Le8(b, d + 32) == c.stdoutMaxSize && Le8(b, d + 40) == 0
      && Le8(b, d + 48) == l.stderr && Le8(b, d + 56) == c.stderrMaxSize && Le8(b, d + 64) == 0
      && Le8(b, d + 72) == l.ib && Le8(b, d + 80) == |c.ib| && Le8(b, d + 88) == l.ob && Le8(b, d + 96) == |c.ob|
  {
    hide LayoutOf, Acceptable, HeaderOk, PhdrsInFile, Segments, RegionsPlaced, RegionWrites, Start, Le8;
    InfoWord(job, vaddrBreak, 0);
    InfoWord(job, vaddrBreak, 1);
    InfoWord(job, vaddrBreak, 2);
    InfoWord(job, vaddrBreak, 3);
    InfoWord(job, vaddrBreak, 4);
    InfoWord(job, vaddrBreak, 5);
    InfoWord(job, vaddrBreak, 6);
    InfoWord(job, vaddrBreak, 7);
    InfoWord(job, vaddrBreak, 8);
    InfoWord(job, vaddrBreak, 9);
    InfoWord(job, vaddrBreak, 10);
    InfoWord(job, vaddrBreak, 11);
    InfoWord(job, vaddrBreak, 12);
    InfoWord(job, vaddrBreak, 13);
  }

  lemma InputBytes(job: Job, vaddrBreak: nat)
    requires job.Accepted(vaddrBreak)
    ensures var (l, c, b) := (job.Layout(), job.config, Start(job, vaddrBreak));
      && Filled(b, l.loadBreak, |c.stdin|, c.stdin) && Filled(b, l.ib, |c.ib|, c.ib)
      && (!c.obNeedClear ==> Filled(b, l.ob, |c.ob|, c.ob))
  {
    hide LayoutOf, Acceptable, HeaderOk, PhdrsInFile, Segments, RegionsPlaced, Start, RegionWrites;
    StartSize(job, vaddrBreak);
    RegionList(job);
    RegionWritten(job, vaddrBreak, 0);
    RegionWritten(job, vaddrBreak, 1);
    RegionWritten(job, vaddrBreak, 2);
  }

  /** Where the auxiliary vector points besides: the first page of the file, and sixteen fixed bytes. */
  lemma FileImageIn(job: Job, vaddrBreak: nat)
    requires job.Accepted(vaddrBreak)
    ensures var (l, b, n) := (job.Layout(), Start(job, vaddrBreak), Least(|job.buf|, 4096));
      && Filled(b, l.image, n, job.buf[..n])
      && Filled(b, l.random, 8, [0xc8, 0x01, 0x4c, 0xf4, 0, 0, 0, 0])
      && Filled(b, l.random + 8, 8, [0x52, 0x46, 0xb6, 0x22, 0, 0, 0, 0])
  {
    hide LayoutOf, Acceptable, HeaderOk, PhdrsInFile, Segments, RegionsPlaced, Start, RegionWrites;
    StartSize(job, vaddrBreak);
    ImageList(job);
    var n := |RegionWrites(job)|;
    RegionWritten(job, vaddrBreak, n - 3);
    RegionWritten(job, vaddrBreak, n - 2);
    RegionWritten(job, vaddrBreak, n - 1);
  }

  lemma ImageList(job: Job)
    requires job.Ok() && RegionsPlaced(job.config)
    ensures var (l, r, n) := (job.Layout(), RegionWrites(job), Least(|job.buf|, 4096));
      && |r| >= 5 && KERNEL_BREAK <= l.image <= l.random
      && r[|r| - 3] == Write(l.image - KERNEL_BREAK, job.buf[..n])
      && r[|r| - 2] == Write(l.random - KERNEL_BREAK, [0xc8, 0x01, 0x4c, 0xf4, 0, 0, 0, 0])
      && r[|r| - 1] == Write(l.random + 8 - KERNEL_BREAK, [0x52, 0x46, 0xb6, 0x22, 0, 0, 0, 0])
  {
    hide LayoutOf, Bytes;
    LayoutOrdered(job.config);
    RandomWords();
  }

  lemma RandomWords()
    ensures Bytes(RANDOM_BYTES_0, 8) == [0xc8, 0x01, 0x4c, 0xf4, 0, 0, 0, 0]
    ensures Bytes(RANDOM_BYTES_1, 8) == [0x52, 0x46, 0xb6, 0x22, 0, 0, 0, 0]
  {
    assert Bytes(0xf4, 5) == [0xf4, 0, 0, 0, 0] && Bytes(0x22, 5) == [0x22, 0, 0, 0, 0] by {
      assert Bytes(0, 2) == [0, 0] && Bytes(0, 4) == [0] + ([0] + Bytes(0, 2));
    }
    assert Bytes(0xf44c, 6) == [0x4c] + Bytes(0xf4, 5) && Bytes(0x22b6, 6) == [0xb6] + Bytes(0x22, 5);
    assert Bytes(0xf44c01, 7) == [0x01] + Bytes(0xf44c, 6) && Bytes(0x22b646, 7) == [0x46] + Bytes(0x22b6, 6);
  }

  lemma RegionSizes(c: AppConfig)
    requires RegionsPlaced(c)
    ensures var l := LayoutOf(c);
      && l.stdout + c.stdoutMaxSize <= l.stderr && l.stderr + c.stderrMaxSize <= l.ib && l.ob + |c.ob| <= l.image
  {
    hide LayoutOf;
  }

  lemma RegionList(job: Job)
    requires job.Ok() && RegionsPlaced(job.config)
    ensures var (l, c, r) := (job.Layout(), job.config, RegionWrites(job));
      && |r| >= 5 && KERNEL_BREAK <= l.loadBreak <= l.ib <= l.ob
      && r[0] == Write(l.loadBreak - KERNEL_BREAK, c.stdin) && r[1] == Write(l.ib - KERNEL_BREAK, c.ib)
      && (!c.obNeedClear ==> r[2] == Write(l.ob - KERNEL_BREAK, c.ob))
  {
    hide LayoutOf, Bytes;
    LayoutOrdered(job.config);
  }

  lemma OutputBytes(job: Job, vaddrBreak: nat)
    requires job.Accepted(vaddrBreak)
    ensures var (l, c, b) := (job.Layout(), job.config, Start(job, vaddrBreak));
      && Filled(b, l.stdout, c.stdoutMaxSize, Blank(c.stdoutMaxSize))
      && Filled(b, l.stderr, c.stderrMaxSize, Blank(c.stderrMaxSize))
      && (c.obNeedClear ==> Filled(b, l.ob, |c.ob|, Blank(|c.ob|)))
  {
    hide LayoutOf, Acceptable, HeaderOk, PhdrsInFile, Segments, RegionsPlaced, Start, Filled;
    StartSize(job, vaddrBreak);
    RegionSizes(job.config);
    var (l, c, b) := (job.Layout(), job.config, Start(job, vaddrBreak));
    forall i | l.stdout - KERNEL_BREAK <= i < l.ib - KERNEL_BREAK ensures b[i] == 0 {
      ClearRegions(job, vaddrBreak, i + KERNEL_BREAK);
    }
    BlankAt(b, l.stdout, c.stdoutMaxSize);
    BlankAt(b, l.stderr, c.stderrMaxSize);
    if c.obNeedClear {
      forall i | l.ob - KERNEL_BREAK <= i < l.image - KERNEL_BREAK ensures b[i] == 0 {
        ClearRegions(job, vaddrBreak, i + KERNEL_BREAK);
      }
      BlankAt(b, l.ob, |c.ob|);
    }
  }

  lemma BlankAt(b: seq<u8>, p: nat, n: nat)
    requires KERNEL_BREAK <= p && p + n <= KERNEL_BREAK + |b|
    requires forall i :: p - KERNEL_BREAK <= i < p - KERNEL_BREAK + n ==> b[i] == 0
    ensures Filled(b, p, n, Blank(n))
  {
  }

  // ----- what is reported

  function Least(a: nat, b: nat): nat {
    if a < b then a else b
  }

  /**
   The output of a run: of the buffer duckinfo pointed to, as many bytes as the program left in the size field, but
   no more than the limit; of OB everything.
   */
  lemma OutputsFrom(job: Job, vaddrBreak: nat, end: Image)
    requires job.Accepted(vaddrBreak) && ImageOk(end) && |end.perms| == job.Pages()
    ensures Placed(job, |end.perms|)
    ensures var (b, e, o) := (Start(job, vaddrBreak), end.bytes, Observe(job, end));
      var d := job.Layout().loadBreak - 112 - 0x40_0000;
      && 0 <= d && d + 112 <= |b| == |e|
      && Filled(e, Le8(b, d + 24), Least(Le8(e, d + 40), Le8(b, d + 32)), o.stdout)
      && Filled(e, Le8(b, d + 48), Least(Le8(e, d + 64), Le8(b, d + 56)), o.stderr)
      && Filled(e, Le8(b, d + 88), Le8(b, d + 96), o.ob)
  {
    hide LayoutOf, Acceptable, Start, Le8, Filled, Observe;
    AllInfo(job, vaddrBreak);
    AcceptedPlaced(job, vaddrBreak);
    OutputsAt(job, end);
  }

  lemma OutputsAt(job: Job, end: Image)
    requires ImageOk(end) && Placed(job, |end.perms|)
    ensures var (l, c, e, o) := (job.Layout(), job.config, end.bytes, Observe(job, end));
      var d := l.loadBreak - 112 - 0x40_0000;
      && 0 <= d && d + 112 <= |e|
      && Filled(e, l.stdout, Least(Le8(e, d + 40), c.stdoutMaxSize), o.stdout)
      && Filled(e, l.stderr, Least(Le8(e, d + 64), c.stderrMaxSize), o.stderr)
      && Filled(e, l.ob, |c.ob|, o.ob)
  {
    hide LayoutOf, Le8, U64At, Filled, Placed, ReportedSize;
    PlacedOffsets(job, |end.perms|);
    var (l, c, e) := (job.Layout(), job.config, end.bytes);
    var d := l.loadBreak - 112 - KERNEL_BREAK;
    SizeIs(e, d + 40, c.stdoutMaxSize);
    SizeIs(e, d + 64, c.stderrMaxSize);
    FilledBy(e, l.stdout, Least(Le8(e, d + 40), c.stdoutMaxSize));
    FilledBy(e, l.stderr, Least(Le8(e, d + 64), c.stderrMaxSize));
    FilledBy(e, l.ob, |c.ob|);
  }

  lemma SizeIs(e: seq<u8>, o: nat, limit: u64)
    requires o + 8 <= |e|
    ensures ReportedSize(e, o, limit) == Least(Le8(e, o), limit) <= limit
  {
    hide Le8, U64At;
    FieldsAre(e, o);
  }

  lemma FilledBy(e: seq<u8>, p: nat, n: nat)
    requires KERNEL_BREAK <= p && p + n <= KERNEL_BREAK + |e|
    ensures Filled(e, p, n, e[p - KERNEL_BREAK..p - KERNEL_BREAK + n])
  {
  }

  // ----- the memory that is reported

  lemma {:induction false} CountIsCardinality(flags: seq<bool>)
    ensures CountTrue(flags) == |set p | 0 <= p < |flags| && flags[p]|
  {
    var s := set p | 0 <= p < |flags| && flags[p];
    if flags == [] {
      assert s == {};
    } else {
      var n := |flags| - 1;
      CountIsCardinality(flags[..n]);
      var t := set p | 0 <= p < n && flags[..n][p];
      assert s == if flags[n] then t + {n} else t;
    }
  }

  /** Page p is written by one of these accesses. */
  predicate Writes(accesses: seq<Access>, p: nat) {
    exists i :: 0 <= i < |accesses| && accesses[i].UserWrite? && WriteOn(accesses[i], p)
  }

  predicate WriteOn(a: Access, p: nat) {
    0x40_0000 + 4096 * p <= a.addr < 0x40_0000 + 4096 * (p + 1)
  }

  lemma {:induction false} DirtyIsWritten(img: Image, p: Strategy, seen: seq<u8>, n: nat, q: nat)
    requires ImageOk(img) && q < |img.dirty|
    ensures |Exec(img, p, seen, n).dirty| == |img.dirty|
    ensures Exec(img, p, seen, n).dirty[q] <==> img.dirty[q] || Writes(Played(img, p, seen, n), q)
    decreases n
  {
    hide Allowed, StepImage, Seen, WriteOn;
    if n > 0 && Allowed(img, p(seen)) {
      var (a, next) := (p(seen), StepImage(img, p(seen)));
      StepDirty(img, a, q);
      DirtyIsWritten(next, p, seen + Seen(img, a), n - 1, q);
      WritesMore(a, Played(next, p, seen + Seen(img, a), n - 1), q);
    }
  }

  lemma StepDirty(img: Image, a: Access, q: nat)
    requires ImageOk(img) && Allowed(img, a) && q < |img.dirty|
    ensures var r := StepImage(img, a);
      |r.dirty| == |img.dirty| && (r.dirty[q] <==> img.dirty[q] || (a.UserWrite? && WriteOn(a, q)))
  {
    var k := (a.addr - KERNEL_BREAK) / PAGE_SIZE;
    assert k == q <==> WriteOn(a, q);
  }

  lemma WritesMore(a: Access, rest: seq<Access>, q: nat)
    ensures Writes([a] + rest, q) <==> (a.UserWrite? && WriteOn(a, q)) || Writes(rest, q)
  {
    hide WriteOn;
    var all := [a] + rest;
    if a.UserWrite? && WriteOn(a, q) {
      assert all[0] == a;
    }
    if Writes(rest, q) {
      var i :| 0 <= i < |rest| && rest[i].UserWrite? && WriteOn(rest[i], q);
      assert all[i + 1] == rest[i];
    }
  }

  /** The memory reported for a run is 4 KiB for every page the program has written. */
  lemma MemoryIsWritten(job: Job, vaddrBreak: nat, p: Strategy, steps: nat)
    requires job.Accepted(vaddrBreak)
    ensures Placed(job, job.Pages())
    ensures var img := InitialImage(job, vaddrBreak);
      Observe(job, Exec(img, p, [], steps)).memoryKb ==
        4 * |set q | 0 <= q < job.Pages() && Writes(Played(img, p, [], steps), q)|
  {
    hide Acceptable, ImageWrites, ImageGrants, LayoutOf, Exec, Played, Job.Pages, CountTrue, Writes, Placed;
    AcceptedPlaced(job, vaddrBreak);
    var img := InitialImage(job, vaddrBreak);
    var end := Exec(img, p, [], steps);
    MemoryOf(job, end);
    CountIsCardinality(end.dirty);
    forall q | 0 <= q < job.Pages()
      ensures |end.dirty| == job.Pages() && (end.dirty[q] <==> Writes(Played(img, p, [], steps), q))
    {
      DirtyIsWritten(img, p, [], steps, q);
    }
    EndSize(img, p, steps);
    assert (set q | 0 <= q < |end.dirty| && end.dirty[q]) ==
           (set q | 0 <= q < job.Pages() && Writes(Played(img, p, [], steps), q));
  }

  lemma EndSize(img: Image, p: Strategy, steps: nat)
    requires ImageOk(img)
    ensures |Exec(img, p, [], steps).dirty| == |img.dirty|
  {
  }

  lemma MemoryOf(job: Job, end: Image)
    requires ImageOk(end) && Placed(job, |end.perms|)
    ensures Observe(job, end).memoryKb == 4 * CountTrue(end.dirty)
  {
    hide LayoutOf, CountTrue, U64At;
  }

  // ----- what a program does to its memory

  /** The byte at an address after these accesses: the last one written there, or what was there at first. */
  function LastWritten(accesses: seq<Access>, addr: nat, first: u8): u8 {
    if |accesses| == 0 then first
    else
      var a := accesses[|accesses| - 1];
      if a.UserWrite? && a.addr == addr then a.value else LastWritten(accesses[..|accesses| - 1], addr, first)
  }

  /** What reads and fetches among these accesses returned, starting from these bytes. */
  function Answers(b: seq<u8>, accesses: seq<Access>): seq<u8> {
    if |accesses| == 0 then []
    else
      var (a, before) := (accesses[|accesses| - 1], accesses[..|accesses| - 1]);
      Answers(b, before) + if a.UserWrite? then [] else [LastWritten(before, a.addr, ByteIn(b, a.addr))]
  }

  function ByteIn(b: seq<u8>, addr: nat): u8 {
    if 0x40_0000 <= addr < 0x40_0000 + |b| then b[addr - 0x40_0000] else 0
  }

  lemma {:induction false} LastWrittenFront(a: Access, rest: seq<Access>, addr: nat, first: u8)
    ensures LastWritten([a] + rest, addr, first) ==
      LastWritten(rest, addr, if a.UserWrite? && a.addr == addr then a.value else first)
  {
    var all := [a] + rest;
    if |rest| == 0 {
      assert all == [a] && all[..0] == [];
    } else {
      assert all[..|all| - 1] == [a] + rest[..|rest| - 1];
      LastWrittenFront(a, rest[..|rest| - 1], addr, first);
    }
  }

  lemma StepByte(img: Image, a: Access, addr: nat)
    requires ImageOk(img) && Allowed(img, a)
    ensures ByteIn(StepImage(img, a).bytes, addr) ==
      if a.UserWrite? && a.addr == addr then a.value else ByteIn(img.bytes, addr)
    ensures Seen(img, a) == if a.UserWrite? then [] else [ByteIn(img.bytes, a.addr)]
  {
  }

  lemma {:induction false} AnswersFront(img: Image, a: Access, rest: seq<Access>)
    requires ImageOk(img) && Allowed(img, a)
    ensures Answers(img.bytes, [a] + rest) == Seen(img, a) + Answers(StepImage(img, a).bytes, rest)
  {
    hide Seen, StepImage, Allowed, LastWritten;
    var all := [a] + rest;
    if |rest| == 0 {
      assert all == [a] && all[..0] == [];
      StepByte(img, a, a.addr);
      NothingYet(a.addr, ByteIn(img.bytes, a.addr));
    } else {
      var (last, before) := (rest[|rest| - 1], rest[..|rest| - 1]);
      assert all[..|all| - 1] == [a] + before && all[|all| - 1] == last;
      AnswersFront(img, a, before);
      LastWrittenFront(a, before, last.addr, ByteIn(img.bytes, last.addr));
      StepByte(img, a, last.addr);
    }
  }

  lemma NothingYet(addr: nat, first: u8)
    ensures LastWritten([], addr, first) == first
  {
  }

  /** Memory after a run: every byte is the one the program wrote there last, or still the first one. */
  lemma {:induction false} EndBytes(img: Image, p: Strategy, seen: seq<u8>, n: nat, addr: nat)
    requires ImageOk(img)
    ensures ByteIn(Exec(img, p, seen, n).bytes, addr) ==
      LastWritten(Played(img, p, seen, n), addr, ByteIn(img.bytes, addr))
    decreases n
  {
    hide Allowed, StepImage, Seen, LastWritten, ByteIn;
    NothingYet(addr, ByteIn(img.bytes, addr));
    if n > 0 && Allowed(img, p(seen)) {
      var (a, next) := (p(seen), StepImage(img, p(seen)));
      EndBytes(next, p, seen + Seen(img, a), n - 1, addr);
      LastWrittenFront(a, Played(next, p, seen + Seen(img, a), n - 1), addr, ByteIn(img.bytes, addr));
      StepByte(img, a, addr);
    }
  }

  /** An access the program may make: inside its region, with the page's permission. */
  predicate May(perms: seq<Perm>, a: Access) {
    && 0x40_0000 <= a.addr < 0x40_0000 + 4096 * |perms|
    && var perm := perms[(a.addr - 0x40_0000) / 4096];
       (a.UserWrite? ==> perm.writable) && (a.UserFetch? ==> !perm.noExecute)
  }

  /**
   The accesses of a run: each is what the program does after the answers to those before it, and allowed; and the
   run ends before its limit only at one that is not.
   */
  lemma {:induction false} AccessesAre(img: Image, p: Strategy, seen: seq<u8>, n: nat, k: nat)
    requires ImageOk(img)
    ensures var t := Played(img, p, seen, n);
      && |t| <= n
      && (k < |t| ==> t[k] == p(seen + Answers(img.bytes, t[..k])) && May(img.perms, t[k]))
      && (k == |t| < n ==> !May(img.perms, p(seen + Answers(img.bytes, t))))
    decreases n
  {
    hide StepImage, Seen, Answers, May, Allowed;
    NoAnswers(img.bytes);
    assert seen + [] == seen;
    MayIs(img, p(seen));
    var t := Played(img, p, seen, n);
    assert t[..0] == [];
    if n > 0 && Allowed(img, p(seen)) {
      var (a, next) := (p(seen), StepImage(img, p(seen)));
      var (after, rest) := (seen + Seen(img, a), Played(next, p, seen + Seen(img, a), n - 1));
      assert t == [a] + rest;
      StepPerms(img, a);
      if k > 0 {
        AccessesAre(next, p, after, n - 1, k - 1);
        var part := if k <= |t| then t[1..k] else rest;
        AnswersFront(img, a, part);
        assert seen + (Seen(img, a) + Answers(next.bytes, part)) == after + Answers(next.bytes, part);
        assert k <= |t| ==> t[..k] == [a] + part && part == rest[..k - 1];
        assert rest[..|rest|] == rest;
      } else {
        AccessesAre(next, p, after, n - 1, 0);
      }
    }
  }

  lemma NoAnswers(b: seq<u8>)
    ensures Answers(b, []) == []
  {
  }

  lemma MayIs(img: Image, a: Access)
    requires ImageOk(img)
    ensures Allowed(img, a) <==> May(img.perms, a)
  {
  }

  lemma StepPerms(img: Image, a: Access)
    requires ImageOk(img) && Allowed(img, a)
    ensures StepImage(img, a).perms == img.perms
  {
  }
}
