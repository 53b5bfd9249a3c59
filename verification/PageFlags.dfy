/** Level-1 page table entries and the bit formulas on them (lib/memory.cpp). */
module PageFlags {
  const PTE_PRESENT: bv64 := 0x1
  const PTE_WRITABLE: bv64 := 0x2
  const PTE_USER: bv64 := 0x4
  const PTE_ACCESSED: bv64 := 0x20
  const PTE_DIRTY: bv64 := 0x40
  const PTE_DUCK_WRITTEN: bv64 := 0x200
  const PTE_NO_EXECUTE: bv64 := 0x8000_0000_0000_0000
  /** The bits the processor takes the page frame from. */
  const PTE_FRAME: bv64 := 0x000F_FFFF_FFFF_F000

  /** Drops bits 0 to 8 and bit 63; bits 9 to 62, the frame and the OS-available bits, survive. */
  function ClearPageFlags(a: bv64): bv64 {
    ((a << 1) >> 10) << 9
  }

  /** The ways lib/memory.cpp changes an entry; Touch is the processor recording a write, Fetch a read. */
  datatype FlagOp =
    | SetUserWritable | SetUserReadonly | SetUserExecutable | SetKernel
    | AddWritable | AddExecutable | ClearAccessedDirty
    | SetDuckWrittenByDirty | SetDuckWritten | ClearDirtyDuck | Touch | Fetch

  function ApplyOp(op: FlagOp, p: bv64): bv64 {
    match op
    case SetUserWritable => ClearPageFlags(p) | PTE_PRESENT | PTE_USER | PTE_WRITABLE | PTE_NO_EXECUTE
    case SetUserReadonly => ClearPageFlags(p) | PTE_PRESENT | PTE_USER | PTE_NO_EXECUTE
    case SetUserExecutable => ClearPageFlags(p) | PTE_PRESENT | PTE_USER
    case SetKernel => ClearPageFlags(p) | PTE_PRESENT | PTE_WRITABLE
    case AddWritable => p | PTE_WRITABLE
    case AddExecutable => p & !PTE_NO_EXECUTE
    case ClearAccessedDirty => p & !(PTE_ACCESSED | PTE_DIRTY)
    case SetDuckWrittenByDirty => p | (if p & PTE_DIRTY != 0 then PTE_DUCK_WRITTEN else 0)
    case SetDuckWritten => p | PTE_DUCK_WRITTEN
    case ClearDirtyDuck => p & !(PTE_DIRTY | PTE_DUCK_WRITTEN)
    case Touch => p | PTE_ACCESSED | PTE_DIRTY
    case Fetch => p | PTE_ACCESSED
  }

  /** What an entry means. */
  datatype Attr = Attr(present: bool, user: bool, writable: bool, noExecute: bool, dirty: bool, duck: bool)

  function AttrOf(p: bv64): Attr {
    Attr(p & PTE_PRESENT != 0, p & PTE_USER != 0, p & PTE_WRITABLE != 0, p & PTE_NO_EXECUTE != 0,
         p & PTE_DIRTY != 0, p & PTE_DUCK_WRITTEN != 0)
  }

  function FrameOf(p: bv64): bv64 {
    p & PTE_FRAME
  }

  /** The same change on the meaning. */
  function ApplyAttr(op: FlagOp, a: Attr): Attr {
    match op
    case SetUserWritable => Attr(true, true, true, true, false, a.duck)
    case SetUserReadonly => Attr(true, true, false, true, false, a.duck)
    case SetUserExecutable => Attr(true, true, false, false, false, a.duck)
    case SetKernel => Attr(true, false, true, false, false, a.duck)
    case AddWritable => a.(writable := true)
    case AddExecutable => a.(noExecute := false)
    case ClearAccessedDirty => a.(dirty := false)
    case SetDuckWrittenByDirty => a.(duck := a.duck || a.dirty)
    case SetDuckWritten => a.(duck := true)
    case ClearDirtyDuck => a.(dirty := false, duck := false)
    case Touch => a.(dirty := true)
    case Fetch => a
  }

  lemma ClearPageFlagsBits(p: bv64)
    ensures ClearPageFlags(p) == p & 0x7FFF_FFFF_FFFF_FE00
  {
  }

  // One operation at a time, first as a mask and then bit by bit.

  lemma SetUserWritableMeaning(p: bv64)
    ensures AttrOf(ApplyOp(SetUserWritable, p)) == ApplyAttr(SetUserWritable, AttrOf(p))
    ensures FrameOf(ApplyOp(SetUserWritable, p)) == FrameOf(p)
  {
    ClearPageFlagsBits(p);
  }

  lemma SetUserReadonlyMeaning(p: bv64)
    ensures AttrOf(ApplyOp(SetUserReadonly, p)) == ApplyAttr(SetUserReadonly, AttrOf(p))
    ensures FrameOf(ApplyOp(SetUserReadonly, p)) == FrameOf(p)
  {
    ClearPageFlagsBits(p);
  }

  lemma SetUserExecutableMeaning(p: bv64)
    ensures AttrOf(ApplyOp(SetUserExecutable, p)) == ApplyAttr(SetUserExecutable, AttrOf(p))
    ensures FrameOf(ApplyOp(SetUserExecutable, p)) == FrameOf(p)
  {
    ClearPageFlagsBits(p);
  }

  lemma SetKernelMeaning(p: bv64)
    ensures AttrOf(ApplyOp(SetKernel, p)) == ApplyAttr(SetKernel, AttrOf(p))
    ensures FrameOf(ApplyOp(SetKernel, p)) == FrameOf(p)
  {
    ClearPageFlagsBits(p);
  }

  lemma AddWritableMeaning(p: bv64)
    ensures AttrOf(ApplyOp(AddWritable, p)) == ApplyAttr(AddWritable, AttrOf(p))
    ensures FrameOf(ApplyOp(AddWritable, p)) == FrameOf(p)
  {
  }

  lemma AddExecutableMeaning(p: bv64)
    ensures AttrOf(ApplyOp(AddExecutable, p)) == ApplyAttr(AddExecutable, AttrOf(p))
    ensures FrameOf(ApplyOp(AddExecutable, p)) == FrameOf(p)
  {
  }

  lemma SetDuckWrittenMeaning(p: bv64)
    ensures AttrOf(ApplyOp(SetDuckWritten, p)) == ApplyAttr(SetDuckWritten, AttrOf(p))
    ensures FrameOf(ApplyOp(SetDuckWritten, p)) == FrameOf(p)
  {
  }

  lemma TouchMeaning(p: bv64)
    ensures AttrOf(ApplyOp(Touch, p)) == ApplyAttr(Touch, AttrOf(p))
    ensures FrameOf(ApplyOp(Touch, p)) == FrameOf(p)
  {
  }

  lemma FetchMeaning(p: bv64)
    ensures AttrOf(ApplyOp(Fetch, p)) == ApplyAttr(Fetch, AttrOf(p))
    ensures FrameOf(ApplyOp(Fetch, p)) == FrameOf(p)
  {
  }

  lemma MaskAccessedDirty(p: bv64, q: bv64)
    requires q == p & 0xFFFF_FFFF_FFFF_FF9F
    ensures AttrOf(q) == AttrOf(p).(dirty := false) && FrameOf(q) == FrameOf(p)
  {
  }

  lemma ClearAccessedDirtyMeaning(p: bv64)
    ensures AttrOf(ApplyOp(ClearAccessedDirty, p)) == ApplyAttr(ClearAccessedDirty, AttrOf(p))
    ensures FrameOf(ApplyOp(ClearAccessedDirty, p)) == FrameOf(p)
  {
    assert ApplyOp(ClearAccessedDirty, p) == p & 0xFFFF_FFFF_FFFF_FF9F;
    hide AttrOf, FrameOf;
    MaskAccessedDirty(p, ApplyOp(ClearAccessedDirty, p));
  }

  lemma MaskDirtyDuck(p: bv64, q: bv64)
    requires q == p & 0xFFFF_FFFF_FFFF_FDBF
    ensures AttrOf(q) == AttrOf(p).(dirty := false, duck := false) && FrameOf(q) == FrameOf(p)
  {
  }

  lemma ClearDirtyDuckMeaning(p: bv64)
    ensures AttrOf(ApplyOp(ClearDirtyDuck, p)) == ApplyAttr(ClearDirtyDuck, AttrOf(p))
    ensures FrameOf(ApplyOp(ClearDirtyDuck, p)) == FrameOf(p)
  {
    assert ApplyOp(ClearDirtyDuck, p) == p & 0xFFFF_FFFF_FFFF_FDBF;
    hide AttrOf, FrameOf;
    MaskDirtyDuck(p, ApplyOp(ClearDirtyDuck, p));
  }

  lemma DuckByDirtyCases(p: bv64)
    ensures ApplyOp(SetDuckWrittenByDirty, p) == if AttrOf(p).dirty then ApplyOp(SetDuckWritten, p) else p
  {
    if p & PTE_DIRTY != 0 {
    } else {
      assert p | 0 == p;
    }
  }

  lemma SetDuckWrittenByDirtyMeaning(p: bv64)
    ensures AttrOf(ApplyOp(SetDuckWrittenByDirty, p)) == ApplyAttr(SetDuckWrittenByDirty, AttrOf(p))
    ensures FrameOf(ApplyOp(SetDuckWrittenByDirty, p)) == FrameOf(p)
  {
    hide ApplyOp, FrameOf, AttrOf;
    DuckByDirtyCases(p);
    SetDuckWrittenMeaning(p);
  }

  /** The bit formulas do to the meaning what their names say, and never move the page to another frame. */
  lemma OpMeaning(op: FlagOp, p: bv64)
    ensures AttrOf(ApplyOp(op, p)) == ApplyAttr(op, AttrOf(p))
    ensures FrameOf(ApplyOp(op, p)) == FrameOf(p)
  {
    hide ApplyOp, AttrOf, ApplyAttr, FrameOf;
    match op
    case SetUserWritable => SetUserWritableMeaning(p);
    case SetUserReadonly => SetUserReadonlyMeaning(p);
    case SetUserExecutable => SetUserExecutableMeaning(p);
    case SetKernel => SetKernelMeaning(p);
    case AddWritable => AddWritableMeaning(p);
    case AddExecutable => AddExecutableMeaning(p);
    case SetDuckWritten => SetDuckWrittenMeaning(p);
    case Touch => TouchMeaning(p);
    case Fetch => FetchMeaning(p);
    case ClearAccessedDirty => ClearAccessedDirtyMeaning(p);
    case ClearDirtyDuck => ClearDirtyDuckMeaning(p);
    case SetDuckWrittenByDirty => SetDuckWrittenByDirtyMeaning(p);
  }
}
