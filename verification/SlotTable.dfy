/** How tosend_table and the tosend_free bitmap of ducknet/lib/ipv4.cpp hold the waiting packets. */
module SlotTable {
  import opened Words
  import opened ByteSplice
  import opened Wire
  import opened Pending

  const SLOT_BYTES: nat := MTU + 64

  // ----- bits

  function Bit(i: nat): bv32
    requires i < 32
  {
    1 << i
  }

  /** The n lowest bits. */
  function Mask(n: nat): bv32
    requires n <= 32
  {
    if n == 0 then 0 else Mask(n - 1) | Bit(n - 1)
  }

  function And(x: bv32, b: bv32): bv32 {
    x & b
  }

  predicate Masked(x: bv32, b: bv32) {
    And(x, b) != 0
  }

  function Join(x: bv32, b: bv32): bv32 {
    x | b
  }

  function Remove(x: bv32, b: bv32): bv32 {
    x & !b
  }

  /** Bit i of a word, as the loop over its bits reads it and as the mask of a slot reads it. */
  predicate Shifted(x: bv32, i: nat)
    requires i < 32
  {
    (x >> i) & 1 == 1
  }

  predicate Has(x: bv32, i: nat)
    requires i < 32
  {
    Masked(x, Bit(i))
  }

  function With(x: bv32, i: nat): bv32
    requires i < 32
  {
    Join(x, Bit(i))
  }

  function Without(x: bv32, i: nat): bv32
    requires i < 32
  {
    Remove(x, Bit(i))
  }

  lemma SameBit(x: bv32, i: nat)
    requires i < 32
    ensures Shifted(x, i) <==> Has(x, i)
  {
    hide Shifted, Has;
    if Shifted(x, i) {
      ShiftedSet(x, i);
    } else {
      ShiftedClear(x, i);
    }
  }

  lemma ShiftedSet(x: bv32, i: nat)
    requires i < 32 && Shifted(x, i)
    ensures Has(x, i)
  {
  }

  lemma ShiftedClear(x: bv32, i: nat)
    requires i < 32 && !Shifted(x, i)
    ensures !Has(x, i)
  {
  }

  lemma BitUpdate(x: bv32, i: nat, j: nat)
    requires i < 32 && j < 32
    ensures Has(With(x, i), j) <==> i == j || Has(x, j)
    ensures Has(Without(x, i), j) <==> i != j && Has(x, j)
  {
    hide Bit, And, Join, Remove;
    SingleBits(i, j);
    if i == j {
      MaskSame(x, Bit(i));
    } else {
      OrOther(x, Bit(i), Bit(j));
      AndNotOther(x, Bit(i), Bit(j));
    }
  }

  lemma SingleBits(i: nat, j: nat)
    requires i < 32 && j < 32
    ensures Masked(Bit(i), Bit(i)) && (i != j ==> !Masked(Bit(i), Bit(j)))
  {
  }

  lemma MaskSame(x: bv32, b: bv32)
    requires Masked(b, b)
    ensures Masked(Join(x, b), b)
    ensures !Masked(Remove(x, b), b)
  {
  }

  lemma OrOther(x: bv32, b: bv32, c: bv32)
    requires !Masked(b, c)
    ensures And(Join(x, b), c) == And(x, c)
  {
  }

  lemma AndNotOther(x: bv32, b: bv32, c: bv32)
    requires !Masked(b, c)
    ensures And(Remove(x, b), c) == And(x, c)
  {
  }

  lemma JoinMask(x: bv32, a: bv32, b: bv32)
    ensures Masked(x, Join(a, b)) ==> Masked(x, a) || Masked(x, b)
  {
  }

  lemma MaskStep(n: nat)
    requires 0 < n <= 32
    ensures Mask(n) == Join(Mask(n - 1), Bit(n - 1))
  {
    hide Bit;
  }

  predicate Below(x: bv32, n: nat)
    requires n <= 32
  {
    Masked(x, Mask(n))
  }

  lemma BelowStep(x: bv32, n: nat)
    requires 0 < n <= 32
    ensures Below(x, n) ==> Below(x, n - 1) || Has(x, n - 1)
  {
    hide Bit, Mask, Masked, Join;
    MaskStep(n);
    JoinMask(x, Mask(n - 1), Bit(n - 1));
  }

  lemma BelowNothing(x: bv32)
    ensures !Below(x, 0)
  {
  }

  lemma {:induction false} LowClear(x: bv32, n: nat)
    requires n <= 32 && forall j: nat :: j < n ==> !Has(x, j)
    ensures !Below(x, n)
  {
    hide Below, Has;
    if n == 0 {
      BelowNothing(x);
    } else {
      LowClear(x, n - 1);
      BelowStep(x, n);
    }
  }

  lemma FullMask()
    ensures Mask(32) == 0xffff_ffff
  {
    assert Mask(4) == 0xf;
    assert Mask(8) == 0xff;
    assert Mask(12) == 0xfff;
    assert Mask(16) == 0xffff;
    assert Mask(20) == 0xf_ffff;
    assert Mask(24) == 0xff_ffff;
    assert Mask(28) == 0xfff_ffff;
  }

  lemma BelowAll(x: bv32)
    ensures Below(x, 32) <==> x != 0
  {
    hide Bit, Mask;
    FullMask();
  }

  /** get_lower_bit_index: the loop has no bound of its own, it ends because a word without set bits is zero. */
  method LowerBitIndex(x: bv32) returns (i: nat)
    requires x != 0
    ensures i < 32 && Has(x, i)
    ensures forall j: nat :: j < i ==> !Has(x, j)
  {
    hide Has, Shifted, Below;
    i := 0;
    while true
      invariant i < 32
      invariant forall j: nat :: j < i ==> !Has(x, j)
      decreases 32 - i
    {
      SameBit(x, i);
      if Shifted(x, i) {
        return;
      }
      if i == 31 {
        LowClear(x, 32);
        BelowAll(x);
      }
      i := i + 1;
    }
  }

  // ----- the table

  datatype Table = Table(free: seq<bv32>, dst: seq<u32>, expire: seq<u64>, len: seq<nat>, bytes: seq<u8>)

  predicate Shaped(t: Table) {
    && |t.free| == 2 && |t.dst| == SLOTS && |t.expire| == SLOTS && |t.len| == SLOTS
    && |t.bytes| == SLOTS * SLOT_BYTES
  }

  predicate IsFree(free: seq<bv32>, i: nat)
    requires |free| == 2 && i < SLOTS
  {
    Has(free[i / 32], i % 32)
  }

  function SetFree(free: seq<bv32>, i: nat): (r: seq<bv32>)
    requires |free| == 2 && i < SLOTS
    ensures |r| == 2
  {
    free[i / 32 := With(free[i / 32], i % 32)]
  }

  function ClearFree(free: seq<bv32>, i: nat): (r: seq<bv32>)
    requires |free| == 2 && i < SLOTS
    ensures |r| == 2
  {
    free[i / 32 := Without(free[i / 32], i % 32)]
  }

  lemma FreeUpdate(free: seq<bv32>, i: nat, j: nat)
    requires |free| == 2 && i < SLOTS && j < SLOTS
    ensures IsFree(SetFree(free, i), j) <==> i == j || IsFree(free, j)
    ensures IsFree(ClearFree(free, i), j) <==> i != j && IsFree(free, j)
  {
    hide Has, With, Without;
    BitUpdate(free[i / 32], i % 32, j % 32);
  }

  /** Slot i of the table holds what the abstract slot says; the first six bytes of its packet are not settled yet. */
  predicate SlotOk(t: Table, i: nat, slot: Slot)
    requires Shaped(t) && i < SLOTS
  {
    && (IsFree(t.free, i) <==> slot.Free?)
    && (slot.Waiting? ==>
        && t.dst[i] == slot.packet.dst && t.expire[i] == slot.packet.expire
        && t.len[i] == 6 + |slot.packet.tail| <= SLOT_BYTES
        && t.bytes[i * SLOT_BYTES + 6..i * SLOT_BYTES + t.len[i]] == slot.packet.tail)
  }

  /** The bitmap is exactly the set of slots that hold no packet, and every waiting packet is stored in its slot. */
  ghost predicate Represents(t: Table, slots: seq<Slot>) {
    && Shaped(t) && |slots| == SLOTS
    && forall i :: 0 <= i < SLOTS ==> SlotOk(t, i, slots[i])
  }

  /** What a slot holds does not depend on another slot's entries or packet bytes. */
  lemma OtherSlot(t: Table, t': Table, k: nat, i: nat, b: nat, w: seq<u8>, slot: Slot)
    requires Shaped(t) && Shaped(t') && k < SLOTS && i < SLOTS && i != k
    requires b + |w| <= SLOT_BYTES && t'.bytes == Splice(t.bytes, k * SLOT_BYTES + b, w)
    requires t'.dst[i] == t.dst[i] && t'.expire[i] == t.expire[i] && t'.len[i] == t.len[i]
    requires IsFree(t'.free, i) <==> IsFree(t.free, i)
    requires SlotOk(t, i, slot)
    ensures SlotOk(t', i, slot)
  {
    hide Splice, IsFree;
    if slot.Waiting? {
      SpliceElsewhere(t.bytes, k * SLOT_BYTES + b, w, i * SLOT_BYTES + 6, i * SLOT_BYTES + t.len[i]);
    }
  }

  /** Storing a packet in slot k. */
  lemma Stored(t: Table, t': Table, slots: seq<Slot>, k: nat, ticket: nat, p: Packet)
    requires Represents(t, slots) && Shaped(t') && k < SLOTS && 6 + |p.tail| <= SLOT_BYTES
    requires t'.free == ClearFree(t.free, k)
    requires t'.dst == t.dst[k := p.dst] && t'.expire == t.expire[k := p.expire] && t'.len == t.len[k := 6 + |p.tail|]
    requires t'.bytes == Splice(t.bytes, k * SLOT_BYTES + 6, p.tail)
    ensures Represents(t', slots[k := Waiting(ticket, p)])
  {
    hide SlotOk, ClearFree, IsFree, Splice;
    var after := slots[k := Waiting(ticket, p)];
    forall i | 0 <= i < SLOTS ensures SlotOk(t', i, after[i]) {
      FreeUpdate(t.free, k, i);
      if i == k {
        NewSlot(t', k, ticket, p);
      } else {
        OtherSlot(t, t', k, i, 6, p.tail, slots[i]);
      }
    }
  }

  lemma NewSlot(t: Table, k: nat, ticket: nat, p: Packet)
    requires Shaped(t) && k < SLOTS && 6 + |p.tail| <= SLOT_BYTES && !IsFree(t.free, k)
    requires t.dst[k] == p.dst && t.expire[k] == p.expire && t.len[k] == 6 + |p.tail|
    requires t.bytes[k * SLOT_BYTES + 6..k * SLOT_BYTES + 6 + |p.tail|] == p.tail
    ensures SlotOk(t, k, Waiting(ticket, p))
  {
  }

  /** Releasing slot k, and then writing into its packet bytes. */
  lemma Released(t: Table, t': Table, slots: seq<Slot>, k: nat, b: nat, w: seq<u8>)
    requires Represents(t, slots) && Shaped(t') && k < SLOTS && b + |w| <= SLOT_BYTES
    requires t'.free == SetFree(t.free, k) && t'.dst == t.dst && t'.expire == t.expire && t'.len == t.len
    requires t'.bytes == Splice(t.bytes, k * SLOT_BYTES + b, w)
    ensures Represents(t', slots[k := Free])
  {
    hide SlotOk, SetFree, IsFree, Splice;
    var after := slots[k := Free];
    forall i | 0 <= i < SLOTS ensures SlotOk(t', i, after[i]) {
      FreeUpdate(t.free, k, i);
      if i == k {
        FreeSlot(t', k);
      } else {
        OtherSlot(t, t', k, i, b, w, slots[i]);
      }
    }
  }

  lemma FreeSlot(t: Table, k: nat)
    requires Shaped(t) && k < SLOTS && IsFree(t.free, k)
    ensures SlotOk(t, k, Free)
  {
  }

  /** What one slot of a represented table tells. */
  lemma SlotAt(t: Table, slots: seq<Slot>, i: nat)
    requires Represents(t, slots) && i < SLOTS
    ensures SlotOk(t, i, slots[i])
  {
  }

  /** The first word with a free slot and its lowest bit give the lowest free slot. */
  lemma FirstFreeBit(free: seq<bv32>, slots: seq<Slot>, id: nat)
    requires |free| == 2 && |slots| == SLOTS && forall i :: 0 <= i < SLOTS ==> (IsFree(free, i) <==> slots[i].Free?)
    requires id <= SLOTS && forall j :: 0 <= j < id ==> !IsFree(free, j)
    requires id < SLOTS ==> IsFree(free, id)
    ensures FirstFree(slots) == id
  {
    hide IsFree;
    forall j | 0 <= j < id ensures slots[j].Waiting? {
      assert !IsFree(free, j);
    }
    FirstFreeIs(slots, id);
  }

  lemma FirstFreeIs(slots: seq<Slot>, id: nat)
    requires id <= |slots| && (forall j :: 0 <= j < id ==> slots[j].Waiting?) && (id < |slots| ==> slots[id].Free?)
    ensures FirstFree(slots) == id
  {
    hide FirstFree;
    assert FirstFree(slots) <= |slots|;
  }

  lemma ZeroHasNone(x: bv32, i: nat)
    requires x == 0 && i < 32
    ensures !Has(x, i)
  {
  }

  lemma WordEmpty(free: seq<bv32>, word: nat)
    requires |free| == 2 && word < 2 && free[word] == 0
    ensures forall j :: word * 32 <= j < word * 32 + 32 ==> !IsFree(free, j)
  {
    hide Has;
    forall j | word * 32 <= j < word * 32 + 32 ensures !IsFree(free, j) {
      ZeroHasNone(free[word], j % 32);
    }
  }

  lemma WordFirst(free: seq<bv32>, word: nat, bit: nat)
    requires |free| == 2 && word < 2 && bit < 32 && Has(free[word], bit)
    requires forall j: nat :: j < bit ==> !Has(free[word], j)
    ensures IsFree(free, word * 32 + bit)
    ensures forall j :: word * 32 <= j < word * 32 + bit ==> !IsFree(free, j)
  {
    hide Has;
  }
}
