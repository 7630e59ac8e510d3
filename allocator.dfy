/**
 * The free-block allocator: a first-fit scan of the superblock's 64-bit
 * free bitmap (bit i set = block i free), starting at block 2.
 */
module Allocator {
  import opened Layout

  /** First block the scan looks at; blocks 0 and 1 hold the superblock and the inode store. */
  const FIRST_SCANNED_BLOCK: nat := 2

  /** Block index i as a shift amount: i counted up in 6 bits, which hold every bitmap index. */
  function ShiftOf(i: nat): bv6
    requires i < BITMAP_BITS
  {
    if i == 0 then 0 else ShiftOf(i - 1) + 1
  }

  lemma {:induction false} ShiftOfValue(i: nat)
    requires i < BITMAP_BITS
    ensures ShiftOf(i) as int == i
  {
    if i > 0 {
      ShiftOfValue(i - 1);
    }
  }

  /** The bitmap word with only bit i set: `1 << i`. */
  function Bit(i: nat): bv64
    requires i < BITMAP_BITS
  {
    (1 as bv64) << ShiftOf(i)
  }

  predicate IsFree(free: bv64, i: nat)
    requires i < BITMAP_BITS
  {
    free & Bit(i) != 0
  }

  lemma ShiftedOnes(a: bv6, b: bv6)
    ensures ((1 as bv64) << a) & ((1 as bv64) << b) != 0 <==> a == b
  {
  }

  /** Bit(i) is set at position i and nowhere else. */
  lemma OnlyBitSet(i: nat, j: nat)
    requires i < BITMAP_BITS && j < BITMAP_BITS
    ensures IsFree(Bit(i), j) <==> i == j
  {
    ShiftOfValue(i);
    ShiftOfValue(j);
    ShiftedOnes(ShiftOf(i), ShiftOf(j));
  }

  lemma MaskedOutSelf(free: bv64, m: bv64)
    ensures (free & !m) & m == 0
  {
  }

  lemma MaskedOutDisjoint(free: bv64, m: bv64, n: bv64)
    requires m & n == 0
    ensures (free & !m) & n == free & n
  {
  }

  lemma ClearBitOther(free: bv64, i: nat, j: nat)
    requires i < BITMAP_BITS && j < BITMAP_BITS && i != j
    ensures (free & !Bit(i)) & Bit(j) == free & Bit(j)
  {
    OnlyBitSet(i, j);
    MaskedOutDisjoint(free, Bit(i), Bit(j));
  }

  lemma ClearBitAt(free: bv64, i: nat, j: nat)
    requires i < BITMAP_BITS && j < BITMAP_BITS
    ensures IsFree(free & !Bit(i), j) <==> j != i && IsFree(free, j)
  {
    if i == j {
      MaskedOutSelf(free, Bit(i));
    } else {
      ClearBitOther(free, i, j);
    }
  }

  /** `free_blocks &= ~(1 << i)`. */
  function ClearBit(free: bv64, i: nat): bv64
    requires i < BITMAP_BITS
  {
    free & !Bit(i)
  }

  /** Clearing bit i marks exactly block i used: every other bit keeps its value. */
  lemma ClearBitSpec(free: bv64, i: nat)
    requires i < BITMAP_BITS
    ensures !IsFree(ClearBit(free, i), i)
    ensures forall j: nat | j < BITMAP_BITS :: IsFree(ClearBit(free, i), j) <==> j != i && IsFree(free, j)
  {
    forall j: nat | j < BITMAP_BITS
      ensures IsFree(ClearBit(free, i), j) <==> j != i && IsFree(free, j)
    {
      ClearBitAt(free, i, j);
    }
  }

  /** The lowest free block at index i or above, if any. */
  function FirstFreeFrom(free: bv64, i: nat): (r: Option<nat>)
    requires i <= BITMAP_BITS
    decreases BITMAP_BITS - i
    ensures r.Some? ==> i <= r.value < BITMAP_BITS
  {
    if i == BITMAP_BITS then None
    else if IsFree(free, i) then Some(i)
    else FirstFreeFrom(free, i + 1)
  }

  /** FirstFreeFrom is the least free index at or above i; None when there is none. */
  lemma {:induction false} FirstFreeFromSpec(free: bv64, i: nat)
    requires i <= BITMAP_BITS
    decreases BITMAP_BITS - i
    ensures var r := FirstFreeFrom(free, i);
      && (r.Some? ==> IsFree(free, r.value))
      && (r.Some? ==> forall j: nat | i <= j < r.value :: !IsFree(free, j))
      && (r.None? <==> forall j: nat | i <= j < BITMAP_BITS :: !IsFree(free, j))
  {
    if i < BITMAP_BITS && !IsFree(free, i) {
      FirstFreeFromSpec(free, i + 1);
    }
  }

  /** The block the allocator should hand out: the smallest free index in [2, 64). */
  function FirstFree(free: bv64): Option<nat> {
    FirstFreeFrom(free, FIRST_SCANNED_BLOCK)
  }

  /** The scan of assoofs_sb_get_a_freeblock, bounded to the bitmap. */
  method FindFreeBlock(free: bv64) returns (r: Option<nat>)
    ensures r == FirstFree(free)
    ensures r.Some? ==> LAST_RESERVED_BLOCK <= r.value < BITMAP_BITS
  {
    var i := FIRST_SCANNED_BLOCK;
    while i < BITMAP_BITS
      invariant FIRST_SCANNED_BLOCK <= i <= BITMAP_BITS
      invariant FirstFreeFrom(free, i) == FirstFree(free)
    {
      if free & Bit(i) != 0 {
        break;
      }
      i := i + 1;
    }
    r := if i < BITMAP_BITS then Some(i) else None;
  }

  /** First fit is the least free block: any other free block at or above 2 lies above it. */
  lemma FirstFreeIsLeast(free: bv64, b: nat)
    requires FIRST_SCANNED_BLOCK <= b < BITMAP_BITS && IsFree(free, b)
    ensures FirstFree(free).Some?
    ensures FirstFree(free).value <= b
  {
    FirstFreeFromSpec(free, FIRST_SCANNED_BLOCK);
  }

  /** After allocation the block handed out is no longer free, and the next allocation lies above it. */
  lemma AllocateTwiceDistinct(free: bv64)
    requires FirstFree(free).Some?
    ensures var b := FirstFree(free).value;
      var next := FirstFree(ClearBit(free, b));
      next.Some? ==> b < next.value
  {
    var b := FirstFree(free).value;
    var free' := ClearBit(free, b);
    FirstFreeFromSpec(free, FIRST_SCANNED_BLOCK);
    FirstFreeFromSpec(free', FIRST_SCANNED_BLOCK);
    ClearBitSpec(free, b);
    var next := FirstFree(free');
    if next.Some? {
      assert IsFree(free, next.value) && next.value != b;
    }
  }

  // ---------------------------------------------------------------------
  // The scan as assoofs.c writes it.

  /**
   * The mask `1 << i` of assoofs.c, which is computed in a 32-bit int and
   * widened to uint64_t for the `&` with free_blocks. C leaves shifts by 31
   * or more undefined; this is what x86-64 computes: the shift count is
   * taken modulo 32 and the int is sign-extended when widened.
   */
  function IntShiftMask(i: nat): bv64
    requires i <= BITMAP_BITS
  {
    var count: nat := if i < 32 then i else if i < 64 then i - 32 else 0;  // i % 32
    var m := (1 as bv64) << ShiftOf(count);  // below 2^32: the int's 32 bits
    if m & 0x8000_0000 != 0 then m | 0xFFFF_FFFF_0000_0000 else m
  }

  /** Where the unbounded `for (i = 2; i < 64; i++)` scan with the int mask stops. */
  function ScanAsWrittenFrom(free: bv64, i: nat): (r: nat)
    requires FIRST_SCANNED_BLOCK <= i <= BITMAP_BITS
    decreases BITMAP_BITS - i
    ensures i <= r <= BITMAP_BITS
    ensures r < BITMAP_BITS ==> free & IntShiftMask(r) != 0
  {
    if i == BITMAP_BITS then BITMAP_BITS
    else if free & IntShiftMask(i) != 0 then i
    else ScanAsWrittenFrom(free, i + 1)
  }

  /**
   * No index before the stop meets its mask; in particular a stop at 64
   * means no index from i up met its mask.
   */
  lemma {:induction false} ScanAsWrittenFirst(free: bv64, i: nat, j: nat)
    requires FIRST_SCANNED_BLOCK <= i <= j < BITMAP_BITS && j < ScanAsWrittenFrom(free, i)
    ensures free & IntShiftMask(j) == 0
    decreases BITMAP_BITS - i
  {
    if i < j {
      ScanAsWrittenFirst(free, i + 1, j);
    }
  }

  /** assoofs_sb_get_a_freeblock as written: the block it stores in *block and the new bitmap. */
  function GetAFreeBlockAsWritten(free: bv64): (bool, nat, bv64) {
    var i := ScanAsWrittenFrom(free, FIRST_SCANNED_BLOCK);
    (true, i, free & !IntShiftMask(i))
  }

  lemma LowShift(s: bv6)
    requires s < 31
    ensures ((1 as bv64) << s) & 0x8000_0000 == 0
  {
  }

  lemma IntShiftMaskLow(i: nat)
    requires i < 31
    ensures IntShiftMask(i) == Bit(i)
  {
    ShiftOfValue(i);
    LowShift(ShiftOf(i));
  }

  lemma {:induction false} ScanAsWrittenSkips(free: bv64, i: nat, k: nat)
    requires FIRST_SCANNED_BLOCK <= i <= k <= 31
    requires forall j: nat | i <= j < k :: !IsFree(free, j)
    ensures ScanAsWrittenFrom(free, i) == ScanAsWrittenFrom(free, k)
    decreases k - i
  {
    if i < k {
      assert !IsFree(free, i);
      IntShiftMaskLow(i);
      ScanAsWrittenSkips(free, i + 1, k);
    }
  }

  lemma ScanAsWrittenFindsLow(free: bv64, b: nat)
    requires FIRST_SCANNED_BLOCK <= b < 31 && IsFree(free, b)
    ensures ScanAsWrittenFrom(free, b) == b
  {
    IntShiftMaskLow(b);
  }

  /** Below block 31 the int mask is the right bit, so the source finds the same block. */
  lemma ScanAsWrittenAgreesBelow31(free: bv64)
    requires FirstFree(free).Some? && FirstFree(free).value < 31
    ensures ScanAsWrittenFrom(free, FIRST_SCANNED_BLOCK) == FirstFree(free).value
  {
    var b := FirstFree(free).value;
    FirstFreeFromSpec(free, FIRST_SCANNED_BLOCK);
    ScanAsWrittenSkips(free, FIRST_SCANNED_BLOCK, b);
    ScanAsWrittenFindsLow(free, b);
  }

  /** The int mask at 31 is INT_MIN sign-extended; the only bit of block 40 lies under it. */
  lemma MasksAt31And40()
    ensures IntShiftMask(31) == 0xFFFF_FFFF_8000_0000
    ensures Bit(40) == 0x0000_0100_0000_0000
  {
    ShiftOfValue(31);
    ShiftOfValue(40);
  }

  lemma AsWrittenStopsAt31()
    ensures ScanAsWrittenFrom(Bit(40), FIRST_SCANNED_BLOCK) == 31
  {
    var free := Bit(40);
    forall j: nat | FIRST_SCANNED_BLOCK <= j < 31
      ensures !IsFree(free, j)
    {
      OnlyBitSet(40, j);
    }
    ScanAsWrittenSkips(free, FIRST_SCANNED_BLOCK, 31);
    MasksAt31And40();
  }

  lemma FirstFitTakes40()
    ensures !IsFree(Bit(40), 31)
    ensures FirstFree(Bit(40)) == Some(40)
  {
    var free := Bit(40);
    OnlyBitSet(40, 31);
    OnlyBitSet(40, 40);
    FirstFreeIsLeast(free, 40);
    FirstFreeFromSpec(free, FIRST_SCANNED_BLOCK);
    OnlyBitSet(40, FirstFree(free).value);
  }

  /**
   * With only block 40 free, the source stops at 31 (the sign-extended mask
   * 0xFFFFFFFF80000000 meets bit 40) and hands out block 31, which is in use;
   * clearing that mask also clears bits 31 to 63, so block 40 is lost and the
   * bitmap ends empty. First fit hands out block 40.
   */
  lemma AsWrittenHandsOutUsedBlock()
    ensures var free := Bit(40);
      && GetAFreeBlockAsWritten(free).1 == 31
      && !IsFree(free, 31)
      && GetAFreeBlockAsWritten(free).2 == 0
      && FirstFree(free) == Some(40)
  {
    AsWrittenStopsAt31();
    FirstFitTakes40();
    MasksAt31And40();
  }

  lemma {:induction false} ScanAsWrittenOfEmpty(i: nat)
    requires FIRST_SCANNED_BLOCK <= i <= BITMAP_BITS
    ensures ScanAsWrittenFrom(0, i) == BITMAP_BITS
    decreases BITMAP_BITS - i
  {
    if i < BITMAP_BITS {
      ScanAsWrittenOfEmpty(i + 1);
    }
  }

  /**
   * With no free block the source's loop runs to i == 64 and stores 64 in
   * *block, an index outside the bitmap, while reporting success; first fit
   * reports that nothing is free.
   */
  lemma AsWrittenOverrunsBitmap()
    ensures GetAFreeBlockAsWritten(0).0
    ensures GetAFreeBlockAsWritten(0).1 == BITMAP_BITS
    ensures FirstFree(0).None?
  {
    ScanAsWrittenOfEmpty(FIRST_SCANNED_BLOCK);
    FirstFreeFromSpec(0, FIRST_SCANNED_BLOCK);
  }
}
