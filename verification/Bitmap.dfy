/** The physical frame allocator of src/mem/bitmap.c: one bit per 4 KiB frame, set when the frame is in use. */
module Bitmap {

  const BITS_PER_ROW := 8
  const PAGE_SIZE := 4096
  const RESERVED_ABOVE_KERNEL := 1024 * 1024 * 12

  // 1 << k as an 8-bit value, tabulated; MaskIsShift ties the table to the shift.
  function Mask(k: nat): bv8
    requires k < BITS_PER_ROW
  {
    match k
    case 0 => 0x01 case 1 => 0x02 case 2 => 0x04 case 3 => 0x08
    case 4 => 0x10 case 5 => 0x20 case 6 => 0x40 case _ => 0x80
  }

  lemma MaskIsShift(k: nat)
    requires k < BITS_PER_ROW
    ensures Mask(k) == 1 << k
  {
  }

  predicate Bit(row: bv8, k: nat)
    requires k < BITS_PER_ROW
  {
    row & Mask(k) != 0
  }

  lemma SettingOneBit(row: bv8, k: nat, j: nat)
    requires k < BITS_PER_ROW && j < BITS_PER_ROW
    ensures Bit(row | Mask(k), j) <==> k == j || Bit(row, j)
    ensures Bit(row & !Mask(k), j) <==> k != j && Bit(row, j)
  {
  }

  // The frames whose bit is clear: the set that a byte array stands for.
  predicate IsFree(rows: seq<bv8>, frame: nat)
    requires frame < |rows| * BITS_PER_ROW
  {
    !Bit(rows[frame / BITS_PER_ROW], frame % BITS_PER_ROW)
  }

  function FreeSet(rows: seq<bv8>): set<nat>
  {
    set frame: nat | frame < |rows| * BITS_PER_ROW && IsFree(rows, frame)
  }

  // Replacing one row by another that differs in at most one bit changes the set by at most that frame.
  lemma FreeSetAfterRow(rows: seq<bv8>, frame: nat, row: bv8, used: bool)
    requires frame < |rows| * BITS_PER_ROW
    requires forall j: nat :: j < BITS_PER_ROW ==>
               (Bit(row, j) <==> if j == frame % BITS_PER_ROW then used else Bit(rows[frame / BITS_PER_ROW], j))
    ensures FreeSet(rows[frame / BITS_PER_ROW := row])
            == if used then FreeSet(rows) - {frame} else FreeSet(rows) + {frame}
  {
    var after := rows[frame / BITS_PER_ROW := row];
    forall f: nat | f < |rows| * BITS_PER_ROW
      ensures IsFree(after, f) <==> if f == frame then !used else IsFree(rows, f)
    {
      var j := f % BITS_PER_ROW;
      assert Bit(row, j) <==> if j == frame % BITS_PER_ROW then used else Bit(rows[frame / BITS_PER_ROW], j);
    }
  }

  class FrameBitmap {
    const bitmap: array<bv8>
    const totalPages: nat

    ghost predicate Valid()
    {
      totalPages == bitmap.Length * BITS_PER_ROW
    }

    // The frames not in use.
    ghost function Free(): (frames: set<nat>)
      reads bitmap
    {
      FreeSet(bitmap[..])
    }

    constructor InitBitmap(size: nat, kernelPhysicalEnd: nat)
      ensures Valid() && fresh(bitmap)
      ensures totalPages == size / PAGE_SIZE / BITS_PER_ROW * BITS_PER_ROW
      ensures forall f: nat :: f in Free() <==>
                (kernelPhysicalEnd + RESERVED_ABOVE_KERNEL) / PAGE_SIZE <= f < totalPages
    {
      var bytes := size / PAGE_SIZE / BITS_PER_ROW;
      bitmap := new bv8[bytes];
      totalPages := bytes * BITS_PER_ROW;
      new;
      for i := 0 to bytes
        invariant forall j :: 0 <= j < i ==> bitmap[j] == 0
      {
        bitmap[i] := 0;
      }
      forall f: nat | f < totalPages
        ensures f in Free()
      {
        assert bitmap[..][f / BITS_PER_ROW] == 0;
        assert IsFree(bitmap[..], f);
      }
      SetPageRangeUsed(0, kernelPhysicalEnd + RESERVED_ABOVE_KERNEL);
    }

    method IsPageFree(pageIndex: nat) returns (free: bool)
      requires Valid() && pageIndex < totalPages
      ensures free <==> pageIndex in Free()
      ensures free <==> bitmap[pageIndex / BITS_PER_ROW] & Mask(pageIndex % BITS_PER_ROW) == 0
    {
      free := !Bit(bitmap[pageIndex / BITS_PER_ROW], pageIndex % BITS_PER_ROW);
      assert free == IsFree(bitmap[..], pageIndex);
    }

    // An index past the end is reported and ignored.
    method SetPageFree(pageIndex: nat)
      requires Valid()
      modifies bitmap
      ensures Free() == old(Free()) + if pageIndex < totalPages then {pageIndex} else {}
    {
      if pageIndex >= totalPages {
        return;
      }
      var y := pageIndex / BITS_PER_ROW;
      var row := bitmap[y] & !Mask(pageIndex % BITS_PER_ROW);
      forall j: nat | j < BITS_PER_ROW
        ensures Bit(row, j) <==> if j == pageIndex % BITS_PER_ROW then false else Bit(bitmap[y], j)
      {
        SettingOneBit(bitmap[y], pageIndex % BITS_PER_ROW, j);
      }
      FreeSetAfterRow(bitmap[..], pageIndex, row, false);
      ghost var after := bitmap[..][y := row];
      bitmap[y] := row;
      assert bitmap[..] == after;
    }

    method SetPageUsed(pageIndex: nat)
      requires Valid()
      modifies bitmap
      ensures Free() == old(Free()) - {pageIndex}
    {
      if pageIndex >= totalPages {
        return;
      }
      var y := pageIndex / BITS_PER_ROW;
      var row := bitmap[y] | Mask(pageIndex % BITS_PER_ROW);
      forall j: nat | j < BITS_PER_ROW
        ensures Bit(row, j) <==> if j == pageIndex % BITS_PER_ROW then true else Bit(bitmap[y], j)
      {
        SettingOneBit(bitmap[y], pageIndex % BITS_PER_ROW, j);
      }
      FreeSetAfterRow(bitmap[..], pageIndex, row, true);
      ghost var after := bitmap[..][y := row];
      bitmap[y] := row;
      assert bitmap[..] == after;
    }

    method SetPageRangeUsed(memoryRangeStart: nat, memoryRangeEnd: nat)
      requires Valid()
      modifies bitmap
      ensures forall f :: f in Free() <==>
                f in old(Free()) && !(memoryRangeStart / PAGE_SIZE <= f < memoryRangeEnd / PAGE_SIZE)
    {
      var pageStart := memoryRangeStart / PAGE_SIZE;
      var pageEnd := memoryRangeEnd / PAGE_SIZE;
      var i := pageStart;
      while i < pageEnd
        invariant pageStart <= i <= if pageStart <= pageEnd then pageEnd else pageStart
        invariant forall f :: f in Free() <==> f in old(Free()) && !(pageStart <= f < i)
      {
        SetPageUsed(i);
        i := i + 1;
      }
    }

    // First fit. Address 0 is returned when no frame is free.
    method AllocatePhysicalPage() returns (address: nat)
      requires Valid()
      modifies bitmap
      ensures address % PAGE_SIZE == 0
      ensures old(Free()) == {} ==> address == 0 && Free() == {}
      ensures old(Free()) != {} ==>
                var frame := address / PAGE_SIZE;
                && frame in old(Free()) && frame < totalPages
                && (forall f :: f in old(Free()) ==> frame <= f)
                && Free() == old(Free()) - {frame}
      ensures 0 !in old(Free()) ==> (address == 0 <==> old(Free()) == {})
    {
      hide Bit, IsFree;
      address := 0;
      var i := 0;
      while i < totalPages
        invariant i <= totalPages
        invariant forall f :: f in Free() ==> i <= f
        invariant Free() == old(Free())
      {
        var free := IsPageFree(i);
        if free {
          SetPageUsed(i);
          address := i * PAGE_SIZE;
          return;
        }
        i := i + 1;
      }
      assert Free() == {};
    }
  }
}
