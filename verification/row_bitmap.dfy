/** The null bitmap: reading a bit back, and building the bitmap one bit at a time. */
module RowBitmap {
  import opened Bits
  import opened Bytes
  import opened Results
  import opened RowLayout

  predicate NullAt(cells: seq<Cell>, i: nat) {
    i < |cells| && cells[i].None?
  }

  lemma {:induction false} NullByteBit(cells: seq<Cell>, base: nat, k: nat, j: nat)
    requires k <= j < 8
    ensures Bit(NullByteFrom(cells, base, k), j - k) <==> NullAt(cells, base + j)
    decreases j - k
  {
    var rest := NullByteFrom(cells, base, k + 1);
    if k < j {
      NullByteBit(cells, base, k + 1, j);
      assert NullByteFrom(cells, base, k) / 2 == rest;
    }
  }

  /** A bit of the bitmap is set exactly for a null column. */
  lemma NullBitmapBit(cells: seq<Cell>, count: nat, i: nat)
    requires i < count
    ensures IsNullBit(NullBitmap(cells, count), i) <==> NullAt(cells, i)
  {
    NullByteBit(cells, 8 * (i / 8), 0, i % 8);
  }

  lemma {:induction false} NullByteUnchanged(a: seq<Cell>, b: seq<Cell>, base: nat, k: nat)
    requires k <= 8
    requires forall i :: base + k <= i < base + 8 ==> (NullAt(a, i) <==> NullAt(b, i))
    ensures NullByteFrom(a, base, k) == NullByteFrom(b, base, k)
    decreases 8 - k
  {
    hide NullAt, Pow2;
    if k < 8 {
      assert NullAt(a, base + k) <==> NullAt(b, base + k);
      NullByteStep(a, base, k);
      NullByteStep(b, base, k);
      hide NullByteFrom;
      NullByteUnchanged(a, b, base, k + 1);
    }
  }

  lemma {:induction false} NullByteSet(cells: seq<Cell>, base: nat, k: nat)
    requires k < 8 && base + k <= |cells| < base + 8
    ensures NullByteFrom(cells + [None], base, k) == OrBit(NullByteFrom(cells, base, k), |cells| - base - k)
    decreases 8 - k
  {
    hide OrBit, Pow2, NullByteFrom, NullAt;
    NullByteStep(cells, base, k);
    NullByteStep(cells + [None], base, k);
    NullAtEnd(cells, base + k);
    var bit := if NullAt(cells, base + k) then 1 else 0;
    var rest := NullByteFrom(cells, base, k + 1);
    if base + k == |cells| {
      LaterBits(cells, base, k + 1);
      OrBitOfDouble(bit, rest, 0);
    } else {
      NullByteSet(cells, base, k + 1);
      OrBitOfDouble(bit, rest, |cells| - base - k);
    }
  }

  lemma LaterBits(cells: seq<Cell>, base: nat, k: nat)
    requires k <= 8 && base + k > |cells|
    ensures NullByteFrom(cells + [None], base, k) == NullByteFrom(cells, base, k)
  {
    hide NullByteFrom, NullAt, Pow2;
    forall i | base + k <= i < base + 8
      ensures NullAt(cells + [None], i) <==> NullAt(cells, i)
    {
      NullAtEnd(cells, i);
    }
    NullByteUnchanged(cells + [None], cells, base, k);
  }

  lemma NullByteStep(cells: seq<Cell>, base: nat, k: nat)
    requires k < 8
    ensures NullByteFrom(cells, base, k)
         == (if NullAt(cells, base + k) then 1 else 0) + 2 * NullByteFrom(cells, base, k + 1)
  {
  }

  lemma NullAtEnd(cells: seq<Cell>, i: nat)
    ensures NullAt(cells + [None], i) <==> NullAt(cells, i) || i == |cells|
    ensures i >= |cells| ==> !NullAt(cells, i)
  {
  }

  lemma OrBitOfDouble(bit: nat, rest: nat, j: nat)
    requires bit < 2
    ensures j > 0 ==> OrBit(bit + 2 * rest, j) == bit + 2 * OrBit(rest, j - 1)
    ensures bit == 0 ==> OrBit(2 * rest, 0) == 1 + 2 * rest
  {
    assert (bit + 2 * rest) / 2 == rest && (bit + 2 * rest) % 2 == bit;
  }

  /** setNullBit on the bitmap of the columns so far gives the bitmap with one more null column. */
  lemma SetNullBit(cells: seq<Cell>, count: nat)
    requires |cells| < count
    ensures
      var bits := NullBitmap(cells, count);
      var i := |cells|;
      0 <= OrBit(bits[i / 8], i % 8) < 256
      && NullBitmap(cells + [None], count) == bits[i / 8 := OrBit(bits[i / 8], i % 8)]
  {
    var i, bits, more := |cells|, NullBitmap(cells, count), NullBitmap(cells + [None], count);
    Pow2Eight();
    OrBitRange(bits[i / 8], i % 8, 8);
    forall b | 0 <= b < |bits|
      ensures more[b] == if b == i / 8 then OrBit(bits[b], i % 8) else bits[b]
    {
      if b == i / 8 {
        NullByteShift(cells, b);
      } else {
        OtherByte(cells, 8 * b);
      }
    }
  }

  lemma OtherByte(cells: seq<Cell>, base: nat)
    requires |cells| < base || base + 8 <= |cells|
    ensures NullByteFrom(cells + [None], base, 0) == NullByteFrom(cells, base, 0)
  {
    forall i | base <= i < base + 8
      ensures NullAt(cells + [None], i) <==> NullAt(cells, i)
    {
    }
    NullByteUnchanged(cells, cells + [None], base, 0);
  }

  lemma NullByteShift(cells: seq<Cell>, b: nat)
    requires b == |cells| / 8
    ensures NullByte(cells + [None], 8 * b) == OrBit(NullByte(cells, 8 * b), |cells| % 8)
  {
    NullByteSet(cells, 8 * b, 0);
  }

  lemma PresentIsNotNull(cells: seq<Cell>, cell: Cell, i: nat)
    requires cell.Some?
    ensures NullAt(cells + [cell], i) <==> NullAt(cells, i)
  {
  }

  lemma SkipInByte(cells: seq<Cell>, cell: Cell, base: nat)
    requires cell.Some?
    ensures NullByteFrom(cells + [cell], base, 0) == NullByteFrom(cells, base, 0)
  {
    forall i | base <= i < base + 8
      ensures NullAt(cells + [cell], i) <==> NullAt(cells, i)
    {
      PresentIsNotNull(cells, cell, i);
    }
    NullByteUnchanged(cells + [cell], cells, base, 0);
  }

  /** A column that is present leaves the bitmap as it is. */
  lemma SkipNullBit(cells: seq<Cell>, cell: Cell, count: nat)
    requires cell.Some?
    ensures NullBitmap(cells + [cell], count) == NullBitmap(cells, count)
  {
    forall b | 0 <= b < NullBitsSize(count)
      ensures NullByte(cells + [cell], 8 * b) == NullByte(cells, 8 * b)
    {
      SkipInByte(cells, cell, 8 * b);
    }
    hide NullByte;
    assert NullBitmap(cells + [cell], count) == NullBitmap(cells, count);
  }
}
