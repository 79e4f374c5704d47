/**
  Single bits and bit ranges of a byte array, and the flat bit sequence the array stands for.
 */
module Bits {
  import opened Machine

  const CHAR_BIT: nat := 8

  type Byte = bv8

  function Bit(value: Byte, bit: nat): bool {
    if bit >= CHAR_BIT then false else (value >> bit) & 1 == 1
  }

  function WithBit(value: Byte, bit: nat, flag: bool): Byte {
    if bit >= CHAR_BIT then value
    else
      var mask: Byte := 1 << bit;
      (value & !mask) | (if flag then mask else 0)
  }

  function Mask(bit: nat): Byte
    requires bit < CHAR_BIT
  {
    1 << bit
  }

  lemma BitByMask(value: Byte, bit: nat)
    requires bit < CHAR_BIT
    ensures Bit(value, bit) <==> value & Mask(bit) != 0
  {
  }

  /** A binary digit of a number, counted from the lowest. */
  function Digit(n: nat, k: nat): nat {
    if k == 0 then n % 2 else Digit(n / 2, k - 1)
  }

  lemma {:induction false} ShiftOnce(value: Byte)
    ensures (value >> 1) as nat == value as nat / 2
  {
  }

  lemma {:induction false} ShiftFirst(value: Byte, bit: nat)
    requires 0 < bit < CHAR_BIT
    ensures value >> bit == (value >> 1) >> (bit - 1)
  {
  }

  lemma {:induction false} LastBit(value: Byte)
    ensures value & 1 == 1 <==> value as nat % 2 == 1
  {
  }

  /** A bit is a binary digit of the byte's value, counted from the lowest; beyond the byte there are none. */
  lemma {:induction false} BitIsDigit(value: Byte, bit: nat)
    ensures bit < CHAR_BIT ==> (Bit(value, bit) <==> Digit(value as nat, bit) == 1)
    ensures bit >= CHAR_BIT ==> !Bit(value, bit)
    decreases bit
  {
    if bit == 0 {
      LastBit(value);
    } else if bit < CHAR_BIT {
      ShiftOnce(value);
      ShiftFirst(value, bit);
      BitIsDigit(value >> 1, bit - 1);
    }
  }

  lemma MasksDisjoint(i: nat, j: nat)
    requires i < CHAR_BIT && j < CHAR_BIT && i != j
    ensures Mask(i) & Mask(j) == 0
  {
  }

  lemma WriteByMask(value: Byte, mask: Byte, other: Byte)
    requires mask & other == 0
    ensures ((value & !mask) | mask) & other == value & other == ((value & !mask) | 0) & other
    ensures ((value & !mask) | mask) & mask == mask && ((value & !mask) | 0) & mask == 0
  {
  }

  /** SetBit writes one bit and keeps the other seven. */
  lemma WithBitExact(value: Byte, bit: nat, flag: bool, j: nat)
    requires bit < CHAR_BIT && j < CHAR_BIT
    ensures Bit(WithBit(value, bit, flag), j) == if j == bit then flag else Bit(value, j)
  {
    BitByMask(value, j);
    BitByMask(WithBit(value, bit, flag), j);
    if j == bit {
      WriteByMask(value, Mask(bit), 0);
    } else {
      MasksDisjoint(bit, j);
      WriteByMask(value, Mask(bit), Mask(j));
    }
  }

  lemma FullByte(j: nat)
    requires j < CHAR_BIT
    ensures Bit(0xFF, j)
  {
  }

  function Flat(data: seq<Byte>): (bits: seq<bool>)
    ensures |bits| == CHAR_BIT * |data|
  {
    seq(CHAR_BIT * |data|, k requires 0 <= k < CHAR_BIT * |data| => Bit(data[k / CHAR_BIT], k % CHAR_BIT))
  }

  /** Range assignment on a flat bit sequence; a range that does not fit changes nothing. */
  function WithRange(bits: seq<bool>, start: nat, length: nat, flag: bool): (r: seq<bool>)
    ensures |r| == |bits|
  {
    if start + length > |bits| then bits
    else seq(|bits|, k requires 0 <= k < |bits| => if start <= k < start + length then flag else bits[k])
  }

  lemma FlatAt(data: seq<Byte>, idx: nat, bit: nat)
    requires idx < |data| && bit < CHAR_BIT
    ensures Flat(data)[idx * CHAR_BIT + bit] == Bit(data[idx], bit)
  {
    var k := idx * CHAR_BIT + bit;
    assert k / CHAR_BIT == idx && k % CHAR_BIT == bit;
  }

  /** Writing one bit of one byte changes that one place of the flat sequence. */
  lemma FlatWithBit(data: seq<Byte>, idx: nat, bit: nat, flag: bool)
    requires idx < |data| && bit < CHAR_BIT
    ensures Flat(data[idx := WithBit(data[idx], bit, flag)]) == Flat(data)[idx * CHAR_BIT + bit := flag]
  {
    var after := Flat(data[idx := WithBit(data[idx], bit, flag)]);
    forall k | 0 <= k < |after|
      ensures after[k] == Flat(data)[idx * CHAR_BIT + bit := flag][k]
    {
      if k / CHAR_BIT == idx {
        WithBitExact(data[idx], bit, flag, k % CHAR_BIT);
      }
    }
  }

  method Store(data: array<Byte>, idx: nat, value: Byte)
    requires idx < data.Length
    modifies data
    ensures data[..] == old(data[..])[idx := value]
  {
    data[idx] := value;
  }

  /** The new value of the byte, as SetBit computes it. */
  method Written(value: Byte, bit: nat, flag: bool) returns (r: Byte)
    requires bit < CHAR_BIT
    ensures r == WithBit(value, bit, flag)
  {
    var mask: Byte := 1 << bit;
    return (value & !mask) | (if flag then mask else 0);
  }

  method SetBit(data: array<Byte>, idx: nat, bit: nat, flag: bool)
    requires idx < data.Length
    modifies data
    ensures data[..] == old(data[..])[idx := WithBit(old(data[idx]), bit, flag)]
    ensures bit >= CHAR_BIT ==> data[..] == old(data[..])
    ensures bit < CHAR_BIT ==> Flat(data[..]) == Flat(old(data[..]))[idx * CHAR_BIT + bit := flag]
  {
    if bit >= CHAR_BIT {
      return;
    }
    FlatWithBit(data[..], idx, bit, flag);
    var value := Written(data[idx], bit, flag);
    Store(data, idx, value);
  }

  /** Number of the first bit of a range, in 64-bit arithmetic. */
  function FirstBit(startIndex: nat, startBit: nat): nat {
    (startIndex * CHAR_BIT + startBit) % SIZE_LIMIT
  }

  /** A range whose end wraps round to a place inside the data passes the bounds test and leaves the data. */
  predicate Overruns(size: nat, first: nat, length: nat) {
    && first < size * CHAR_BIT
    && first + length >= SIZE_LIMIT && (first + length) % SIZE_LIMIT <= size * CHAR_BIT
  }

  lemma NoWrap(size: nat, startIndex: nat, startBit: nat, length: nat)
    requires startIndex * CHAR_BIT + startBit + length < SIZE_LIMIT
    ensures FirstBit(startIndex, startBit) == startIndex * CHAR_BIT + startBit
    ensures !Overruns(size, FirstBit(startIndex, startBit), length)
  {
  }

  lemma WriteNext(data: seq<Byte>, was: seq<bool>, first: nat, i: nat, flag: bool)
    requires first + i < |was| == CHAR_BIT * |data| && Flat(data) == WithRange(was, first, i, flag)
    ensures
      var b := first + i;
      Flat(data[b / CHAR_BIT := WithBit(data[b / CHAR_BIT], b % CHAR_BIT, flag)]) == WithRange(was, first, i + 1, flag)
  {
    var b := first + i;
    FlatWithBit(data, b / CHAR_BIT, b % CHAR_BIT, flag);
    assert WithRange(was, first, i, flag)[b := flag] == WithRange(was, first, i + 1, flag);
  }

  /** The test of the wrapping end against the size is right whenever the range does not overrun. */
  lemma BoundsTest(size: nat, first: nat, length: nat)
    requires size * CHAR_BIT < SIZE_LIMIT && first < size * CHAR_BIT && length < SIZE_LIMIT
    requires !Overruns(size, first, length)
    ensures (first + length) % SIZE_LIMIT > size * CHAR_BIT <==> first + length > size * CHAR_BIT
  {
  }

  /** The loop of SetBitRange. */
  method WriteBits(data: array<Byte>, size: nat, first: nat, length: nat, flag: bool)
    requires size <= data.Length && first + length <= size * CHAR_BIT
    modifies data
    ensures Flat(data[..size]) == WithRange(old(Flat(data[..size])), first, length, flag)
    ensures data[size..] == old(data[size..])
  {
    ghost var was := Flat(data[..size]);
    assert was == WithRange(was, first, 0, flag);
    for i := 0 to length
      invariant Flat(data[..size]) == WithRange(was, first, i, flag)
      invariant data[size..] == old(data[size..])
    {
      var b := first + i;
      ghost var before := data[..size];
      WriteNext(before, was, first, i, flag);
      SetBit(data, b / CHAR_BIT, b % CHAR_BIT, flag);
      assert data[..size] == before[b / CHAR_BIT := WithBit(before[b / CHAR_BIT], b % CHAR_BIT, flag)];
    }
  }

  /**
    Sets `length` consecutive bits of the first `size` bytes, across byte boundaries.  The
    array may continue past `size`; a range that would leave the first `size` bytes, or
    that starts beyond them, is silently dropped.
   */
  method SetBitRange(data: array<Byte>, size: nat, startIndex: nat, startBit: nat, length: nat, flag: bool)
    requires size <= data.Length && size * CHAR_BIT < SIZE_LIMIT && length < SIZE_LIMIT
    requires !Overruns(size, FirstBit(startIndex, startBit), length)
    modifies data
    ensures Flat(data[..size]) == WithRange(old(Flat(data[..size])), FirstBit(startIndex, startBit), length, flag)
    ensures data[size..] == old(data[size..])
  {
    if length == 0 {
      ghost var was := Flat(data[..size]);
      assert WithRange(was, FirstBit(startIndex, startBit), 0, flag) == was;
      return;
    }
    var total := size * CHAR_BIT;
    var sb := (startIndex * CHAR_BIT + startBit) % SIZE_LIMIT;
    if sb >= total {
      return;
    }
    BoundsTest(size, sb, length);
    if (sb + length) % SIZE_LIMIT > total {
      return;
    }
    WriteBits(data, size, sb, length, flag);
  }
}
