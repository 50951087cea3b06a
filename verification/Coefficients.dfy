// Coefficient blocks: zigzag order (jpeg_natural_order in jutils.c) and 16-bit values.
module Coefficients {
  import opened BitStrings

  const DCTSIZE2 := 64

  type Index = n: nat | n < DCTSIZE2

  // jpeg_natural_order; every entry from 64 on is one of the sixteen safety entries.
  function NaturalOrder(k: nat): Index {
    if k == 0 then 0 else if k == 1 then 1 else if k == 2 then 8 else if k == 3 then 16 else
    if k == 4 then 9 else if k == 5 then 2 else if k == 6 then 3 else if k == 7 then 10 else
    if k == 8 then 17 else if k == 9 then 24 else if k == 10 then 32 else if k == 11 then 25 else
    if k == 12 then 18 else if k == 13 then 11 else if k == 14 then 4 else if k == 15 then 5 else
    if k == 16 then 12 else if k == 17 then 19 else if k == 18 then 26 else if k == 19 then 33 else
    if k == 20 then 40 else if k == 21 then 48 else if k == 22 then 41 else if k == 23 then 34 else
    if k == 24 then 27 else if k == 25 then 20 else if k == 26 then 13 else if k == 27 then 6 else
    if k == 28 then 7 else if k == 29 then 14 else if k == 30 then 21 else if k == 31 then 28 else
    if k == 32 then 35 else if k == 33 then 42 else if k == 34 then 49 else if k == 35 then 56 else
    if k == 36 then 57 else if k == 37 then 50 else if k == 38 then 43 else if k == 39 then 36 else
    if k == 40 then 29 else if k == 41 then 22 else if k == 42 then 15 else if k == 43 then 23 else
    if k == 44 then 30 else if k == 45 then 37 else if k == 46 then 44 else if k == 47 then 51 else
    if k == 48 then 58 else if k == 49 then 59 else if k == 50 then 52 else if k == 51 then 45 else
    if k == 52 then 38 else if k == 53 then 31 else if k == 54 then 39 else if k == 55 then 46 else
    if k == 56 then 53 else if k == 57 then 60 else if k == 58 then 61 else if k == 59 then 54 else
    if k == 60 then 47 else if k == 61 then 55 else if k == 62 then 62 else if k == 63 then 63 else
    63
  }

  // The zigzag number of a natural-order position.
  function ZigZagNumber(n: nat): Index {
    if n == 0 then 0 else if n == 1 then 1 else if n == 2 then 5 else if n == 3 then 6 else
    if n == 4 then 14 else if n == 5 then 15 else if n == 6 then 27 else if n == 7 then 28 else
    if n == 8 then 2 else if n == 9 then 4 else if n == 10 then 7 else if n == 11 then 13 else
    if n == 12 then 16 else if n == 13 then 26 else if n == 14 then 29 else if n == 15 then 42 else
    if n == 16 then 3 else if n == 17 then 8 else if n == 18 then 12 else if n == 19 then 17 else
    if n == 20 then 25 else if n == 21 then 30 else if n == 22 then 41 else if n == 23 then 43 else
    if n == 24 then 9 else if n == 25 then 11 else if n == 26 then 18 else if n == 27 then 24 else
    if n == 28 then 31 else if n == 29 then 40 else if n == 30 then 44 else if n == 31 then 53 else
    if n == 32 then 10 else if n == 33 then 19 else if n == 34 then 23 else if n == 35 then 32 else
    if n == 36 then 39 else if n == 37 then 45 else if n == 38 then 52 else if n == 39 then 54 else
    if n == 40 then 20 else if n == 41 then 22 else if n == 42 then 33 else if n == 43 then 38 else
    if n == 44 then 46 else if n == 45 then 51 else if n == 46 then 55 else if n == 47 then 60 else
    if n == 48 then 21 else if n == 49 then 34 else if n == 50 then 37 else if n == 51 then 47 else
    if n == 52 then 50 else if n == 53 then 56 else if n == 54 then 59 else if n == 55 then 61 else
    if n == 56 then 35 else if n == 57 then 36 else if n == 58 then 48 else if n == 59 then 49 else
    if n == 60 then 57 else if n == 61 then 58 else if n == 62 then 62 else if n == 63 then 63 else
    63
  }

  // The table is the inverse of the zigzag numbering; its sixteen entries past the end, which a
  // corrupt stream may reach, name the last coefficient.
  lemma OrderInverts(k: nat)
    requires k < DCTSIZE2 + 16
    ensures k < DCTSIZE2 ==> ZigZagNumber(NaturalOrder(k)) == k
    ensures k >= DCTSIZE2 ==> NaturalOrder(k) == DCTSIZE2 - 1
  {
    if k < DCTSIZE2 {
      hide NaturalOrder, ZigZagNumber;
      if k < 32 {
        FirstHalfOfOrder(k);
      } else {
        SecondHalfOfOrder(k);
      }
    }
  }

  lemma FirstHalfOfOrder(k: nat)
    requires k < 32
    ensures ZigZagNumber(NaturalOrder(k)) == k
  {}

  lemma SecondHalfOfOrder(k: nat)
    requires 32 <= k < DCTSIZE2
    ensures ZigZagNumber(NaturalOrder(k)) == k
  {}

  lemma NumberInverts(n: nat)
    requires n < DCTSIZE2
    ensures NaturalOrder(ZigZagNumber(n)) == n
  {
    hide NaturalOrder, ZigZagNumber;
    if n < 32 {
      UpperHalfInverts(n);
    } else {
      LowerHalfInverts(n);
    }
  }

  lemma UpperHalfInverts(n: nat)
    requires n < 32
    ensures NaturalOrder(ZigZagNumber(n)) == n
  {}

  lemma LowerHalfInverts(n: nat)
    requires 32 <= n < DCTSIZE2
    ensures NaturalOrder(ZigZagNumber(n)) == n
  {}

  // The zigzag sequence (Figure A.6): up to the long diagonal the numbers of a diagonal follow those of
  // the shorter ones, every other diagonal is walked upwards, and the second half mirrors the first.
  lemma ZigZagWalk(row: nat, col: nat)
    requires row < 8 && col < 8
    ensures ZigZagNumber(8 * row + col) ==
              if row + col <= 7 then (row + col) * (row + col + 1) / 2 + (if (row + col) % 2 == 0 then col else row)
              else 63 - ZigZagNumber(63 - (8 * row + col))
  {
    hide ZigZagNumber;
    if row < 2 {
      TwoRows0(row, col);
    } else if row < 4 {
      TwoRows2(row, col);
    } else if row < 6 {
      TwoRows4(row, col);
    } else {
      TwoRows6(row, col);
    }
  }

  lemma TwoRows0(row: nat, col: nat)
    requires 0 <= row < 2 && col < 8
    ensures ZigZagNumber(8 * row + col) ==
              if row + col <= 7 then (row + col) * (row + col + 1) / 2 + (if (row + col) % 2 == 0 then col else row)
              else 63 - ZigZagNumber(63 - (8 * row + col))
  {}

  lemma TwoRows2(row: nat, col: nat)
    requires 2 <= row < 4 && col < 8
    ensures ZigZagNumber(8 * row + col) ==
              if row + col <= 7 then (row + col) * (row + col + 1) / 2 + (if (row + col) % 2 == 0 then col else row)
              else 63 - ZigZagNumber(63 - (8 * row + col))
  {}

  lemma TwoRows4(row: nat, col: nat)
    requires 4 <= row < 6 && col < 8
    ensures ZigZagNumber(8 * row + col) ==
              if row + col <= 7 then (row + col) * (row + col + 1) / 2 + (if (row + col) % 2 == 0 then col else row)
              else 63 - ZigZagNumber(63 - (8 * row + col))
  {}

  lemma TwoRows6(row: nat, col: nat)
    requires 6 <= row < 8 && col < 8
    ensures ZigZagNumber(8 * row + col) ==
              if row + col <= 7 then (row + col) * (row + col + 1) / 2 + (if (row + col) % 2 == 0 then col else row)
              else 63 - ZigZagNumber(63 - (8 * row + col))
  {}

  // Figure F.12: extend the sign of an s-bit value.
  function Extend(x: nat, s: nat): int
    requires 1 <= s <= 15
  {
    if x < Pow2(s - 1) then x - Pow2(s) + 1 else x
  }

  // The number of bits of a magnitude (Tables F.1 and F.2 of ITU-T T.81).
  function Size(v: int): nat
    decreases if v < 0 then -v else v
  {
    if v == 0 then 0 else 1 + Size((if v < 0 then -v else v) / 2)
  }

  lemma {:induction false} SizeBounds(v: int)
    requires v != 0
    ensures Size(v) >= 1 && Pow2(Size(v) - 1) <= (if v < 0 then -v else v) < Pow2(Size(v))
    decreases if v < 0 then -v else v
  {
    var m := (if v < 0 then -v else v) / 2;
    if m > 0 {
      SizeBounds(m);
    }
  }

  // The bits that follow the size: the value, or what is below it if it is negative.
  function Magnitude(v: int): (m: int)
    ensures m >= 0
  {
    if v < 0 then
      SizeBounds(v);
      v + Pow2(Size(v)) - 1
    else v
  }

  // Extending the sign gives the value back.
  lemma ExtendInverts(v: int)
    requires v != 0 && Size(v) <= 15
    ensures Size(v) >= 1 && Magnitude(v) < Pow2(Size(v)) && Extend(Magnitude(v), Size(v)) == v
  {
    SizeBounds(v);
    assert Pow2(Size(v)) == 2 * Pow2(Size(v) - 1);
  }

  // Conversion to the 16-bit JCOEF.
  function ToCoef(x: int): (c: int)
    ensures -0x8000 <= x < 0x8000 ==> c == x
  {
    (x + 0x8000) % 0x1_0000 - 0x8000
  }
}
