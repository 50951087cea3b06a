/**
  The number printer and parser of the LCD demo (xitoa and xatoi of xprintf.c).

  Integers are 32 bits wide and wrap around; characters are bytes.  Text is a sequence of
  bytes, read as if a zero byte followed it.
  */
module NumberText {
  import opened Arithmetic

  type Byte = x: nat | x < 256
  type Word = x: nat | x < WORD
  type Long = x: int | -HALF <= x < HALF witness 0

  const HALF := 0x8000_0000
  const WORD := 0x1_0000_0000
  const SPACE: Byte := 32
  const MINUS: Byte := 45
  const ZERO: Byte := 48
  const NINE: Byte := 57
  const LOWER_A: Byte := 97
  const LOWER_B: Byte := 98
  const LOWER_X: Byte := 120
  const BUFFER := 20

  function ToWord(x: Long): Word {
    if x < 0 then x + WORD else x
  }

  function ToLong(x: Word): Long {
    if x < HALF then x else x - WORD
  }

  // Two's-complement negation of a word.
  function Negated(x: Word): (y: Word)
    ensures (x + y) % WORD == 0
  {
    if x == 0 then 0 else WORD - x
  }

  // The digits of a number, most significant first.
  function Digits(v: nat, r: nat): (ds: seq<nat>)
    requires r >= 2
    ensures |ds| >= 1 && forall i | 0 <= i < |ds| :: ds[i] < r
    decreases v
  {
    if v < r then [v] else
      DivMod(v, r);
      Smaller(v, r);
      Digits(v / r, r) + [v % r]
  }

  lemma Smaller(v: nat, r: nat)
    requires 2 <= r <= v
    ensures v / r < v
  {
    DivMod(v, r);
    if v / r >= v {
      ProductMonotone(r, v, v / r);
    }
  }

  // The character of a digit.
  function DigitChar(d: nat): Byte
    requires d < 36
  {
    if d >= 10 then ZERO + d + 7 else ZERO + d
  }

  function Chars(ds: seq<nat>): (cs: seq<Byte>)
    requires forall i | 0 <= i < |ds| :: ds[i] < 36
    ensures |cs| == |ds| && forall i | 0 <= i < |ds| :: cs[i] == DigitChar(ds[i])
  {
    seq(|ds|, i requires 0 <= i < |ds| => DigitChar(ds[i]))
  }

  function Repeat(c: Byte, n: int): (s: seq<Byte>)
    ensures |s| == (if n < 0 then 0 else n) && forall i | 0 <= i < |s| :: s[i] == c
  {
    if n <= 0 then [] else seq(n, _ => c)
  }

  // A radix below zero asks for a sign.
  predicate Signed(val: Long, radix: int) {
    radix < 0 && val < 0
  }

  function Magnitude(val: Long, radix: int): Word {
    if Signed(val, radix) then Negated(ToWord(val)) else ToWord(val)
  }

  predicate Radix(radix: int) {
    2 <= radix <= 36 || -36 <= radix <= -2
  }

  function Abs(x: int): nat {
    if x < 0 then -x else x
  }

  // Sign and digits of a number.
  function Body(val: Long, radix: int): (s: seq<Byte>)
    requires Radix(radix)
    ensures |s| >= 1
  {
    (if Signed(val, radix) then [MINUS] else []) + Chars(Digits(Magnitude(val, radix), Abs(radix)))
  }

  // A width below zero asks for zeros as padding; nothing wider than the buffer is printed.
  function Printed(val: Long, radix: int, len: int): seq<Byte>
    requires Radix(radix)
  {
    var body := Body(val, radix);
    if Abs(len) > BUFFER then []
    else Repeat(if len < 0 then ZERO else SPACE, Abs(len) - |body|) + body
  }

  // Printed text is as wide as asked for, or as the number needs; padding, then a minus sign for a
  // negative number if a sign is asked for, then digits.
  lemma PrintedShape(val: Long, radix: int, len: int)
    requires Radix(radix) && Abs(len) <= BUFFER
    ensures var text, sign := Printed(val, radix, len), if radix < 0 && val < 0 then 1 else 0;
            var digits := Digits(if radix < 0 && val < 0 then -(val as int) else val % WORD, Abs(radix));
            var pad := |text| - sign - |digits|;
            && |text| >= sign + |digits| && |text| >= Abs(len) && (|text| == Abs(len) || pad == 0)
            && (forall i | 0 <= i < pad :: text[i] == if len < 0 then ZERO else SPACE)
            && (sign == 1 ==> text[pad] == MINUS)
            && forall i | 0 <= i < |digits| :: text[pad + sign + i] == DigitChar(digits[i])
  {
    hide Digits, Body, Printed, Magnitude, ToWord, Negated;
    MagnitudeIs(val, radix);
    var digits := Digits(Magnitude(val, radix), Abs(radix));
    var text, body := Printed(val, radix, len), Body(val, radix);
    PaddedBody(val, radix, len);
    BodyShape(val, radix);
    var pad, sign := |text| - |body|, |body| - |digits|;
    forall i | 0 <= i < |digits| ensures text[pad + sign + i] == DigitChar(digits[i]) {
      assert text[pad + (sign + i)] == body[sign + i];
    }
    if sign == 1 {
      assert text[pad + 0] == body[0];
    }
  }

  lemma MagnitudeIs(val: Long, radix: int)
    ensures Magnitude(val, radix) == if radix < 0 && val < 0 then -(val as int) else val % WORD
  {}

  lemma PaddedBody(val: Long, radix: int, len: int)
    requires Radix(radix) && Abs(len) <= BUFFER
    ensures var text, body := Printed(val, radix, len), Body(val, radix);
            var pad := |text| - |body|;
            && pad >= 0 && |text| >= Abs(len) && (|text| == Abs(len) || pad == 0)
            && (forall i | 0 <= i < pad :: text[i] == if len < 0 then ZERO else SPACE)
            && forall i | 0 <= i < |body| :: text[pad + i] == body[i]
  {
    hide Body;
  }

  lemma BodyShape(val: Long, radix: int)
    requires Radix(radix)
    ensures var body, digits := Body(val, radix), Digits(Magnitude(val, radix), Abs(radix));
            var sign := |body| - |digits|;
            && sign == (if radix < 0 && val < 0 then 1 else 0) && (sign == 1 ==> body[0] == MINUS)
            && forall i | 0 <= i < |digits| :: body[sign + i] == DigitChar(digits[i])
  {
    hide Digits, Magnitude;
  }

  function Reversed(s: seq<Byte>): (r: seq<Byte>)
    ensures |r| == |s| && forall i | 0 <= i < |s| :: r[i] == s[|s| - 1 - i]
  {
    seq(|s|, i requires 0 <= i < |s| => s[|s| - 1 - i])
  }

  // The digit loop of xitoa: digits go into the buffer from the least significant on.
  method PutDigits(v0: Word, r: nat, s: array<Byte>) returns (i: nat)
    requires 2 <= r <= 36 && |Digits(v0, r)| <= s.Length
    modifies s
    ensures i == |Digits(v0, r)| && Reversed(s[..i]) == Chars(Digits(v0, r))
  {
    hide Digits, Chars, Reversed;
    ghost var ds := Digits(v0, r);
    var v: nat := v0;
    i := 0;
    var more := true;
    assert ds[..|ds|] == ds;
    while more
      invariant more ==> i < |ds| && ds[..|ds| - i] == Digits(v, r)
      invariant !more ==> i == |ds|
      invariant i <= |ds| <= s.Length
      invariant forall k | 0 <= k < i :: s[k] == DigitChar(ds[|ds| - 1 - k])
      decreases more, v
    {
      DigitsOn(ds, i, v, r);
      var c := v % r;
      if c >= 10 { c := c + 7; }
      c := c + ZERO;
      s[i] := c;
      i := i + 1;
      v := v / r;
      more := v != 0;
    }
    DigitsReversed(s[..i], ds);
  }

  lemma QuotientSign(v: nat, r: nat)
    requires r > 0
    ensures v / r >= 0 && 0 <= v % r < r
  {}

  // One digit further, from the least significant one on.
  lemma DigitsOn(ds: seq<nat>, i: nat, v: nat, r: nat)
    requires 2 <= r <= 36 && i < |ds| && ds[..|ds| - i] == Digits(v, r)
    ensures ds[|ds| - 1 - i] == v % r < 36 && v / r >= 0
    ensures v / r != 0 ==> i + 1 < |ds| && ds[..|ds| - (i + 1)] == Digits(v / r, r) && v / r < v
    ensures v / r == 0 ==> i + 1 == |ds|
  {
    hide Digits;
    LastDigit(v, r);
    QuotientSign(v, r);
    var front := ds[..|ds| - i];
    assert front[|front| - 1] == ds[|ds| - 1 - i];
    assert front[..|front| - 1] == ds[..|ds| - (i + 1)];
  }

  lemma DigitsReversed(s: seq<Byte>, ds: seq<nat>)
    requires |s| == |ds| && forall k | 0 <= k < |ds| :: ds[k] < 36
    requires forall k | 0 <= k < |s| :: s[k] == DigitChar(ds[|ds| - 1 - k])
    ensures Reversed(s) == Chars(ds)
  {
    forall k | 0 <= k < |s| ensures Reversed(s)[k] == Chars(ds)[k] {}
  }

  lemma LastDigit(v: nat, r: nat)
    requires r >= 2
    ensures Digits(v, r)[|Digits(v, r)| - 1] == v % r
    ensures v / r == 0 <==> |Digits(v, r)| == 1
    ensures v / r != 0 ==> Digits(v, r)[..|Digits(v, r)| - 1] == Digits(v / r, r) && v / r < v
  {
    DivMod(v, r);
    if v < r {
      QuotientIs(v, r, 0);
    } else {
      Smaller(v, r);
    }
  }

  function Power(b: nat, e: nat): nat {
    if e == 0 then 1 else b * Power(b, e - 1)
  }

  // A number has at most n digits exactly if it is less than r to the power n.
  lemma {:induction false} DigitCount(v: nat, r: nat, n: nat)
    requires r >= 2 && n >= 1
    ensures |Digits(v, r)| <= n <==> v < Power(r, n)
    decreases n
  {
    assert Power(r, 1) == r;
    PowerGrows(r, n);
    if v >= r {
      Smaller(v, r);
      if n > 1 {
        DigitCount(v / r, r, n - 1);
        QuotientBelow(v, r, Power(r, n - 1));
      }
    }
  }

  lemma {:induction false} PowerGrows(r: nat, n: nat)
    requires r >= 2 && n >= 1
    ensures Power(r, n) >= r
    decreases n
  {
    if n > 1 {
      PowerGrows(r, n - 1);
      ProductMonotone(r, 1, Power(r, n - 1));
    } else {
      assert Power(r, 1) == r * Power(r, 0);
    }
  }

  lemma QuotientBelow(v: nat, r: nat, q: nat)
    requires r > 0
    ensures v / r < q <==> v < r * q
  {
    DivMod(v, r);
    if v / r < q {
      ProductMonotone(r, v / r + 1, q);
    } else {
      ProductMonotone(r, q, v / r);
    }
  }

  lemma {:induction false} PowerMonotone(a: nat, b: nat, n: nat)
    requires a <= b
    ensures Power(a, n) <= Power(b, n)
    decreases n
  {
    if n > 0 {
      PowerMonotone(a, b, n - 1);
      ProductMonotone(a, Power(a, n - 1), Power(b, n - 1));
      ProductMonotone(Power(b, n - 1), a, b);
    }
  }

  lemma SixteenDigits(v: Word, r: nat)
    requires r >= 4
    ensures |Digits(v, r)| <= 16
  {
    assert Power(4, 4) == 256;
    assert Power(4, 8) == 0x1_0000;
    assert Power(4, 12) == 0x100_0000;
    assert Power(4, 16) == WORD;
    PowerMonotone(4, r, 16);
    DigitCount(v, r, 16);
  }

  // Digits and sign fit the buffer exactly if the magnitude is small enough, and always from
  // radix 4 on.
  lemma FitsBuffer(val: Long, radix: int)
    requires Radix(radix)
    ensures |Body(val, radix)| <= BUFFER <==>
            Magnitude(val, radix) < Power(Abs(radix), if Signed(val, radix) then BUFFER - 1 else BUFFER)
    ensures Abs(radix) >= 4 ==> |Body(val, radix)| <= BUFFER
  {
    hide Digits, Power;
    var v, r := Magnitude(val, radix), Abs(radix);
    DigitCount(v, r, if Signed(val, radix) then BUFFER - 1 else BUFFER);
    if r >= 4 {
      SixteenDigits(v, r);
    }
  }

  method Xitoa(val: Long, radix: int, len: int) returns (out: seq<Byte>)
    requires Radix(radix) && (Abs(len) <= BUFFER ==> |Body(val, radix)| <= BUFFER)
    ensures out == Printed(val, radix, len)
  {
    hide Digits, Reversed;
    var v, r, sgn, pad, width := ToWord(val), radix, false, SPACE, len;
    if radix < 0 {
      r := -radix;
      if val < 0 {
        v := Negated(ToWord(val));
        sgn := true;
      }
    }
    if len < 0 {
      width := -len;
      pad := ZERO;
    }
    if width > BUFFER {
      return [];
    }
    var s := new Byte[BUFFER];
    var i := PutBody(v, r, sgn, s);
    i := PadTo(width, pad, s, i, Body(val, radix));
    out := PutOut(s, i);
  }

  // Digits and sign, in the order in which they are found.
  method PutBody(v: Word, r: nat, sgn: bool, s: array<Byte>) returns (i: nat)
    requires 2 <= r <= 36 && |Digits(v, r)| + (if sgn then 1 else 0) <= s.Length
    modifies s
    ensures i <= s.Length
    ensures Reversed(s[..i]) == (if sgn then [MINUS] else []) + Chars(Digits(v, r))
  {
    hide Digits;
    i := PutDigits(v, r, s);
    ghost var text := Chars(Digits(v, r));
    if sgn {
      assert s[..i] == s[..i + 1][..i];
      s[i] := MINUS;
      i := i + 1;
      assert Reversed(s[..i]) == [MINUS] + text;
    }
  }

  // The output loop of xitoa.
  method PutOut(s: array<Byte>, n: nat) returns (out: seq<Byte>)
    requires 1 <= n <= s.Length
    ensures out == Reversed(s[..n])
  {
    out := [];
    var i := n;
    while i > 0
      invariant 0 <= i <= n && out == Reversed(s[..n])[..n - i]
    {
      i := i - 1;
      out := out + [s[i]];
    }
  }

  // The padding loop of xitoa.
  method PadTo(width: nat, pad: Byte, s: array<Byte>, start: nat, ghost text: seq<Byte>) returns (i: nat)
    requires width <= s.Length && start == |text| <= s.Length && Reversed(s[..start]) == text
    modifies s
    ensures i == |Repeat(pad, width - |text|) + text| <= s.Length
    ensures Reversed(s[..i]) == Repeat(pad, width - |text|) + text
  {
    i := start;
    while i < width
      invariant start <= i <= s.Length && (i > start ==> i <= width)
      invariant s[..start] == old(s[..start])
      invariant forall k | start <= k < i :: s[k] == pad
    {
      s[i] := pad;
      i := i + 1;
    }
    ghost var all := Repeat(pad, width - |text|) + text;
    forall k | 0 <= k < i
      ensures Reversed(s[..i])[k] == all[k]
    {
      if k >= i - start {
        assert text[k - (i - start)] == old(s[..start])[start - 1 - (k - (i - start))];
      }
    }
  }

  // What the parser makes of a text: a number and where it stopped, or nothing.
  datatype Parsed = Fail | Number(value: Long, end: nat)

  function At(s: seq<Byte>, pos: nat): (c: Byte)
    ensures pos >= |s| ==> c == 0
  {
    if pos < |s| then s[pos] else 0
  }

  function SkipSpaces(s: seq<Byte>, pos: nat): (p: nat)
    ensures p >= pos
    decreases |s| - pos
  {
    if At(s, pos) == SPACE then SkipSpaces(s, pos + 1) else pos
  }

  // The digit xatoi sees in a character, or the radix itself where it sees none.  Byte
  // arithmetic turns characters below '0' into large numbers.
  function DigitOf(c: Byte, radix: nat): (d: nat)
    ensures d <= radix
  {
    var upper := if c >= LOWER_A then c - 32 else c;
    var d := (upper + 256 - ZERO) % 256;
    if d >= 17 then
      (if d - 7 <= 9 || d - 7 >= radix then radix else d - 7)
    else
      (if d >= radix then radix else d)
  }

  function ParseTail(s: seq<Byte>, pos: nat, radix: nat, neg: bool, val: Word): Parsed
    decreases |s| - pos
  {
    var c := At(s, pos);
    if c <= SPACE then Number(ToLong(if neg then Negated(val) else val), pos)
    else
      var d := DigitOf(c, radix);
      if d == radix then Fail else ParseTail(s, pos + 1, radix, neg, (val * radix + d) % WORD)
  }

  function ParseUnsigned(s: seq<Byte>, pos: nat, neg: bool): Parsed {
    var c := At(s, pos);
    if c == ZERO then
      var c' := At(s, pos + 1);
      if c' <= SPACE then Number(0, pos + 1)
      else if c' == LOWER_X then ParseTail(s, pos + 2, 16, neg, 0)
      else if c' == LOWER_B then ParseTail(s, pos + 2, 2, neg, 0)
      else if ZERO <= c' <= NINE then ParseTail(s, pos + 1, 8, neg, 0)
      else Fail
    else if c < ZERO + 1 || c > NINE then Fail
    else ParseTail(s, pos, 10, neg, 0)
  }

  function Parse(s: seq<Byte>): Parsed {
    var pos := SkipSpaces(s, 0);
    if At(s, pos) == MINUS then ParseUnsigned(s, pos + 1, true) else ParseUnsigned(s, pos, false)
  }

  // The digit loop of xatoi.
  method ReadTail(str: seq<Byte>, start: nat, radix: nat, neg: bool) returns (r: Parsed)
    requires radix <= 16
    ensures r == ParseTail(str, start, radix, neg, 0)
  {
    var val: Word := 0;
    var pos := start;
    var c := At(str, pos);
    while c > SPACE
      invariant pos >= start && c == At(str, pos)
      invariant ParseTail(str, start, radix, neg, 0) == ParseTail(str, pos, radix, neg, val)
      decreases |str| - pos
    {
      if c >= LOWER_A { c := c - 0x20; }
      c := (c + 256 - ZERO) % 256;
      if c >= 17 {
        c := c - 7;
        if c <= 9 {
          return Fail;
        }
      }
      if c >= radix {
        return Fail;
      }
      val := (val * radix + c) % WORD;
      pos := pos + 1;
      c := At(str, pos);
    }
    if neg { val := Negated(val); }
    return Number(ToLong(val), pos);
  }

  method Xatoi(str: seq<Byte>) returns (r: Parsed)
    ensures r == Parse(str)
  {
    var pos := 0;
    while At(str, pos) == SPACE
      invariant SkipSpaces(str, 0) == SkipSpaces(str, pos)
      decreases |str| - pos
    {
      pos := pos + 1;
    }
    var neg := false;
    var c := At(str, pos);
    if c == MINUS {
      neg := true;
      pos := pos + 1;
      c := At(str, pos);
    }
    var radix;
    if c == ZERO {
      pos := pos + 1;
      c := At(str, pos);
      if c <= SPACE {
        return Number(0, pos);
      }
      if c == LOWER_X {
        radix := 16;
        pos := pos + 1;
      } else if c == LOWER_B {
        radix := 2;
        pos := pos + 1;
      } else if ZERO <= c <= NINE {
        radix := 8;
      } else {
        return Fail;
      }
    } else {
      if c < ZERO + 1 || c > NINE {
        return Fail;
      }
      radix := 10;
    }
    r := ReadTail(str, pos, radix, neg);
  }

  // Reading digits one by one.
  function Accumulated(ds: seq<nat>, r: nat): Word {
    if |ds| == 0 then 0 else (Accumulated(ds[..|ds| - 1], r) * r + ds[|ds| - 1]) % WORD
  }

  // Text in which digits ds stand at pos.
  ghost predicate DigitsAt(s: seq<Byte>, pos: nat, ds: seq<nat>, r: nat) {
    && r <= 36 && pos + |ds| <= |s|
    && forall i | 0 <= i < |ds| :: ds[i] < r && s[pos + i] == DigitChar(ds[i])
  }

  // The parser reads the printer's digits.
  lemma DigitReadsBack(d: nat, radix: nat)
    requires d < 36
    ensures DigitChar(d) > SPACE
    ensures DigitOf(DigitChar(d), radix) == if d < radix then d else radix
  {}

  lemma {:induction false} TailReads(s: seq<Byte>, pos: nat, ds: seq<nat>, r: nat, neg: bool, k: nat)
    requires DigitsAt(s, pos, ds, r) && k <= |ds| && 1 <= r
    ensures ParseTail(s, pos, r, neg, 0) == ParseTail(s, pos + k, r, neg, Accumulated(ds[..k], r))
  {
    if k > 0 {
      TailReads(s, pos, ds, r, neg, k - 1);
      assert ds[..k][..k - 1] == ds[..k - 1];
      assert s[pos + (k - 1)] == DigitChar(ds[k - 1]);
      DigitReadsBack(ds[k - 1], r);
    }
  }

  predicate EndsNumber(s: seq<Byte>, pos: nat) {
    At(s, pos) <= SPACE
  }

  // The characters taken for hexadecimal digits: besides the digits and the letters in either case,
  // the six characters behind '9' in ASCII, for 10 to 15.
  lemma HexCharacters(c: Byte)
    ensures DigitOf(c, 16) == if 48 <= c < 64 then c - 48
                              else if 65 <= c <= 70 then c - 55
                              else if 97 <= c <= 102 then c - 87
                              else 16
  {}

  // With a smaller radix only decimal digits below it are taken.
  lemma DecimalCharacters(c: Byte, r: nat)
    requires 2 <= r <= 10
    ensures DigitOf(c, r) == if 48 <= c < 48 + r then c - 48 else r
  {}

  // Numbers as they may be written: 0x, 0b or 0 and digits, or decimal digits that begin with no zero.
  function Prefix(r: nat): seq<Byte> {
    if r == 16 then [48, 120] else if r == 2 then [48, 98] else if r == 8 then [48] else []
  }

  // Whatever is written like this in radix 2, 8, 10 or 16, with or without a sign and with spaces
  // before it, is read as its digits say, modulo 2^32.
  lemma LiteralReads(spaces: nat, neg: bool, r: nat, ds: seq<nat>, rest: seq<Byte>)
    requires r in {2, 8, 10, 16} && |ds| > 0 && (r == 10 ==> ds[0] != 0) && EndsNumber(rest, 0)
    requires forall i | 0 <= i < |ds| :: ds[i] < r
    ensures var sign := if neg then [MINUS] else [];
            var s := (Repeat(SPACE, spaces) + sign) + (Prefix(r) + (Chars(ds) + rest));
            Parse(s) == Number(ToLong(if neg then Negated(Accumulated(ds, r)) else Accumulated(ds, r)), |s| - |rest|)
  {
    hide Accumulated, Digits, ParseUnsigned, Chars, Prefix, SkipSpaces, DigitsAt, Repeat;
    var before := Repeat(SPACE, spaces) + if neg then [MINUS] else [];
    var s := before + (Prefix(r) + (Chars(ds) + rest));
    LiteralPlaced(before, r, ds, rest);
    UnsignedReads(s, |before|, neg, r, ds);
    SignedAfter(s, spaces, neg);
  }

  lemma SignedAfter(s: seq<Byte>, spaces: nat, neg: bool)
    requires spaces + (if neg then 1 else 0) <= |s| && forall i | 0 <= i < spaces :: s[i] == SPACE
    requires if neg then s[spaces] == MINUS else At(s, spaces) > MINUS
    ensures Parse(s) == ParseUnsigned(s, spaces + if neg then 1 else 0, neg)
  {
    hide ParseUnsigned;
    SpacesSkipped(s, 0, spaces);
  }

  lemma LiteralPlaced(before: seq<Byte>, r: nat, ds: seq<nat>, rest: seq<Byte>)
    requires r in {2, 8, 10, 16} && |ds| > 0 && (r == 10 ==> ds[0] != 0) && EndsNumber(rest, 0)
    requires forall i | 0 <= i < |ds| :: ds[i] < r
    ensures var s := before + (Prefix(r) + (Chars(ds) + rest));
            var start := |before| + |Prefix(r)|;
            && DigitsAt(s, start, ds, r) && EndsNumber(s, start + |ds|) && |s| == start + |ds| + |rest|
            && At(s, |before|) > MINUS && forall i | 0 <= i < |Prefix(r)| :: s[|before| + i] == Prefix(r)[i]
  {
    var s := before + (Prefix(r) + (Chars(ds) + rest));
    var start := |before| + |Prefix(r)|;
    hide Digits, Prefix;
    forall i | 0 <= i < |ds| ensures s[start + i] == DigitChar(ds[i]) {
      assert s[start + i] == Chars(ds)[i];
    }
    assert At(s, |before|) == if |Prefix(r)| > 0 then Prefix(r)[0] else DigitChar(ds[0]);
    PrefixBegins(r);
  }

  lemma PrefixBegins(r: nat)
    ensures |Prefix(r)| > 0 ==> Prefix(r)[0] == ZERO
  {}

  lemma UnsignedReads(s: seq<Byte>, pos: nat, neg: bool, r: nat, ds: seq<nat>)
    requires r in {2, 8, 10, 16} && |ds| > 0 && (r == 10 ==> ds[0] != 0)
    requires var start := pos + |Prefix(r)|;
             && DigitsAt(s, start, ds, r) && EndsNumber(s, start + |ds|)
             && forall i | 0 <= i < |Prefix(r)| :: s[pos + i] == Prefix(r)[i]
    ensures var v := Accumulated(ds, r);
            ParseUnsigned(s, pos, neg)
            == Number(ToLong(if neg then Negated(v) else v), pos + |Prefix(r)| + |ds|)
  {
    hide Accumulated, DigitOf;
    var start, v := pos + |Prefix(r)|, Accumulated(ds, r);
    assert s[start + 0] == DigitChar(ds[0]);
    DigitsRead(s, start, ds, r, neg);
    if r == 16 || r == 2 {
      assert s[pos + 0] == Prefix(r)[0] && s[pos + 1] == Prefix(r)[1];
    } else if r == 8 {
      assert s[pos + 0] == Prefix(r)[0];
    }
  }

  lemma DigitsRead(s: seq<Byte>, pos: nat, ds: seq<nat>, r: nat, neg: bool)
    requires DigitsAt(s, pos, ds, r) && 1 <= r && EndsNumber(s, pos + |ds|)
    ensures ParseTail(s, pos, r, neg, 0)
         == Number(ToLong(if neg then Negated(Accumulated(ds, r)) else Accumulated(ds, r)), pos + |ds|)
  {
    hide Accumulated, DigitOf;
    TailReads(s, pos, ds, r, neg, |ds|);
    assert ds[..|ds|] == ds;
  }

  // Digits of a number between pos and a terminator are read as that number.
  lemma NumberReads(s: seq<Byte>, pos: nat, v: Word, r: nat, neg: bool)
    requires 2 <= r <= 16 && DigitsAt(s, pos, Digits(v, r), r) && EndsNumber(s, pos + |Digits(v, r)|)
    ensures ParseTail(s, pos, r, neg, 0) == Number(ToLong(if neg then Negated(v) else v), pos + |Digits(v, r)|)
  {
    var ds := Digits(v, r);
    TailReads(s, pos, ds, r, neg, |ds|);
    assert ds[..|ds|] == ds;
    DigitsAccumulate(v, r);
  }

  lemma {:induction false} DigitsAccumulate(v: Word, r: nat)
    requires r >= 2
    ensures Accumulated(Digits(v, r), r) == v
    decreases v
  {
    LastDigit(v, r);
    DivMod(v, r);
    if v / r == 0 {
      assert Digits(v, r) == [v];
    } else {
      DigitsAccumulate(v / r, r);
      var q, d := v / r, v % r;
      assert q * r + d == v;
    }
  }

  lemma {:induction false} FirstDigit(v: nat, r: nat)
    requires r >= 2
    ensures v > 0 ==> Digits(v, r)[0] > 0
    ensures v == 0 ==> Digits(v, r) == [0]
    decreases v
  {
    if v >= r {
      DivMod(v, r);
      Smaller(v, r);
      if v / r == 0 {
        QuotientIs(v, r, 1);
      }
      FirstDigit(v / r, r);
    }
  }

  lemma {:induction false} SpacesSkipped(s: seq<Byte>, pos: nat, n: nat)
    requires pos + n <= |s| && At(s, pos + n) != SPACE && forall i | pos <= i < pos + n :: s[i] == SPACE
    ensures SkipSpaces(s, pos) == pos + n
    decreases n
  {
    if n > 0 {
      SpacesSkipped(s, pos + 1, n - 1);
    }
  }

  // Decimal digits without padding before them.
  lemma DecimalReads(s: seq<Byte>, pos: nat, v: Word, neg: bool)
    requires DigitsAt(s, pos, Digits(v, 10), 10) && EndsNumber(s, pos + |Digits(v, 10)|) && (neg ==> v > 0)
    ensures ParseUnsigned(s, pos, neg) == Number(ToLong(if neg then Negated(v) else v), pos + |Digits(v, 10)|)
  {
    FirstDigit(v, 10);
    assert s[pos + 0] == DigitChar(Digits(v, 10)[0]);
    if v > 0 {
      NumberReads(s, pos, v, 10, neg);
    }
  }

  // The digits of a printed number stand where its padding and its sign end.
  lemma DigitsPlaced(before: seq<Byte>, v: Word, r: nat, rest: seq<Byte>)
    requires 2 <= r <= 36 && EndsNumber(rest, 0)
    ensures var s := before + Chars(Digits(v, r)) + rest;
      DigitsAt(s, |before|, Digits(v, r), r) && EndsNumber(s, |before| + |Digits(v, r)|)
  {
    var s := before + Chars(Digits(v, r)) + rest;
    forall i | 0 <= i < |Digits(v, r)|
      ensures s[|before| + i] == DigitChar(Digits(v, r)[i])
    {
      assert s[|before| + i] == Chars(Digits(v, r))[i];
    }
  }

  // Text in which n spaces, a sign or none, and the digits of v stand before a terminator.
  ghost predicate SignedAt(s: seq<Byte>, n: nat, v: Word, neg: bool) {
    var pos := n + if neg then 1 else 0;
    && pos < |s|
    && (forall i | 0 <= i < n :: s[i] == SPACE) && (neg ==> s[n] == MINUS && v > 0)
    && DigitsAt(s, pos, Digits(v, 10), 10) && EndsNumber(s, pos + |Digits(v, 10)|)
  }

  lemma SignedReads(s: seq<Byte>, n: nat, v: Word, neg: bool)
    requires SignedAt(s, n, v, neg)
    ensures Parse(s) ==
              Number(ToLong(if neg then Negated(v) else v), n + (if neg then 1 else 0) + |Digits(v, 10)|)
  {
    hide ParseUnsigned, Digits;
    var pos := n + if neg then 1 else 0;
    assert s[pos + 0] == DigitChar(Digits(v, 10)[0]);
    SpacesSkipped(s, 0, n);
    DecimalReads(s, pos, v, neg);
  }

  lemma SignedPlaced(n: nat, v: Word, neg: bool, rest: seq<Byte>)
    requires EndsNumber(rest, 0) && (neg ==> v > 0)
    ensures var sign: seq<Byte> := if neg then [MINUS] else [];
            SignedAt(Repeat(SPACE, n) + (sign + Chars(Digits(v, 10))) + rest, n, v, neg)
  {
    hide Digits, Chars, DigitsAt, EndsNumber;
    var sign: seq<Byte> := if neg then [MINUS] else [];
    var before := Repeat(SPACE, n) + sign;
    Regroup(Repeat(SPACE, n), sign, Chars(Digits(v, 10)), rest);
    DigitsPlaced(before, v, 10, rest);
  }

  // Spaces, sign and digits are read back, and reading stops where they end.
  lemma BodyReads(val: Long, n: nat, rest: seq<Byte>)
    requires EndsNumber(rest, 0)
    ensures Parse(Repeat(SPACE, n) + Body(val, -10) + rest) == Number(val, n + |Body(val, -10)|)
  {
    hide Parse, SignedAt, Digits, EndsNumber, Repeat;
    var v := Magnitude(val, -10);
    SignedPlaced(n, v, val < 0, rest);
    SignedReads(Repeat(SPACE, n) + Body(val, -10) + rest, n, v, val < 0);
  }

  lemma Regroup(a: seq<Byte>, b: seq<Byte>, c: seq<Byte>, d: seq<Byte>)
    ensures a + (b + c) + d == (a + b) + c + d
  {}

  predicate ReadsBack(s: seq<Byte>, val: Long) {
    Parse(s).Number? && Parse(s).value == val
  }

  // The printer's decimal output, padded with spaces to any width the buffer allows, is read back
  // as the number printed, whatever follows it.
  lemma DecimalRoundTrip(val: Long, len: nat, rest: seq<Byte>)
    requires len <= BUFFER && EndsNumber(rest, 0)
    ensures Parse(Printed(val, -10, len) + rest) == Number(val, |Printed(val, -10, len)|)
  {
    hide Parse, Body;
    var n := if len > |Body(val, -10)| then len - |Body(val, -10)| else 0;
    assert Repeat(SPACE, len - |Body(val, -10)|) == Repeat(SPACE, n);
    BodyReads(val, n, rest);
  }

  // Zero digits before a number do not change what is read.
  lemma {:induction false} ZerosAccumulate(n: nat, ds: seq<nat>, r: nat)
    ensures Accumulated(Zeros(n) + ds, r) == Accumulated(ds, r)
    decreases n, |ds|
  {
    var all := Zeros(n) + ds;
    if |ds| > 0 {
      ZerosAccumulate(n, ds[..|ds| - 1], r);
      assert all[..|all| - 1] == Zeros(n) + ds[..|ds| - 1];
    } else if n > 0 {
      ZerosAccumulate(n - 1, ds, r);
      assert all[..|all| - 1] == Zeros(n - 1) + ds;
    } else {
      assert all == ds;
    }
  }

  function Zeros(n: nat): (z: seq<nat>)
    ensures |z| == n && forall i | 0 <= i < n :: z[i] == 0
  {
    seq(n, _ => 0)
  }

  // Text of n zero characters and the digits of v, up to a terminator.
  ghost predicate PaddedAt(s: seq<Byte>, pos: nat, n: nat, v: Word, r: nat) {
    && 2 <= r <= 36 && DigitsAt(s, pos, Zeros(n) + Digits(v, r), r)
    && EndsNumber(s, pos + n + |Digits(v, r)|)
  }

  lemma PaddedReads(s: seq<Byte>, pos: nat, n: nat, v: Word, r: nat, neg: bool)
    requires PaddedAt(s, pos, n, v, r) && r <= 16
    ensures ParseTail(s, pos, r, neg, 0) == Number(ToLong(if neg then Negated(v) else v), pos + n + |Digits(v, r)|)
  {
    var ds := Zeros(n) + Digits(v, r);
    TailReads(s, pos, ds, r, neg, |ds|);
    assert ds[..|ds|] == ds;
    ZerosAccumulate(n, Digits(v, r), r);
    DigitsAccumulate(v, r);
  }

  // Where zero padding and digits stand in a text.
  lemma PaddedPlaced(before: seq<Byte>, n: nat, v: Word, r: nat, rest: seq<Byte>)
    requires 2 <= r <= 36 && EndsNumber(rest, 0)
    ensures PaddedAt(before + Repeat(ZERO, n) + Chars(Digits(v, r)) + rest, |before|, n, v, r)
  {
    var s := before + Repeat(ZERO, n) + Chars(Digits(v, r)) + rest;
    var ds := Zeros(n) + Digits(v, r);
    forall i | 0 <= i < |ds|
      ensures s[|before| + i] == DigitChar(ds[i])
    {
      if i < n {
        assert s[|before| + i] == Repeat(ZERO, n)[i];
      } else {
        assert s[|before| + i] == Chars(Digits(v, r))[i - n];
      }
    }
    DigitsPlaced(before + Repeat(ZERO, n), v, r, rest);
  }

  const HEX_PREFIX: seq<Byte> := [ZERO, LOWER_X]

  // Unsigned hexadecimal output after 0x, with zeros for padding or none, is read back.
  lemma HexRoundTrip(val: Long, len: int, rest: seq<Byte>)
    requires -BUFFER <= len <= |Body(val, 16)| && EndsNumber(rest, 0)
    ensures Parse(HEX_PREFIX + Printed(val, 16, len) + rest) == Number(val, 2 + |Printed(val, 16, len)|)
  {
    hide Digits, Chars;
    var v := ToWord(val);
    SixteenDigits(v, 16);
    var n := if -len > |Body(val, 16)| then -len - |Body(val, 16)| else 0;
    var s := HEX_PREFIX + Printed(val, 16, len) + rest;
    assert s == HEX_PREFIX + Repeat(ZERO, n) + Chars(Digits(v, 16)) + rest;
    PaddedPlaced(HEX_PREFIX, n, v, 16, rest);
    PaddedReads(s, 2, n, v, 16, false);
    assert SkipSpaces(s, 0) == 0;
  }

  // With spaces for padding the parser stops right after 0x and reads zero.
  lemma HexWithSpaces(val: Long, len: nat, rest: seq<Byte>)
    requires len <= BUFFER && EndsNumber(rest, 0)
    ensures ReadsBack(HEX_PREFIX + Printed(val, 16, len) + rest, val) <==> len <= |Body(val, 16)| || val == 0
  {
    hide Digits, Chars;
    if len <= |Body(val, 16)| {
      HexRoundTrip(val, len, rest);
    } else {
      var s := HEX_PREFIX + Printed(val, 16, len) + rest;
      assert s[0] == ZERO && s[1] == LOWER_X && s[2] == SPACE;
      assert SkipSpaces(s, 0) == 0;
      assert Parse(s) == ParseTail(s, 2, 16, false, 0) == Number(0, 2);
    }
  }

  // Decimal digits read in radix 8: refused when one of them is 8 or 9, too small otherwise.
  lemma {:induction false} OctalSmaller(v: Word)
    requires forall i | 0 <= i < |Digits(v, 10)| :: Digits(v, 10)[i] < 8
    ensures Accumulated(Digits(v, 10), 8) <= v
    ensures v >= 8 ==> Accumulated(Digits(v, 10), 8) < v
    decreases v
  {
    hide Digits, Accumulated;
    LastDigit(v, 10);
    var ds, q := Digits(v, 10), v / 10;
    var front := ds[..|ds| - 1];
    if q > 0 {
      assert front == Digits(q, 10);
      forall i | 0 <= i < |front| ensures front[i] < 8 {
        assert front[i] == ds[i];
      }
      OctalSmaller(q);
    } else {
      assert front == [];
      NothingAccumulated(8);
    }
    LastAccumulated(ds, 8);
    OctalStep(Accumulated(front, 8), q, ds[|ds| - 1], v);
  }

  lemma NothingAccumulated(r: nat)
    ensures Accumulated([], r) == 0
  {}

  lemma LastAccumulated(ds: seq<nat>, r: nat)
    requires |ds| > 0
    ensures Accumulated(ds, r) == (Accumulated(ds[..|ds| - 1], r) * r + ds[|ds| - 1]) % WORD
  {}

  lemma OctalStep(a: nat, q: nat, d: nat, v: Word)
    requires v == 10 * q + d && d < 8 && a <= q && (q >= 8 ==> a < q)
    ensures (a * 8 + d) % WORD <= v && (v >= 8 ==> (a * 8 + d) % WORD < v)
  {
    assert a * 8 + d < WORD;
  }

  lemma {:induction false} TailRefuses(s: seq<Byte>, pos: nat, r: nat, neg: bool, val: Word, bad: nat)
    requires pos <= bad < |s|
    requires forall i | pos <= i <= bad :: s[i] > SPACE
    requires DigitOf(s[bad], r) == r
    ensures ParseTail(s, pos, r, neg, val) == Fail
    decreases bad - pos
  {
    hide DigitOf;
    if pos < bad && DigitOf(s[pos], r) != r {
      TailRefuses(s, pos + 1, r, neg, (val * r + DigitOf(s[pos], r)) % WORD, bad);
    }
  }

  // Printed with at least one zero of padding: the parser takes the text for octal.
  lemma PaddedIsOctal(val: Long, n: nat, rest: seq<Byte>)
    requires n >= 1 && EndsNumber(rest, 0)
    ensures var s := Repeat(ZERO, n) + Body(val, -10) + rest;
      if val < 0 then Parse(s) == Fail else Parse(s) == ParseTail(s, 1, 8, false, 0)
  {
    hide Digits, Chars;
    var s := Repeat(ZERO, n) + Body(val, -10) + rest;
    assert s[0] == ZERO && SkipSpaces(s, 0) == 0;
    if val < 0 {
      assert s[n] == MINUS;
      if n > 1 {
        assert s[1] == ZERO;
        TailRefuses(s, 1, 8, false, 0, n);
      }
    } else {
      var first := Chars(Digits(ToWord(val), 10))[0];
      assert s[n] == first == DigitChar(Digits(ToWord(val), 10)[0]);
      if n > 1 {
        assert s[1] == ZERO;
      }
    }
  }

  // Decimal output with zeros for padding is read back exactly when there is no padding or the
  // number is a single octal digit.
  lemma DecimalWithZeros(val: Long, len: int, rest: seq<Byte>)
    requires -BUFFER <= len < 0 && EndsNumber(rest, 0)
    ensures ReadsBack(Printed(val, -10, len) + rest, val) <==> -len <= |Body(val, -10)| || 0 <= val < 8
  {
    hide Parse, Digits, Chars;
    if -len <= |Body(val, -10)| {
      assert Printed(val, -10, len) + rest == Repeat(SPACE, 0) + Body(val, -10) + rest;
      BodyReads(val, 0, rest);
    } else {
      var n := -len - |Body(val, -10)|;
      PaddedIsOctal(val, n, rest);
      if val >= 0 {
        OctalReads(val, n, rest);
      }
    }
  }

  lemma OctalReads(val: Long, n: nat, rest: seq<Byte>)
    requires n >= 1 && EndsNumber(rest, 0) && val >= 0
    ensures var s := Repeat(ZERO, n) + Body(val, -10) + rest;
      (ParseTail(s, 1, 8, false, 0).Number? && ParseTail(s, 1, 8, false, 0).value == val) <==> val < 8
  {
    hide ParseTail, DigitOf, Chars;
    var ds := Digits(val, 10);
    var s := Repeat(ZERO, n) + Body(val, -10) + rest;
    PaddedPlaced([], n, val, 10, rest);
    assert s == [] + Repeat(ZERO, n) + Chars(ds) + rest;
    var all := Zeros(n) + ds;
    forall i | 0 <= i < |all|
      ensures s[i] == DigitChar(all[i])
    {
      assert s[0 + i] == DigitChar(all[i]);
    }
    if bad: nat :| bad < |ds| && ds[bad] >= 8 {
      Refused(s, all, n + bad);
      assert all[n + bad] == ds[bad];
      BigDigit(val, bad);
    } else {
      OneZeroLess(s, n, ds);
      OctalValue(s, n - 1, val);
    }
  }

  lemma BigDigit(v: nat, i: nat)
    requires i < |Digits(v, 10)| && Digits(v, 10)[i] >= 8
    ensures v >= 8
  {}

  lemma OneZeroLess(s: seq<Byte>, n: nat, ds: seq<nat>)
    requires n >= 1 && n + |ds| <= |s| && forall i | 0 <= i < |ds| :: ds[i] < 8
    requires forall i | 0 <= i < n + |ds| :: s[i] == DigitChar((Zeros(n) + ds)[i])
    ensures DigitsAt(s, 1, Zeros(n - 1) + ds, 8)
  {
    var less := Zeros(n - 1) + ds;
    forall i | 0 <= i < |less|
      ensures less[i] < 8 && s[1 + i] == DigitChar(less[i])
    {
      assert less[i] == (Zeros(n) + ds)[1 + i];
    }
  }

  lemma Refused(s: seq<Byte>, all: seq<nat>, bad: nat)
    requires 1 <= bad < |all| <= |s| && forall i | 0 <= i < |all| :: all[i] < 36 && s[i] == DigitChar(all[i])
    requires all[bad] >= 8
    ensures ParseTail(s, 1, 8, false, 0) == Fail
  {
    forall i | 1 <= i <= bad
      ensures s[i] > SPACE
    {
      DigitReadsBack(all[i], 8);
    }
    DigitReadsBack(all[bad], 8);
    TailRefuses(s, 1, 8, false, 0, bad);
  }

  lemma OctalValue(s: seq<Byte>, n: nat, v: Word)
    requires DigitsAt(s, 1, Zeros(n) + Digits(v, 10), 8) && EndsNumber(s, 1 + n + |Digits(v, 10)|) && v < HALF
    ensures ParseTail(s, 1, 8, false, 0).Number? && (ParseTail(s, 1, 8, false, 0).value == v <==> v < 8)
  {
    var ds := Zeros(n) + Digits(v, 10);
    forall i | 0 <= i < |Digits(v, 10)|
      ensures Digits(v, 10)[i] < 8
    {
      assert ds[n + i] < 8;
    }
    TailReads(s, 1, ds, 8, false, |ds|);
    assert ds[..|ds|] == ds;
    ZerosAccumulate(n, Digits(v, 10), 8);
    OctalSmaller(v);
    if v < 8 {
      assert Digits(v, 10) == [v];
      assert [v][..0] == [];
    }
  }
}
