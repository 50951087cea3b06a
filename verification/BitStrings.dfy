// Bit strings, the numbers they spell, and powers of two.
module BitStrings {
  import opened Arithmetic

  type Bit = b: int | 0 <= b < 2

  function Pow2(n: nat): (r: nat)
    ensures r >= 1
  {
    if n == 0 then 1 else 2 * Pow2(n - 1)
  }

  lemma {:induction false} Pow2Adds(m: nat, n: nat)
    ensures Pow2(m + n) == Pow2(m) * Pow2(n)
    decreases n
  {
    if n > 0 {
      Pow2Adds(m, n - 1);
      assert Pow2(m) * Pow2(n) == 2 * (Pow2(m) * Pow2(n - 1));
    }
  }

  // A finite bit string is read as if zeros followed it for ever.
  function BitAt(s: seq<Bit>, i: nat): Bit {
    if i < |s| then s[i] else 0
  }

  // The number spelled by n bits from position pos, first bit most significant.
  function Value(s: seq<Bit>, pos: nat, n: nat): (v: nat)
    ensures v < Pow2(n)
    decreases n
  {
    if n == 0 then 0 else 2 * Value(s, pos, n - 1) + BitAt(s, pos + n - 1)
  }

  // Drop the k lowest bits of a number.
  function Shr(v: nat, k: nat): nat {
    if k == 0 then v else Shr(v / 2, k - 1)
  }

  lemma {:induction false} ShrOfValue(s: seq<Bit>, pos: nat, n: nat, k: nat)
    requires k <= n
    ensures Shr(Value(s, pos, n), k) == Value(s, pos, n - k)
    decreases k
  {
    if k > 0 {
      assert Value(s, pos, n) / 2 == Value(s, pos, n - 1);
      ShrOfValue(s, pos, n - 1, k - 1);
    }
  }

  // Shift k zeros in from the right.
  function Shl(c: nat, k: nat): nat {
    c * Pow2(k)
  }

  lemma ShlFacts(c: nat, k: nat)
    ensures Shl(c, 0) == c && Shl(0, k) == 0
    ensures Shl(c + 1, k) == Shl(c, k) + Pow2(k)
    ensures Shl(c, k + 1) == Shl(2 * c, k) == 2 * Shl(c, k)
  {}

  lemma ShlMonotone(c: nat, d: nat, k: nat)
    requires c <= d
    ensures Shl(c, k) <= Shl(d, k)
  {
    assert (d - c) * Pow2(k) >= 0;
  }

  // Exactly the numbers of one dyadic interval shift down to c.
  lemma {:induction false} ShrInterval(v: nat, k: nat, c: nat)
    ensures Shr(v, k) == c <==> Shl(c, k) <= v < Shl(c + 1, k)
    decreases k
  {
    ShlFacts(c, k);
    ShlFacts(c + 1, k);
    if k > 0 {
      ShlFacts(c, k - 1);
      ShlFacts(c + 1, k - 1);
      ShrInterval(v / 2, k - 1, c);
    }
  }

  // Shifting down one place more halves.
  lemma {:induction false} ShrHalves(v: nat, k: nat)
    ensures Shr(v, k + 1) == Shr(v, k) / 2
    decreases k
  {
    if k > 0 {
      ShrHalves(v / 2, k - 1);
    }
  }

  // The n-bit spelling of a number.
  function Spell(v: nat, n: nat): (s: seq<Bit>)
    ensures |s| == n
    decreases n
  {
    if n == 0 then [] else Spell(v / 2, n - 1) + [v % 2]
  }

  lemma {:induction false} ValueOfSpelling(s: seq<Bit>, pos: nat, v: nat, n: nat)
    requires v < Pow2(n) && pos + n <= |s| && s[pos..pos + n] == Spell(v, n)
    ensures Value(s, pos, n) == v
    decreases n
  {
    if n > 0 {
      assert s[pos..pos + n][..n - 1] == s[pos..pos + n - 1];
      assert Spell(v, n)[..n - 1] == Spell(v / 2, n - 1);
      ValueOfSpelling(s, pos, v / 2, n - 1);
      assert s[pos + n - 1] == s[pos..pos + n][n - 1] == v % 2;
    }
  }

  // Conversely a spelling of the number spelled there shows the bits themselves.
  lemma {:induction false} SpellingOfValue(s: seq<Bit>, pos: nat, n: nat)
    requires pos + n <= |s|
    ensures Spell(Value(s, pos, n), n) == s[pos..pos + n]
    decreases n
  {
    if n > 0 {
      SpellingOfValue(s, pos, n - 1);
      assert s[pos..pos + n] == s[pos..pos + n - 1] + [s[pos + n - 1]];
    }
  }

  // The first bit weighs most.
  lemma {:induction false} LeadingBitWeighs(s: seq<Bit>, pos: nat, n: nat)
    ensures Value(s, pos, n + 1) == (if BitAt(s, pos) == 1 then Pow2(n) else 0) + Value(s, pos + 1, n)
    decreases n
  {
    if n == 0 {
      assert Value(s, pos, 1) == 2 * Value(s, pos, 0) + BitAt(s, pos);
    } else {
      LeadingBitWeighs(s, pos, n - 1);
      assert Value(s, pos, n + 1) == 2 * Value(s, pos, n) + BitAt(s, pos + n);
      assert Value(s, pos + 1, n) == 2 * Value(s, pos + 1, n - 1) + BitAt(s, pos + n);
    }
  }

  // The bits stand in s from position pos on.
  predicate BitsAt(s: seq<Bit>, pos: nat, bits: seq<Bit>) {
    pos + |bits| <= |s| && s[pos..pos + |bits|] == bits
  }

  lemma BitsBoth(s: seq<Bit>, pos: nat, a: seq<Bit>, b: seq<Bit>)
    requires BitsAt(s, pos, a + b)
    ensures BitsAt(s, pos, a) && BitsAt(s, pos + |a|, b)
  {
    var window := s[pos..pos + |a + b|];
    assert window[..|a|] == a && window[|a|..] == b;
    assert s[pos..pos + |a|] == window[..|a|];
    assert s[pos + |a|..pos + |a| + |b|] == window[|a|..];
  }

  // ---- spelling ----

  function Zeros(n: nat): (s: seq<Bit>)
    ensures |s| == n
    ensures forall i | 0 <= i < n :: s[i] == 0
  {
    seq(n, i => 0)
  }

  // A spelling shows only the low bits.
  lemma {:induction false} SpellMod(v: nat, m: nat, n: nat)
    requires n <= m
    ensures Spell(v % Pow2(m), n) == Spell(v, n)
    decreases n
  {
    if n > 0 {
      ModHalves(v, Pow2(m - 1));
      SpellMod(v / 2, m - 1, n - 1);
    }
  }

  lemma ModHalves(v: nat, p: nat)
    requires p > 0
    ensures (v % (2 * p)) / 2 == (v / 2) % p
    ensures (v % (2 * p)) % 2 == v % 2
  {
    var q, r := v / (2 * p), v % (2 * p);
    var pq := p * q;
    assert v == 2 * pq + r;
    DivMod(v / 2, p);
    QuotientUnique(p, v / 2 / p, v / 2 % p, q, r / 2);
  }

  // Appending m low bits to a number appends their spelling.
  lemma {:induction false} SpellAppends(v: nat, n: nat, c: nat, m: nat)
    requires c < Pow2(m)
    ensures Spell(Shl(v, m) + c, n + m) == Spell(v, n) + Spell(c, m)
    decreases m
  {
    if m == 0 {
      assert Shl(v, 0) == v;
    } else {
      ShlFacts(v, m - 1);
      assert Shl(v, m) == 2 * Shl(v, m - 1);
      assert (Shl(v, m) + c) / 2 == Shl(v, m - 1) + c / 2;
      SpellAppends(v, n, c / 2, m - 1);
      assert Spell(v, n) + (Spell(c / 2, m - 1) + [c % 2]) == (Spell(v, n) + Spell(c / 2, m - 1)) + [c % 2];
    }
  }

  lemma {:induction false} SpellZero(m: nat)
    ensures Spell(0, m) == Zeros(m)
  {
    if m > 0 {
      SpellZero(m - 1);
    }
  }

  // The leading bits of a spelling spell the number shifted down.
  lemma {:induction false} SpellPrefix(v: nat, n: nat, k: nat)
    requires k <= n
    ensures Spell(v, n)[..n - k] == Spell(Shr(v, k), n - k)
    decreases k
  {
    if k > 0 {
      SpellPrefix(v / 2, n - 1, k - 1);
      assert Spell(v, n)[..n - k] == Spell(v / 2, n - 1)[..n - k];
    }
  }

  // What remains after the leading bits is spelled by the same number.
  lemma {:induction false} SpellSuffix(v: nat, n: nat, k: nat)
    requires k <= n
    ensures Spell(v, n)[n - k..] == Spell(v, k)
    decreases k
  {
    if k > 0 {
      SpellSuffix(v / 2, n - 1, k - 1);
      assert Spell(v, n)[n - k..] == Spell(v / 2, n - 1)[n - k..] + [v % 2];
    }
  }

  // Zeros appended at the end are not noticed.
  lemma {:induction false} ValuePadded(s: seq<Bit>, z: nat, pos: nat, n: nat)
    ensures Value(s + Zeros(z), pos, n) == Value(s, pos, n)
    decreases n
  {
    if n > 0 {
      ValuePadded(s, z, pos, n - 1);
    }
  }

  // Reading n bits at the front of a spelled buffer.
  lemma ValueOfBuffer(s: seq<Bit>, pos: nat, v: nat, left: nat, n: nat)
    requires n <= left && pos + left <= |s| && s[pos..pos + left] == Spell(v, left)
    ensures Shr(v, left - n) % Pow2(n) == Value(s, pos, n)
    ensures s[pos + n..pos + left] == Spell(v, left - n)
  {
    SpellPrefix(v, left, left - n);
    SpellSuffix(v, left, left - n);
    var u := Shr(v, left - n);
    SpellMod(u, n, n);
    assert s[pos..pos + n] == s[pos..pos + left][..n];
    assert s[pos + n..pos + left] == s[pos..pos + left][n..];
    ValueOfSpelling(s, pos, u % Pow2(n), n);
  }

  // ---- windows of a bit string ----

  lemma ConcatAssoc<T>(a: seq<T>, b: seq<T>, c: seq<T>)
    ensures (a + b) + c == a + (b + c)
  {}

  // If a is what s shows at k, then a's tail is what it shows further on.
  lemma DropFront(a: seq<Bit>, r: seq<Bit>, s: seq<Bit>, k: nat, n: nat)
    requires k <= |s| && a + r == s[k..] && n <= |a|
    ensures k + |a| <= |s| && s[k..k + |a|] == a
    ensures a[n..] + r == s[k + n..]
  {
    assert s[k..][..|a|] == s[k..k + |a|];
    assert (a + r)[..|a|] == a;
    assert s[k..][n..] == s[k + n..];
    assert (a + r)[n..] == a[n..] + r;
  }

  lemma AppendBehind(s: seq<Bit>, z: seq<Bit>, k: nat)
    requires k <= |s|
    ensures (s + z)[k..] == s[k..] + z
  {}

  lemma ZerosAppend(p: nat, z: nat)
    ensures Zeros(p + z) == Zeros(p) + Zeros(z)
  {}
}
