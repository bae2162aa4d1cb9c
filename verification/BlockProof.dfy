/** The compact form of difficulty targets and the work that a block proves. */
module BlockProofs {
  import opened Powers
  import opened Limbs
  import opened ArithUint
  import opened ArithShift
  import opened ArithDivision

  /** The number of limbs of a 256-bit integer. */
  const WIDTH: nat := 8

  // ---------- What a compact number stands for ----------

  /** The highest byte: the length of the number in bytes. */
  function Exponent(c: nat): nat {
    c / 0x100_0000
  }

  /** The lowest 23 bits. */
  function Mantissa(c: nat): nat {
    c % 0x80_0000
  }

  /** The bit between them. */
  predicate SignBit(c: nat) {
    c / 0x80_0000 % 2 == 1
  }

  /** The number a compact number stands for, without limit on its size. */
  function Exact(c: nat): (v: nat) {
    if Exponent(c) <= 3 then Shr(Mantissa(c), 8 * (3 - Exponent(c)))
    else
      MulNonNegative(Mantissa(c), Pow2(8 * (Exponent(c) - 3)));
      Mantissa(c) * Pow2(8 * (Exponent(c) - 3))
  }

  // ---------- Small numbers ----------

  lemma {:induction false} LowOfSmall(s: seq<nat>, n: nat)
    requires 2 <= n <= |s| && forall i :: 2 <= i < n ==> s[i] == 0
    ensures Low(s, n) == s[0] + s[1] * BASE
    decreases n
  {
    WeightNext(0);
    if n == 2 {
      assert Low(s, 2) == Low(s, 1) + s[1] * Weight(1);
      assert Low(s, 1) == Low(s, 0) + s[0] * Weight(0);
    } else {
      LowOfSmall(s, n - 1);
    }
  }

  /** `pn = b` for a 64-bit number */
  method AssignSmall(pn: array<nat>, b: nat)
    requires pn.Length >= 2 && b <= MAX_UINT64
    modifies pn
    ensures IsLimbs(pn[..]) && Value(pn[..]) == b
  {
    Clear(pn);
    TopHalf(b);
    pn[0] := b % BASE;
    pn[1] := b / BASE;
    LowOfSmall(pn[..], pn.Length);
    Carried(b);
  }

  /** The lowest two limbs. */
  function GetLow64(s: seq<nat>): nat
    requires |s| >= 2
  {
    s[0] + s[1] * BASE
  }

  lemma GetLow64Is(s: seq<nat>)
    requires |s| >= 2 && IsLimbs(s) && Value(s) < Weight(2)
    ensures GetLow64(s) == Value(s)
  {
    var high := SplitAt(s, 2, |s|);
    LowOfSmall(s[..2], 2);
    LowSame(s, s[..2], 2);
    if high > 0 {
      MulMono(Weight(2), 1, high);
    }
  }

  // ---------- Decoding ----------

  lemma Pow2Bytes()
    ensures Pow2(8) == 0x100 && Pow2(16) == 0x1_0000 && Pow2(24) == 0x100_0000 && Pow2(23) == 0x80_0000
  {
    Pow2Words();
    Pow2Add(16, 8);
    Pow2Add(16, 7);
    assert Pow2(7) == 0x80;
  }

  /** Scaling by a power below and above a bound. */
  lemma ScaledBelow(m: nat, e: nat, k: nat, n: nat)
    requires m < Pow2(k) && k + e <= n
    ensures 0 <= m * Pow2(e) < Pow2(n)
  {
    MulNonNegative(m, Pow2(e));
    MulMono(Pow2(e), m + 1, Pow2(k));
    MulDistributes(m, 1, Pow2(e));
    Pow2Add(k, e);
    Pow2Mono(k + e, n);
  }

  lemma ScaledAbove(m: nat, e: nat, k: nat, n: nat)
    requires m >= Pow2(k) && k + e >= n
    ensures m * Pow2(e) >= Pow2(n)
  {
    MulMono(Pow2(e), Pow2(k), m);
    Pow2Add(k, e);
    Pow2Mono(n, k + e);
  }

  /** The overflow test is exact. */
  lemma OverflowExact(word: nat, size: nat)
    requires word < 0x80_0000 && size > 3
    ensures (word != 0 && (size > 34 || (word > 0xff && size > 33) || (word > 0xffff && size > 32))) <==>
            word * Pow2(8 * (size - 3)) >= Pow2(256)
  {
    Pow2Bytes();
    var e := 8 * (size - 3);
    assert Pow2(0) == 1;
    if size > 34 {
      if word != 0 {
        ScaledAbove(word, e, 0, 256);
      }
    } else if size == 34 {
      if word > 0xff {
        ScaledAbove(word, e, 8, 256);
      } else {
        ScaledBelow(word, e, 8, 256);
      }
    } else if size == 33 {
      if word > 0xffff {
        ScaledAbove(word, e, 16, 256);
      } else {
        ScaledBelow(word, e, 16, 256);
      }
    } else {
      ScaledBelow(word, e, 23, 256);
    }
  }

  lemma ExactNonZero(c: nat)
    requires Exponent(c) > 3
    ensures Exact(c) != 0 <==> Mantissa(c) != 0
  {
    if Mantissa(c) > 0 {
      MulMono(Pow2(8 * (Exponent(c) - 3)), 1, Mantissa(c));
    }
  }

  lemma ExactSmall(c: nat)
    requires Exponent(c) <= 3
    ensures Exact(c) < 0x80_0000 < Pow2(256)
  {
    Pow2Bytes();
    Pow2Mono(24, 256);
  }

  /** Set a number from its compact form. The flags are exact: `negative` that a number other than
      zero has its sign bit set, `overflow` that it does not fit 256 bits. */
  method SetCompact(pn: array<nat>, c: nat) returns (negative: bool, overflow: bool)
    requires pn.Length == WIDTH && c < BASE
    modifies pn
    ensures IsLimbs(pn[..]) && Value(pn[..]) == Exact(c) % Pow2(256)
    ensures negative <==> Exact(c) != 0 && SignBit(c)
    ensures overflow <==> Exact(c) >= Pow2(256)
  {
    var size := c / 0x100_0000;
    var word := c % 0x80_0000;
    assert Weight(WIDTH) == Pow2(256);
    if size <= 3 {
      ExactSmall(c);
      word := Shr(word, 8 * (3 - size));
      AssignSmall(pn, word);
      DivModUnique(word, 0, word, Pow2(256));
    } else {
      ExactNonZero(c);
      OverflowExact(word, size);
      AssignSmall(pn, word);
      ShiftLeft(pn, 8 * (size - 3));
    }
    negative := word != 0 && c / 0x80_0000 % 2 == 1;
    overflow := word != 0 && (size > 34 || (word > 0xff && size > 33) || (word > 0xffff && size > 32));
  }

  // ---------- Encoding ----------

  /** The length in bytes of a number of `n` bits. */
  lemma ByteLength(v: nat, n: nat)
    requires BitLength(v, n) && n <= 256
    ensures var size := (n + 7) / 8; v < Pow2(8 * size) && size <= 32
  {
    Pow2Mono(n, 8 * ((n + 7) / 8));
  }

  /** The compact number with a given length and mantissa. */
  lemma Pack(size: nat, word: nat, sign: bool)
    requires size < 256 && word < 0x80_0000
    ensures var c := word + (if sign then 0x80_0000 else 0) + size * 0x100_0000;
            c < BASE && Exponent(c) == size && Mantissa(c) == word && (SignBit(c) <==> sign)
  {
  }

  lemma HighBit(word: nat)
    requires word < 0x100_0000
    ensures if word / 0x80_0000 % 2 == 1 then 0x8000 <= word / 256 < 0x80_0000 else word < 0x80_0000
  {
  }

  /** The three highest bytes of a number of `size` bytes. */
  function TopBytes(v: nat, size: nat): nat {
    if size <= 3 then
      MulNonNegative(v, Pow2(8 * (3 - size)));
      v * Pow2(8 * (3 - size))
    else Shr(v, 8 * (size - 3))
  }

  lemma TopBytesBound(v: nat, size: nat)
    requires v < Pow2(8 * size)
    ensures TopBytes(v, size) < 0x100_0000
  {
    Pow2Bytes();
    if size <= 3 {
      ScaledBelow(v, 8 * (3 - size), 8 * size, 24);
    } else {
      Pow2Add(24, 8 * (size - 3));
      assert 24 + 8 * (size - 3) == 8 * size;
      QuotientBound(v, Pow2(24), Pow2(8 * (size - 3)));
    }
  }

  lemma DivTwice(v: nat, a: nat)
    requires a > 0
    ensures v / a / 256 == v / (256 * a)
  {
    var q, r := v / a, v % a;
    assert v == a * q + r;
    var q', r' := q / 256, q % 256;
    assert q == 256 * q' + r';
    MulDistributes(256 * q', r', a);
    assert (256 * q') * a == q' * (256 * a);
    MulMono(a, r', 255);
    MulNonNegative(r', a);
    DivModUnique(v, q', r' * a + r, 256 * a);
  }

  /** Moving the mantissa one byte down makes it that of a number one byte longer. */
  lemma OneByteLonger(v: nat, size: nat)
    ensures TopBytes(v, size) / 256 == TopBytes(v, size + 1)
  {
    assert Pow2(8) == 256;
    if size < 3 {
      var e := 8 * (2 - size);
      Pow2Add(8, e);
      assert 8 + e == 8 * (3 - size);
      MulNonNegative(v, Pow2(e));
      assert v * (256 * Pow2(e)) == (v * Pow2(e)) * 256;
    } else {
      var e := 8 * (size - 3);
      Pow2Add(8, e);
      assert 8 + e == 8 * (size + 1 - 3);
      assert Pow2(0) == 1;
      DivTwice(v, Pow2(e));
    }
  }

  /** How far a compact number with the top bytes of `v` is from `v`: not at all up to three bytes,
      less than one unit of its last byte above. */
  lemma TopBytesExact(v: nat, size: nat, c: nat)
    requires Exponent(c) == size && Mantissa(c) == TopBytes(v, size)
    ensures if size <= 3 then Exact(c) == v else Exact(c) <= v < Exact(c) + Pow2(8 * (size - 3))
  {
    if size <= 3 {
      DivModUnique(v * Pow2(8 * (3 - size)), v, 0, Pow2(8 * (3 - size)));
    } else {
      RoundsDown(v, Pow2(8 * (size - 3)));
    }
  }

  lemma RoundsDown(v: int, p: int)
    requires p > 0
    ensures v / p * p <= v < v / p * p + p
  {
    assert v == p * (v / p) + v % p;
  }

  lemma Reduced(v: nat, m: nat)
    requires m > 0
    ensures v < m ==> v % m == v
  {
    if v < m {
      DivModUnique(v, 0, v, m);
    }
  }

  /** Zero, or a mantissa that could not be a byte longer, with nothing cut off where it is shortened. */
  predicate Normal(c: nat) {
    && c < BASE
    && (c == 0 ||
        (Mantissa(c) >= 0x8000 && (Exponent(c) < 3 ==> Mantissa(c) % Pow2(8 * (3 - Exponent(c))) == 0)))
  }

  /** The number a compact number stands for is `v`, rounded down to a unit of its last byte. */
  ghost predicate RoundedFrom(c: nat, v: nat) {
    if Exponent(c) <= 3 then Exact(c) == v else Exact(c) <= v < Exact(c) + Pow2(8 * (Exponent(c) - 3))
  }

  /** The compact form of a number, rounded down to three significant bytes, or fewer where the sign
      bit is in the way. */
  method GetCompact(s: seq<nat>, negative: bool) returns (c: nat)
    requires |s| == WIDTH && IsLimbs(s)
    ensures Normal(c) && Exponent(c) <= 33 && (SignBit(c) <==> negative && Mantissa(c) != 0)
    ensures RoundedFrom(c, Value(s))
  {
    var size, word := TopWord(s);
    c := PackWord(size, word, negative, Value(s));
  }

  /** Decoding a compact number in normal form and encoding it again gives it back. */
  method CompactRoundTrip(c: nat) returns (c': nat)
    requires Normal(c) && Exact(c) < Pow2(256)
    ensures c' == c
  {
    var pn := new nat[WIDTH](_ => 0);
    var negative, overflow := SetCompact(pn, c);
    Reduced(Exact(c), Pow2(256));
    NormalNonZero(c);
    c' := GetCompact(pn[..], negative);
    RoundedFromSelf(c);
    CompactUnique(c, c', Exact(c));
  }

  /** How many bytes a number has and its highest ones, which leave the place of the sign free. */
  method TopWord(s: seq<nat>) returns (size: nat, word: nat)
    requires |s| == WIDTH && IsLimbs(s)
    ensures size <= 33 && word == TopBytes(Value(s), size) && word < 0x80_0000
    ensures if Value(s) == 0 then size == 0 && word == 0 else word >= 0x8000
  {
    var n := Bits(s);
    size := (n + 7) / 8;
    ByteLength(Value(s), n);
    word := TopBytesOf(s, size);
    TopBytesBound(Value(s), size);
    TopByte(Value(s), n, size);
    HighBit(word);
    // The bit between mantissa and exponent denotes the sign.
    if word / 0x80_0000 % 2 == 1 {
      OneByteLonger(Value(s), size);
      word := word / 256;
      size := size + 1;
    }
  }

  /** Mantissa, sign and exponent put together. */
  method PackWord(size: nat, word: nat, negative: bool, ghost v: nat) returns (c: nat)
    requires size < 256 && word == TopBytes(v, size) && word < 0x80_0000
    requires if v == 0 then size == 0 && word == 0 else word >= 0x8000
    ensures Normal(c) && Exponent(c) == size && (SignBit(c) <==> negative && Mantissa(c) != 0)
    ensures RoundedFrom(c, v)
  {
    Multiples(v, size);
    var sign := negative && word != 0;
    Pack(size, word, sign);
    c := word + (if sign then 0x80_0000 else 0) + size * 0x100_0000;
    TopBytesExact(v, size, c);
  }

  /** The highest byte of a number is not zero. */
  lemma TopByte(v: nat, n: nat, size: nat)
    requires BitLength(v, n) && size == (n + 7) / 8
    ensures if v == 0 then size == 0 && TopBytes(v, size) == 0 else TopBytes(v, size) >= 0x1_0000
  {
    Pow2Bytes();
    if v > 0 {
      var k := 8 * (size - 1);
      Pow2Mono(k, n - 1);
      if size <= 3 {
        ScaledAbove(v, 8 * (3 - size), k, 16);
      } else {
        QuotientAtLeast(v, Pow2(16), Pow2(8 * (size - 3)), Pow2(k), size);
      }
    }
  }

  lemma QuotientAtLeast(v: nat, a: nat, b: nat, p: nat, size: nat)
    requires size > 3 && a == Pow2(16) && b == Pow2(8 * (size - 3)) && p == Pow2(8 * (size - 1)) && v >= p
    ensures v / b >= a
  {
    Pow2Add(16, 8 * (size - 3));
    assert 16 + 8 * (size - 3) == 8 * (size - 1);
    QuotientFloor(v, a, b);
  }

  lemma QuotientFloor(v: nat, a: nat, b: nat)
    requires b > 0 && v >= a * b
    ensures v / b >= a
  {
    if v / b < a {
      MulMono(b, v / b + 1, a);
      MulDistributes(v / b, 1, b);
      assert false;
    }
  }

  /** Where the mantissa is shortened its cut off part is zero. */
  lemma Multiples(v: nat, size: nat)
    ensures size < 3 ==> TopBytes(v, size) % Pow2(8 * (3 - size)) == 0
  {
    if size < 3 {
      DivModUnique(TopBytes(v, size), v, 0, Pow2(8 * (3 - size)));
    }
  }

  // ---------- The compact form is unique ----------

  /** Rounding, scaled so that exponents on both sides of three look alike. */
  ghost predicate Scaled(c: nat, v: nat) {
    Mantissa(c) * Pow2(8 * Exponent(c)) <= v * Pow2(24) < (Mantissa(c) + 1) * Pow2(8 * Exponent(c))
  }

  lemma ScaledSmall(m: int, v: int, p: int, q: int, t: int)
    requires m == v * p && p * q == t && q > 0
    ensures m * q <= v * t < (m + 1) * q
  {
    MulAssociates(v, p, q);
    MulDistributes(m, 1, q);
  }

  lemma ScaledLarge(m: int, v: int, p: int, q: int, t: int)
    requires m * p <= v < m * p + p && p * t == q && t > 0
    ensures m * q <= v * t < (m + 1) * q
  {
    MulAssociates(m, p, t);
    MulAssociates(m + 1, p, t);
    MulDistributes(m, 1, p);
    MulMono(t, m * p, v);
    MulMono(t, v + 1, (m + 1) * p);
    MulDistributes(v, 1, t);
  }

  lemma RoundedIsScaled(c: nat, v: nat)
    requires Normal(c) && RoundedFrom(c, v)
    ensures Scaled(c, v)
  {
    if Exponent(c) <= 3 {
      SmallIsScaled(c, v, Mantissa(c), Exponent(c));
    } else {
      LargeIsScaled(v, Mantissa(c), Exponent(c));
    }
  }

  lemma SmallIsScaled(c: nat, v: nat, m: nat, e: nat)
    requires Normal(c) && m == Mantissa(c) && e == Exponent(c) && e <= 3 && v == Exact(c)
    ensures m * Pow2(8 * e) <= v * Pow2(24) < (m + 1) * Pow2(8 * e)
  {
    var p := Pow2(8 * (3 - e));
    assert Pow2(0) == 1;
    Undivided(m, p);
    PowersMeet(8 * (3 - e), 8 * e, 24);
    ScaledSmall(m, v, p, Pow2(8 * e), Pow2(24));
  }

  lemma LargeIsScaled(v: nat, m: nat, e: nat)
    requires e > 3 && m * Pow2(8 * (e - 3)) <= v < m * Pow2(8 * (e - 3)) + Pow2(8 * (e - 3))
    ensures m * Pow2(8 * e) <= v * Pow2(24) < (m + 1) * Pow2(8 * e)
  {
    PowersMeet(8 * (e - 3), 24, 8 * e);
    ScaledLarge(m, v, Pow2(8 * (e - 3)), Pow2(8 * e), Pow2(24));
  }

  lemma PowersMeet(a: nat, b: nat, c: nat)
    requires a + b == c
    ensures Pow2(a) * Pow2(b) == Pow2(c)
  {
    Pow2Add(a, b);
  }

  lemma Undivided(m: nat, p: nat)
    requires p > 0 && m % p == 0
    ensures m == m / p * p
  {
    assert m == p * (m / p) + m % p;
  }

  /** A larger exponent makes a larger number in normal form. */
  lemma ExponentsAgree(c: nat, d: nat, v: nat)
    requires Scaled(c, v) && Scaled(d, v) && Mantissa(d) >= 0x8000
    ensures Exponent(c) >= Exponent(d)
  {
    var e, e' := Exponent(c), Exponent(d);
    if e < e' {
      Pow2Bytes();
      Pow2Add(8, 8 * e);
      Pow2Mono(8 * (e + 1), 8 * e');
      MulMono(Pow2(8 * e), Mantissa(c) + 1, 0x80_0000);
      MulMono(0x8000, Pow2(8 * (e + 1)), Pow2(8 * e'));
      MulMono(Pow2(8 * e'), 0x8000, Mantissa(d));
      assert false;
    }
  }

  lemma MantissasAgree(m: nat, m': nat, q: nat, v: int)
    requires q > 0 && m * q <= v < (m + 1) * q && m' * q <= v < (m' + 1) * q
    ensures m == m'
  {
    if m < m' {
      MulMono(q, m + 1, m');
    } else if m' < m {
      MulMono(q, m' + 1, m);
    }
  }

  lemma Packed(c: nat, d: nat)
    requires c < BASE && d < BASE && Exponent(c) == Exponent(d) && Mantissa(c) == Mantissa(d)
    requires SignBit(c) <==> SignBit(d)
    ensures c == d
  {
  }

  lemma NormalNonZero(c: nat)
    requires Normal(c)
    ensures Exact(c) != 0 <==> c != 0
    ensures c != 0 <==> Mantissa(c) != 0
  {
    if c != 0 {
      RoundedFromSelf(c);
      RoundedIsScaled(c, Exact(c));
      MulMono(Mantissa(c), 1, Pow2(8 * Exponent(c)));
    }
  }

  lemma RoundedFromSelf(c: nat)
    ensures RoundedFrom(c, Exact(c))
  {
  }

  /** There is one compact number in normal form for a number and a sign. */
  lemma CompactUnique(c: nat, d: nat, v: nat)
    requires Normal(c) && Normal(d) && RoundedFrom(c, v) && RoundedFrom(d, v) && (SignBit(c) <==> SignBit(d))
    ensures c == d
  {
    RoundedIsScaled(c, v);
    RoundedIsScaled(d, v);
    ZeroOnly(c, v);
    ZeroOnly(d, v);
    if v != 0 {
      ExponentsAgree(c, d, v);
      ExponentsAgree(d, c, v);
      MantissasAgree(Mantissa(c), Mantissa(d), Pow2(8 * Exponent(c)), v * Pow2(24));
      Packed(c, d);
    }
  }

  lemma ZeroOnly(c: nat, v: nat)
    requires Normal(c) && Scaled(c, v)
    ensures v == 0 <==> c == 0
  {
    if c != 0 {
      MulMono(Mantissa(c), 1, Pow2(8 * Exponent(c)));
    } else {
      assert Pow2(0) == 1;
      if v > 0 {
        MulMono(Pow2(24), 1, v);
        assert false;
      }
    }
  }

  method TopBytesOf(s: seq<nat>, size: nat) returns (word: nat)
    requires |s| == WIDTH && IsLimbs(s) && Value(s) < Pow2(8 * size)
    ensures word == TopBytes(Value(s), size)
  {
    Pow2Bytes();
    TopBytesBound(Value(s), size);
    Pow2Mono(24, 64);
    if size <= 3 {
      Pow2Mono(8 * size, 64);
      GetLow64Is(s);
      MulNonNegative(Value(s), Pow2(8 * (3 - size)));
      word := GetLow64(s) * Pow2(8 * (3 - size));
    } else {
      var bn := Copy(s);
      ShiftRight(bn, 8 * (size - 3));
      GetLow64Is(bn[..]);
      word := GetLow64(bn[..]);
    }
  }

  // ---------- The work of a block ----------

  /** What a block with this difficulty proves: the expected number of hashes, 0 for an invalid one. */
  function Proof(c: nat): nat {
    if SignBit(c) || Exact(c) == 0 || Exact(c) >= Pow2(256) then 0
    else
      QuotientRange(Pow2(256), Exact(c) + 1);
      Pow2(256) / (Exact(c) + 1)
  }

  /** A target is never all ones. */
  lemma TargetBelowMax(c: nat)
    requires Exact(c) < Pow2(256)
    ensures Exact(c) + 1 < Pow2(256)
  {
    Pow2Bytes();
    assert Pow2(256) == 2 * Pow2(255);
    Pow2Mono(24, 255);
    if Exponent(c) > 3 {
      var e := 8 * (Exponent(c) - 3);
      assert Pow2(e) == 2 * Pow2(e - 1);
      DoubleProduct(Mantissa(c), Pow2(e - 1));
    } else {
      ExactSmall(c);
    }
  }

  /** Dividing what is left of the modulus avoids representing the modulus. */
  lemma ProofIdentity(m: nat, t: nat)
    requires 0 < t && t + 1 < m
    ensures (m - 1 - t) / (t + 1) + 1 == m / (t + 1) < m
  {
    var q, r := (m - 1 - t) / (t + 1), (m - 1 - t) % (t + 1);
    assert m - 1 - t == (t + 1) * q + r;
    MulDistributes(q, 1, t + 1);
    DivModUnique(m, q + 1, r, t + 1);
    QuotientRange(m - 1 - t, t + 1);
    MulMono(q + 1, 2, t + 1);
  }

  /** The work proved by a block, from the compact form of its target. */
  method GetBlockProof(nBits: nat) returns (work: seq<nat>)
    requires nBits < BASE
    ensures |work| == WIDTH && IsLimbs(work) && Value(work) == Proof(nBits)
  {
    var target := new nat[WIDTH](_ => 0);
    var negative, overflow := SetCompact(target, nBits);
    var t := target[..];
    var zero := new nat[WIDTH](_ => 0);
    LowZero(zero[..], WIDTH);
    var c := CompareTo(t, zero[..]);
    Reduced(Exact(nBits), Pow2(256));
    if negative || overflow || c == 0 {
      return zero[..];
    }
    TargetBelowMax(nBits);
    work := WorkOf(t);
  }

  /** `a + 1` where that does not wrap */
  method Successor(a: seq<nat>) returns (r: seq<nat>)
    requires |a| == WIDTH && IsLimbs(a) && Value(a) + 1 < Pow2(256)
    ensures |r| == WIDTH && IsLimbs(r) && Value(r) == Value(a) + 1
  {
    var one := new nat[WIDTH](_ => 0);
    AssignSmall(one, 1);
    var next := Copy(a);
    AddAssign(next, one[..]);
    assert Weight(WIDTH) == Pow2(256);
    DivModUnique(Value(a) + 1, 0, Value(a) + 1, Pow2(256));
    r := next[..];
  }

  /** `~t / (t + 1) + 1` */
  method WorkOf(t: seq<nat>) returns (work: seq<nat>)
    requires |t| == WIDTH && IsLimbs(t) && 0 < Value(t) && Value(t) + 1 < Pow2(256)
    ensures |work| == WIDTH && IsLimbs(work) && 0 < Value(t) + 1 && Value(work) == Pow2(256) / (Value(t) + 1)
  {
    var next := Successor(t);
    var r := Copy(Complement(t));
    assert Weight(WIDTH) == Pow2(256);
    ComplementLow(t, WIDTH);
    var ok := DivAssign(r, next);
    ProofIdentity(Pow2(256), Value(t));
    work := Successor(r[..]);
  }
}
