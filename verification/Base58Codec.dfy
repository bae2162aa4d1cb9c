/** Encoding and decoding Base58 in a buffer of fixed size. */
module Base58Codec {
  import opened Options
  import opened Powers
  import opened Digits
  import opened Base58

  // ---------- The buffers are large enough ----------

  /** `58^11 >= 256^8` */
  lemma EncodeConstant()
    ensures Pow(256, 8) <= Pow(58, 11)
  {
    assert Pow(256, 4) == 0x1_0000_0000;
    PowAdd(256, 4, 4);
    assert Pow(58, 4) == 11316496;
    PowAdd(58, 4, 4);
    assert Pow(58, 3) == 195112;
    PowAdd(58, 8, 3);
  }

  lemma PowersOf58()
    ensures Pow(58, 7) == 2207984167552 && Pow(58, 8) == 128063081718016 && Pow(58, 16) == 16400152899115243850138976256
  {
    assert Pow(58, 3) == 195112;
    assert Pow(58, 4) == 11316496;
    PowAdd(58, 4, 3);
    PowAdd(58, 4, 4);
    PowAdd(58, 8, 8);
  }

  lemma PowersOf256()
    ensures Pow(256, 52) ==
      0x100000000000000000000000000000000000000000000000000000000000000000000000000000000000000000000000000000000
  {
    assert Pow(256, 4) == 4294967296;
    PowAdd(256, 4, 4);
    assert Pow(256, 8) == 18446744073709551616;
    PowAdd(256, 8, 8);
    assert Pow(256, 16) == 340282366920938463463374607431768211456;
    PowAdd(256, 16, 16);
    assert Pow(256, 32) == 115792089237316195423570985008687907853269984665640564039457584007913129639936;
    PowAdd(256, 32, 16);
    assert Pow(256, 48) ==
      0x1000000000000000000000000000000000000000000000000000000000000000000000000000000000000000000000000;
    PowAdd(256, 48, 4);
  }

  /** `256^52 >= 58^71` */
  lemma DecodeConstant()
    ensures Pow(58, 71) <= Pow(256, 52)
  {
    PowersOf58();
    PowersOf256();
    PowAdd(58, 16, 16);
    PowAdd(58, 32, 32);
    PowAdd(58, 64, 7);
  }

  lemma Root(x: nat, y: nat, q: nat)
    requires q > 0 && Pow(x, q) <= Pow(y, q)
    ensures x <= y
  {
    if x > y {
      PowLess(y, x, q);
    }
  }

  lemma PowSwap(b: nat, j: nat, k: nat)
    ensures j * k >= 0 && Pow(Pow(b, j), k) == Pow(b, j * k) == Pow(Pow(b, k), j)
  {
    PowMul(b, j, k);
    PowMul(b, k, j);
    assert j * k == k * j;
  }

  lemma LiftBase(a: nat, b: nat, p: nat, q: nat, n: nat)
    requires Pow(b, q) <= Pow(a, p)
    ensures p * n >= 0 && Pow(Pow(b, n), q) <= Pow(a, p * n)
  {
    PowSwap(b, q, n);
    PowSwap(a, p, n);
    PowBaseMono(Pow(b, q), Pow(a, p), n);
  }

  lemma LiftSize(a: nat, q: nat, size: nat, m: nat)
    requires a > 0 && m <= q * size
    ensures Pow(a, m) <= Pow(Pow(a, size), q)
  {
    PowSwap(a, q, size);
    PowExpMono(a, m, q * size);
  }

  /** If `a^p >= b^q` and `p * n <= q * size`, then `size` digits in base `a` hold `n` in base `b`. */
  lemma Room(a: nat, b: nat, p: nat, q: nat, n: nat, size: nat)
    requires a > 0 && q > 0 && Pow(b, q) <= Pow(a, p) && p * n <= q * size
    ensures Pow(b, n) <= Pow(a, size)
  {
    LiftBase(a, b, p, q, n);
    LiftSize(a, q, size, p * n);
    Root(Pow(b, n), Pow(a, size), q);
  }

  lemma EncodeRoom(n: nat)
    ensures Pow(256, n) <= Pow(58, n * 138 / 100 + 1)
  {
    EncodeConstant();
    Room(58, 256, 11, 8, n, n * 138 / 100 + 1);
  }

  lemma DecodeSize(n: nat)
    ensures 52 * n <= 71 * (n * 733 / 1000 + 1)
  {
    var k := n * 733 / 1000;
    assert n * 733 < 1000 * k + 1000;
  }

  lemma DecodeRoom(n: nat)
    ensures Pow(58, n) <= Pow(256, n * 733 / 1000 + 1)
  {
    var size: nat := n * 733 / 1000 + 1;
    DecodeSize(n);
    DecodeConstant();
    Room(256, 58, 52, 71, n, size);
  }

  // ---------- Multiply and add in the buffer ----------

  /** The last `length` digits are significant: those before them are zero, the first of them is
      not. */
  ghost predicate Significant(s: seq<nat>, length: nat) {
    && length <= |s| && (forall i :: 0 <= i < |s| - length ==> s[i] == 0)
    && (length > 0 ==> s[|s| - length] != 0)
  }

  lemma SignificantNum(base: nat, s: seq<nat>, n: nat)
    requires n <= |s| && forall i :: 0 <= i < |s| - n ==> s[i] == 0
    ensures Num(base, s) == Num(base, s[|s| - n..])
  {
    assert s == s[..|s| - n] + s[|s| - n..];
    NumConcat(base, s[..|s| - n], s[|s| - n..]);
    NumZeroes(base, s[..|s| - n]);
  }

  /** A number that has not become smaller has no fewer digits. */
  lemma StillSignificant(base: nat, now: seq<nat>, was: seq<nat>, length: nat)
    requires base > 0 && |now| == |was| && Significant(was, length) && IsDigits(base, now)
    requires (forall i :: 0 <= i < |now| - length ==> now[i] == 0) && Num(base, now) >= Num(base, was)
    ensures Significant(now, length)
  {
    if length > 0 && now[|now| - length] == 0 {
      ManyDigits(base, was, length);
      FewDigits(base, now, length - 1);
      assert false;
    }
  }

  lemma ManyDigits(base: nat, s: seq<nat>, n: nat)
    requires base > 0 && n > 0 && Significant(s, n)
    ensures Num(base, s) >= Pow(base, n - 1)
  {
    SignificantNum(base, s, n);
    NumAtLeast(base, s[|s| - n..]);
  }

  lemma FewDigits(base: nat, s: seq<nat>, n: nat)
    requires base > 0 && n <= |s| && IsDigits(base, s) && forall i :: 0 <= i < |s| - n ==> s[i] == 0
    ensures Num(base, s) < Pow(base, n)
  {
    SignificantNum(base, s, n);
    NumBound(base, s[|s| - n..]);
  }

  /** When the loop ends, nothing is left to carry and the whole number is right. */
  lemma CarryDone(base: nat, factor: nat, now: seq<nat>, was: seq<nat>, i: nat, carry: nat, c0: nat, length: nat)
    requires base > 0 && factor > 0 && Carrying(base, factor, now, was, i, carry, c0) && Significant(was, length)
    requires (carry == 0 && i >= length) || i == |now|
    requires 0 <= factor * Num(base, was) + c0 < Pow(base, |was|)
    requires i > length ==> carry != 0 || now[|now| - i] != 0
    ensures carry == 0 && Num(base, now) == factor * Num(base, was) + c0 && Significant(now, i)
  {
    assert now[..|now| - i] == was[..|was| - i];
    assert forall k :: 0 <= k < |now| - i ==> now[k] == now[..|now| - i][k] == was[k];
    SignificantNum(base, now, i);
    SignificantNum(base, was, i);
    if carry > 0 {
      assert now[0..] == now && was[0..] == was;
      MulMono(Pow(base, i), 1, carry);
    }
    MulMono(Num(base, was), 1, factor);
    if i <= length {
      StillSignificant(base, now, was, i);
    }
  }

  /** Apply `buf = buf * factor + c0`, from the last digit on; the result has `length'` digits. */
  method MultiplyAdd(buf: array<nat>, base: nat, factor: nat, c0: nat, length: nat) returns (length': nat)
    requires base > 1 && factor > 0 && IsDigits(base, buf[..]) && Significant(buf[..], length)
    requires 0 <= factor * Num(base, buf[..]) + c0 < Pow(base, buf.Length)
    modifies buf
    ensures IsDigits(base, buf[..]) && Significant(buf[..], length')
    ensures Num(base, buf[..]) == factor * old(Num(base, buf[..])) + c0
  {
    ghost var was, now := buf[..], buf[..];
    var carry: nat, i: nat := c0, 0;
    StartCarry(base, factor, was, c0);
    while (carry != 0 || i < length) && i < buf.Length
      invariant i <= buf.Length && buf[..] == now && Carrying(base, factor, now, was, i, carry, c0)
      invariant i > length ==> carry != 0 || now[|now| - i] != 0
      decreases buf.Length - i
    {
      CarryNext(base, factor, now, was, i, carry, c0);
      var at := buf.Length - 1 - i;
      ZeroBeyond(now, was, i, length);
      var n: nat := carry + factor * buf[at];
      LastDigit(n, base);
      buf[at] := n % base;
      carry := n / base;
      now := now[at := n % base];
      i := i + 1;
    }
    CarryDone(base, factor, now, was, i, carry, c0, length);
    assert carry == 0;
    length' := i;
  }

  lemma StartCarry(base: nat, factor: nat, was: seq<nat>, c0: nat)
    requires IsDigits(base, was)
    ensures Carrying(base, factor, was, was, 0, c0, c0)
  {
    assert was[|was|..] == [];
    assert Pow(base, 0) == 1;
  }

  lemma ZeroBeyond(now: seq<nat>, was: seq<nat>, i: nat, length: nat)
    requires |now| == |was| && i < |was| && Significant(was, length) && now[..|now| - i] == was[..|was| - i]
    ensures i >= length ==> now[|now| - 1 - i] == 0
  {
    assert now[|now| - 1 - i] == now[..|now| - i][|now| - 1 - i];
  }

  lemma LastDigit(n: nat, base: nat)
    requires base > 1
    ensures n / base >= 0 && (n > 0 ==> n / base != 0 || n % base != 0)
  {
    QuotientNonNegative(n, base);
  }

  // ---------- Encoding ----------

  lemma SignificantDigits(base: nat, s: seq<nat>, length: nat)
    requires base > 1 && IsDigits(base, s) && Significant(s, length)
    ensures s[|s| - length..] == ToDigits(base, Num(base, s))
  {
    SignificantNum(base, s, length);
    NumToDigits(base, s[|s| - length..]);
  }

  /** The next input digit fits the buffer. */
  lemma NextFits(base: nat, factor: nat, rest: seq<nat>, k: nat, size: nat)
    requires k < |rest| && factor > 0 && IsDigits(factor, rest) && Pow(factor, |rest|) <= Pow(base, size)
    ensures Num(factor, rest[..k + 1]) == factor * Num(factor, rest[..k]) + rest[k] < Pow(base, size)
  {
    assert rest[..k + 1] == rest[..k] + [rest[k]];
    NumSnoc(factor, rest[..k], rest[k]);
    NumBound(factor, rest[..k + 1]);
    PowExpMono(factor, k + 1, |rest|);
  }

  method EncodeBase58(input: seq<nat>) returns (str: string)
    requires IsDigits(256, input)
    ensures str == EncodeOf(input)
  {
    // Skip and count leading zeroes.
    var zeroes: nat := 0;
    while zeroes < |input| && input[zeroes] == 0
      invariant zeroes <= |input| && forall i :: 0 <= i < zeroes ==> input[i] == 0
    {
      zeroes := zeroes + 1;
    }
    LeadingIs(input, 0, zeroes);
    assert input == Repeat(0, zeroes) + input[zeroes..];
    LeadingZeroes(256, zeroes, input[zeroes..]);
    var digits := ConvertBytes(input[zeroes..]);
    str := Repeat('1', zeroes) + ToChars(digits);
  }

  method ConvertBytes(rest: seq<nat>) returns (digits: seq<nat>)
    requires IsDigits(256, rest)
    ensures digits == ToDigits(58, Num(256, rest))
  {
    var size := |rest| * 138 / 100 + 1;
    EncodeRoom(|rest|);
    var buf := new nat[size](_ => 0);
    NumZeroes(58, buf[..]);
    var length: nat := 0;
    assert rest[..0] == [];
    for k := 0 to |rest|
      invariant Encoded(buf[..], rest, k, length)
    {
      length := EncodeByte(buf, rest, k, length);
    }
    EncodedAll(buf[..], rest, length);
    // Skip leading zeroes in the result.
    var it := SkipZeroes(buf[..], size - length);
    digits := buf[..][it..];
  }

  /** The buffer holds the first `k` bytes, in base 58. */
  ghost predicate Encoded(buf: seq<nat>, rest: seq<nat>, k: nat, length: nat) {
    && k <= |rest| && IsDigits(256, rest) && IsDigits(58, buf) && Significant(buf, length)
    && Num(58, buf) == Num(256, rest[..k])
  }

  lemma EncodedAll(buf: seq<nat>, rest: seq<nat>, length: nat)
    requires Encoded(buf, rest, |rest|, length)
    ensures buf[|buf| - length..] == ToDigits(58, Num(256, rest)) && (length > 0 ==> buf[|buf| - length] != 0)
  {
    assert rest[..|rest|] == rest;
    SignificantDigits(58, buf, length);
  }

  method EncodeByte(buf: array<nat>, rest: seq<nat>, k: nat, length: nat) returns (length': nat)
    requires k < |rest| && Encoded(buf[..], rest, k, length) && Pow(256, |rest|) <= Pow(58, buf.Length)
    modifies buf
    ensures Encoded(buf[..], rest, k + 1, length')
  {
    NextFits(58, 256, rest, k, buf.Length);
    length' := MultiplyAdd(buf, 58, 256, rest[k], length);
  }

  method SkipZeroes(s: seq<nat>, from: nat) returns (it: nat)
    requires from <= |s|
    ensures from <= it <= |s| && (forall j :: from <= j < it ==> s[j] == 0) && (it < |s| ==> s[it] != 0)
  {
    it := from;
    while it < |s| && s[it] == 0
      invariant from <= it <= |s| && forall j :: from <= j < it ==> s[j] == 0
    {
      it := it + 1;
    }
  }

  // ---------- Decoding ----------

  lemma {:induction false} DigitsMono(base: nat, v: nat, v': nat)
    requires base > 1 && v <= v'
    ensures |ToDigits(base, v)| <= |ToDigits(base, v')|
    decreases v'
  {
    if v > 0 {
      QuotientLess(v, base);
      QuotientLess(v', base);
      QuotientMono(v, v', base);
      DigitsMono(base, v / base, v' / base);
    }
  }

  lemma QuotientMono(v: nat, v': nat, base: nat)
    requires base > 0 && v <= v'
    ensures v / base <= v' / base
  {
    QuotientNonNegative(v, base);
    QuotientNonNegative(v', base);
    if v / base > v' / base {
      MulMono(base, v' / base + 1, v / base);
      MulDistributes(v' / base, 1, base);
    }
  }

  lemma NumPrefix(base: nat, d: seq<nat>, k: nat)
    requires base > 0 && k <= |d|
    ensures Num(base, d[..k]) <= Num(base, d)
  {
    assert d == d[..k] + d[k..];
    NumConcat(base, d[..k], d[k..]);
    MulMono(Num(base, d[..k]), 1, Pow(base, |d| - k));
  }

  /** A prefix of a word that is too long already makes the word too long. */
  lemma TooLong(z: nat, w: string, k: nat, maxLen: int)
    requires 0 < k <= |w| && AllMapped(w[..k])
    requires z + |ToDigits(256, Num(58, FromChars(w[..k])))| > maxLen
    ensures DecodeWord(z, w, maxLen) == None
  {
    if AllMapped(w) {
      assert FromChars(w)[..k] == FromChars(w[..k]);
      NumPrefix(58, FromChars(w), k);
      DigitsMono(256, Num(58, FromChars(w[..k])), Num(58, FromChars(w)));
    }
  }

  method SkipSpaces(s: string) returns (n: nat)
    ensures n <= |s| && s[n..] == DropSpaces(s)
  {
    n := 0;
    assert s[0..] == s;
    while n < |s| && IsSpace(s[n])
      invariant n <= |s| && DropSpaces(s[n..]) == DropSpaces(s)
    {
      assert s[n..][1..] == s[n + 1..];
      n := n + 1;
    }
  }

  /** The buffer holds the first `k` characters of the word, in base 256. */
  ghost predicate Converted(buf: seq<nat>, w: string, k: nat, length: nat) {
    && k <= |w| && AllMapped(w[..k]) && IsDigits(256, buf) && Significant(buf, length)
    && Num(256, buf) == Num(58, FromChars(w[..k]))
  }

  lemma ConvertedDigits(buf: seq<nat>, w: string, k: nat, length: nat)
    requires Converted(buf, w, k, length)
    ensures buf[|buf| - length..] == ToDigits(256, Num(58, FromChars(w[..k])))
    ensures length == |ToDigits(256, Num(58, FromChars(w[..k])))|
  {
    SignificantDigits(256, buf, length);
  }

  lemma ConvertedTooLong(z: nat, buf: seq<nat>, w: string, k: nat, length: nat, maxLen: int)
    requires 0 < k && Converted(buf, w, k, length) && length + z > maxLen
    ensures DecodeWord(z, w, maxLen) == None
  {
    ConvertedDigits(buf, w, k, length);
    TooLong(z, w, k, maxLen);
  }

  method ConvertChar(buf: array<nat>, w: string, k: nat, length: nat) returns (length': nat)
    requires k < |w| && MapBase58(w[k]) >= 0 && Converted(buf[..], w, k, length) && Pow(58, |w|) <= Pow(256, buf.Length)
    modifies buf
    ensures Converted(buf[..], w, k + 1, length')
  {
    assert w[..k + 1] == w[..k] + [w[k]];
    NextCharFits(w, k, buf.Length);
    length' := MultiplyAdd(buf, 256, 58, MapBase58(w[k]), length);
  }

  lemma NotMapped(w: string, k: nat)
    requires k < |w| && MapBase58(w[k]) == -1
    ensures !AllMapped(w)
  {
  }

  lemma RoomForWord(n: nat, spaces: nat)
    ensures Pow(58, n) <= Pow(256, (n + spaces) * 733 / 1000 + 1)
  {
    DecodeRoom(n + spaces);
    PowExpMono(58, n, n + spaces);
  }

  /** Decode the characters of a word after `z` leading '1's into a buffer that has room for them. */
  method ConvertChars(buf: array<nat>, z: nat, w: string, maxLen: int) returns (ok: bool, length: nat)
    requires Converted(buf[..], w, 0, 0) && Pow(58, |w|) <= Pow(256, buf.Length)
    modifies buf
    ensures ok ==> Converted(buf[..], w, |w|, length) && (|w| > 0 ==> length + z <= maxLen)
    ensures !ok ==> DecodeWord(z, w, maxLen) == None
  {
    length := 0;
    for k := 0 to |w|
      invariant Converted(buf[..], w, k, length) && (k > 0 ==> length + z <= maxLen)
    {
      CharTables(0, w[k]);
      if MapBase58(w[k]) == -1 {
        NotMapped(w, k);
        return false, length;
      }
      length := ConvertChar(buf, w, k, length);
      if length + z > maxLen {
        ConvertedTooLong(z, buf[..], w, k + 1, length, maxLen);
        return false, length;
      }
    }
    ok := true;
  }

  /** Decode a word after `z` leading '1's. */
  method ConvertWord(z: nat, w: string, spaces: nat, maxLen: int) returns (r: Option<seq<nat>>)
    requires z > 0 ==> z <= maxLen
    ensures r == DecodeWord(z, w, maxLen)
  {
    // The buffer is allocated for the whole rest of the text, spaces included.
    var size := (|w| + spaces) * 733 / 1000 + 1;
    RoomForWord(|w|, spaces);
    var buf := new nat[size](_ => 0);
    StartConverted(buf[..], w);
    var ok, length := ConvertChars(buf, z, w, maxLen);
    if !ok {
      return None;
    }
    ConvertedAll(z, buf[..], w, length, maxLen);
    r := Some(Repeat(0, z) + buf[..][size - length..]);
  }

  lemma ConvertedAll(z: nat, buf: seq<nat>, w: string, length: nat, maxLen: int)
    requires Converted(buf, w, |w|, length) && (z > 0 ==> z <= maxLen) && (|w| > 0 ==> length + z <= maxLen)
    ensures DecodeWord(z, w, maxLen) == Some(Repeat(0, z) + buf[|buf| - length..])
  {
    assert w[..|w|] == w;
    ConvertedDigits(buf, w, |w|, length);
  }

  lemma StartConverted(buf: seq<nat>, w: string)
    requires forall i :: 0 <= i < |buf| ==> buf[i] == 0
    ensures Converted(buf, w, 0, 0)
  {
    NumZeroes(256, buf);
    assert w[..0] == [] && FromChars(w[..0]) == [];
  }

  lemma NextCharFits(w: string, k: nat, size: nat)
    requires k < |w| && AllMapped(w[..k + 1]) && Pow(58, |w|) <= Pow(256, size)
    ensures AllMapped(w[..k])
    ensures Num(58, FromChars(w[..k + 1])) == 58 * Num(58, FromChars(w[..k])) + MapBase58(w[k]) < Pow(256, size)
  {
    var d := FromChars(w[..k + 1]);
    forall i | 0 <= i < k ensures MapBase58(w[..k][i]) >= 0 {
      assert w[..k][i] == w[..k + 1][i];
    }
    assert d[..k] == FromChars(w[..k]) && d[..k + 1] == d;
    PowExpMono(58, k + 1, |w|);
    NextFits(256, 58, d, k, size);
  }

  /** Decode a text. */
  method DecodeBase58(str: string, maxLen: int) returns (r: Option<seq<nat>>)
    ensures r == DecodeOf(str, maxLen)
  {
    if 0 as char in str {
      return None;
    }
    var skip := SkipSpaces(str);
    r := DecodeText(str[skip..], maxLen);
  }

  /** Skip and count leading '1's; fails when there are too many. */
  method CountOnes(t: string, maxLen: int) returns (ok: bool, z: nat)
    ensures ok ==> z == Leading(t, '1') && (z > 0 ==> z <= maxLen)
    ensures !ok ==> Leading(t, '1') > 0 && Leading(t, '1') > maxLen
  {
    z := 0;
    while z < |t| && t[z] == '1'
      invariant z <= |t| && (forall i :: 0 <= i < z ==> t[i] == '1') && (z > 0 ==> z <= maxLen)
    {
      z := z + 1;
      if z > maxLen {
        assert z <= Leading(t, '1');
        return false, z;
      }
    }
    LeadingIs(t, '1', z);
    ok := true;
  }

  method CountWord(u: string) returns (n: nat)
    ensures n == WordLength(u)
  {
    n := 0;
    while n < |u| && !IsSpace(u[n])
      invariant n <= |u| && forall i :: 0 <= i < n ==> !IsSpace(u[i])
    {
      n := n + 1;
    }
    WordLengthIs(u, n);
  }

  lemma TooManyOnes(z: nat, w: string, maxLen: int)
    requires z > 0 && z > maxLen
    ensures DecodeWord(z, w, maxLen) == None
  {
  }

  /** Decode a word and what follows it. */
  method DecodeParts(z: nat, w: string, tail: string, maxLen: int) returns (r: Option<seq<nat>>)
    requires z > 0 ==> z <= maxLen
    ensures r == if DropSpaces(tail) != [] then None else DecodeWord(z, w, maxLen)
  {
    r := ConvertWord(z, w, |tail|, maxLen);
    // Skip trailing spaces.
    var skip := SkipSpaces(tail);
    if r.Some? && skip < |tail| {
      r := None;
    }
  }

  method DecodeText(t: string, maxLen: int) returns (r: Option<seq<nat>>)
    ensures r == DecodeFrom(t, maxLen)
  {
    var ok, z := CountOnes(t, maxLen);
    if !ok {
      TooManyOnesFrom(t, maxLen);
      return None;
    }
    var n := CountWord(t[z..]);
    r := DecodeParts(z, t[z..z + n], t[z + n..], maxLen);
    assert DecodeFrom(t, maxLen) == DecodeSplit(t, z, n, maxLen);
  }

  lemma TooManyOnesFrom(t: string, maxLen: int)
    requires Leading(t, '1') > 0 && Leading(t, '1') > maxLen
    ensures DecodeFrom(t, maxLen) == None
  {
    var z := Leading(t, '1');
    var n := WordLength(t[z..]);
    TooManyOnes(z, t[z..z + n], maxLen);
    assert DecodeFrom(t, maxLen) == DecodeSplit(t, z, n, maxLen);
  }
}
