/** Base58: binary data as text without ambiguous characters. */
module Base58 {
  import opened Options
  import opened Digits

  // ---------- Characters ----------

  predicate IsSpace(c: char) {
    c as int == 32 || 9 <= c as int <= 13
  }

  /** The character of a digit: digits and letters without "0", "I", "O" and "l". */
  function CharOf(d: nat): char
    requires d < 58
  {
    if d < 9 then ('1' as int + d) as char
    else if d < 17 then ('A' as int + (d - 9)) as char
    else if d < 22 then ('J' as int + (d - 17)) as char
    else if d < 33 then ('P' as int + (d - 22)) as char
    else if d < 44 then ('a' as int + (d - 33)) as char
    else ('m' as int + (d - 44)) as char
  }

  /** The digit of a character, -1 if it has none. */
  function MapBase58(c: char): int {
    if '1' <= c <= '9' then c as int - '1' as int
    else if 'A' <= c <= 'H' then c as int - 'A' as int + 9
    else if 'J' <= c <= 'N' then c as int - 'J' as int + 17
    else if 'P' <= c <= 'Z' then c as int - 'P' as int + 22
    else if 'a' <= c <= 'k' then c as int - 'a' as int + 33
    else if 'm' <= c <= 'z' then c as int - 'm' as int + 44
    else -1
  }

  lemma CharTables(d: nat, c: char)
    ensures d < 58 ==> MapBase58(CharOf(d)) == d && !IsSpace(CharOf(d)) && CharOf(d) as int != 0
    ensures -1 <= MapBase58(c) < 58
    ensures MapBase58(c) >= 0 ==> CharOf(MapBase58(c)) == c && !IsSpace(c)
    ensures MapBase58(c) == 0 <==> c == '1'
  {
  }

  /** The alphabet: the digits and letters of ASCII in their order, but for "0", "I", "O" and "l". */
  lemma Alphabet(d: nat, e: nat, c: char)
    ensures d < e < 58 ==> CharOf(d) < CharOf(e)
    ensures (exists k :: 0 <= k < 58 && CharOf(k) == c) <==>
              ('0' <= c <= '9' || 'A' <= c <= 'Z' || 'a' <= c <= 'z') && c !in "0IOl"
  {
    CharTables(0, c);
    if MapBase58(c) >= 0 {
      assert CharOf(MapBase58(c)) == c;
    }
  }

  function ToChars(d: seq<nat>): (s: string)
    requires IsDigits(58, d)
    ensures |s| == |d| && forall i :: 0 <= i < |d| ==> s[i] == CharOf(d[i])
  {
    seq(|d|, i requires 0 <= i < |d| => CharOf(d[i]))
  }

  predicate AllMapped(s: string) {
    forall i :: 0 <= i < |s| ==> MapBase58(s[i]) >= 0
  }

  function FromChars(s: string): (d: seq<nat>)
    requires AllMapped(s)
    ensures |d| == |s| && IsDigits(58, d) && forall i :: 0 <= i < |s| ==> d[i] == MapBase58(s[i])
  {
    seq(|s|, i requires 0 <= i < |s| => CharTables(0, s[i]); MapBase58(s[i]))
  }

  // ---------- What encoding and decoding mean ----------

  /** How many elements equal to `x` a sequence starts with. */
  function Leading<T(==)>(s: seq<T>, x: T): (n: nat)
    ensures n <= |s| && (forall i :: 0 <= i < n ==> s[i] == x) && (n < |s| ==> s[n] != x)
  {
    if s != [] && s[0] == x then 1 + Leading(s[1..], x) else 0
  }

  function Repeat<T>(x: T, n: nat): (s: seq<T>)
    ensures |s| == n && forall i :: 0 <= i < n ==> s[i] == x
  {
    seq(n, _ => x)
  }

  /** One '1' per leading zero byte, then the number in base 58. */
  function EncodeOf(b: seq<nat>): string {
    Repeat('1', Leading(b, 0)) + ToChars(ToDigits(58, Num(256, b)))
  }

  /** An example: 0x626262 is 6447714, that is 33 * 58^3 + 2 * 58^2 + 39 * 58 + 28. */
  lemma EncodeExample()
    ensures EncodeOf([0x62, 0x62, 0x62]) == "a3gV" && EncodeOf([0, 0x61]) == "12g"
  {
    ExampleNumbers();
    ExampleDigits();
    assert Leading([0x62, 0x62, 0x62], 0) == 0;
    assert [0, 0x61][1..] == [0x61];
    assert Leading([0, 0x61], 0) == 1;
    assert Repeat('1', 1) == "1" && Repeat('1', 0) == "";
    assert ToChars([33, 2, 39, 28]) == "a3gV" && ToChars([1, 39]) == "2g";
  }

  lemma ExampleNumbers()
    ensures Num(256, [0x62, 0x62, 0x62]) == 6447714 && Num(256, [0, 0x61]) == 97
  {
    assert Pow(256, 1) == 256 && Pow(256, 2) == 65536;
    var a: seq<nat> := [0x62, 0x62, 0x62];
    assert a[1..] == [0x62, 0x62] && a[1..][1..] == [0x62];
    assert Num(256, [0x62]) == 0x62;
    assert Num(256, [0x62, 0x62]) == 0x6262;
    assert [0, 0x61][1..] == [0x61] && Num(256, [0x61]) == 0x61;
  }

  lemma ExampleDigits()
    ensures ToDigits(58, 6447714) == [33, 2, 39, 28] && ToDigits(58, 97) == [1, 39]
  {
    assert ToDigits(58, 0) == [];
    assert ToDigits(58, 33) == [33] && ToDigits(58, 1) == [1];
    assert ToDigits(58, 1916) == [33, 2];
    assert ToDigits(58, 111167) == [33, 2, 39];
  }

  function DropSpaces(s: string): string {
    if s != [] && IsSpace(s[0]) then DropSpaces(s[1..]) else s
  }

  function WordLength(s: string): (n: nat)
    ensures n <= |s| && (forall i :: 0 <= i < n ==> !IsSpace(s[i])) && (n < |s| ==> IsSpace(s[n]))
  {
    if s != [] && !IsSpace(s[0]) then 1 + WordLength(s[1..]) else 0
  }

  /** What is decoded: one zero byte per leading '1', then the number in base 256, or nothing when the
      text has other characters or is more than one word, or when the result would be too long. */
  function DecodeOf(str: string, maxLen: int): Option<seq<nat>> {
    if 0 as char in str then None else DecodeFrom(DropSpaces(str), maxLen)
  }

  function DecodeFrom(t: string, maxLen: int): Option<seq<nat>> {
    var z := Leading(t, '1');
    DecodeSplit(t, z, WordLength(t[z..]), maxLen)
  }

  /** The same when the text is known to be `z` ones, the rest of a word of `n` characters, and a tail. */
  function DecodeSplit(t: string, z: nat, n: nat, maxLen: int): Option<seq<nat>>
    requires z + n <= |t|
  {
    if DropSpaces(t[z + n..]) != [] then None else DecodeWord(z, t[z..z + n], maxLen)
  }

  function DecodeWord(z: nat, w: string, maxLen: int): Option<seq<nat>> {
    if !AllMapped(w) then None
    else
      var d := ToDigits(256, Num(58, FromChars(w)));
      if (z > 0 && z > maxLen) || (w != [] && z + |d| > maxLen) then None
      else Some(Repeat(0, z) + d)
  }

  // ---------- Round trips ----------

  lemma {:induction false} LeadingIs<T>(s: seq<T>, x: T, n: nat)
    requires n <= |s| && (forall i :: 0 <= i < n ==> s[i] == x) && (n < |s| ==> s[n] != x)
    ensures Leading(s, x) == n
  {
    if n > 0 {
      LeadingIs(s[1..], x, n - 1);
    }
  }

  lemma {:induction false} WordIsAll(s: string)
    requires forall i :: 0 <= i < |s| ==> !IsSpace(s[i])
    ensures WordLength(s) == |s|
  {
    if s != [] {
      WordIsAll(s[1..]);
    }
  }

  lemma CharsBack(d: seq<nat>)
    requires IsDigits(58, d)
    ensures AllMapped(ToChars(d)) && FromChars(ToChars(d)) == d
    ensures forall i :: 0 <= i < |d| ==> !IsSpace(ToChars(d)[i]) && ToChars(d)[i] as int != 0
  {
    forall i | 0 <= i < |d|
      ensures MapBase58(ToChars(d)[i]) == d[i] && !IsSpace(ToChars(d)[i]) && ToChars(d)[i] as int != 0
    {
      CharTables(d[i], ToChars(d)[i]);
    }
  }

  lemma DigitsBack(s: string)
    requires AllMapped(s)
    ensures ToChars(FromChars(s)) == s
  {
    forall i | 0 <= i < |s| ensures ToChars(FromChars(s))[i] == s[i] {
      CharTables(0, s[i]);
    }
  }

  lemma LeadingZeroes(base: nat, z: nat, d: seq<nat>)
    ensures Num(base, Repeat(0, z) + d) == Num(base, d)
  {
    NumConcat(base, Repeat(0, z), d);
    NumZeroes(base, Repeat(0, z));
  }

  /** The word an encoding consists of. */
  lemma EncodedShape(z: nat, d: seq<nat>)
    requires IsDigits(58, d) && (d != [] ==> d[0] != 0)
    ensures var s := Repeat('1', z) + ToChars(d);
            && 0 as char !in s && DropSpaces(s) == s && Leading(s, '1') == z && s[z..] == ToChars(d)
            && WordLength(s[z..]) == |d|
  {
    var s := Repeat('1', z) + ToChars(d);
    CharsBack(d);
    forall i | 0 <= i < |s| ensures s[i] as int != 0 && !IsSpace(s[i]) {
    }
    if d != [] {
      CharTables(d[0], s[z]);
    }
    LeadingIs(s, '1', z);
    assert s[z..] == ToChars(d);
    WordIsAll(ToChars(d));
  }

  /** Decoding an encoding gives the data back. */
  lemma DecodeEncode(b: seq<nat>, maxLen: int)
    requires IsDigits(256, b) && maxLen >= |b|
    ensures DecodeOf(EncodeOf(b), maxLen) == Some(b)
  {
    var z := Leading(b, 0);
    var rest, v := b[z..], Num(256, b);
    var d := ToDigits(58, v);
    assert b == Repeat(0, z) + rest;
    LeadingZeroes(256, z, rest);
    ToDigitsNum(58, v);
    DecodeEncoded(z, d, maxLen);
    NumToDigits(256, rest);
    DecodeDigits(z, d, rest, maxLen);
  }

  lemma DecodeEncoded(z: nat, d: seq<nat>, maxLen: int)
    requires IsDigits(58, d) && (d != [] ==> d[0] != 0)
    ensures DecodeOf(Repeat('1', z) + ToChars(d), maxLen) == DecodeWord(z, ToChars(d), maxLen)
  {
    var s := Repeat('1', z) + ToChars(d);
    EncodedShape(z, d);
    assert s[z..z + |d|] == ToChars(d) && s[z + |d|..] == [];
    assert DecodeFrom(s, maxLen) == DecodeSplit(s, z, |d|, maxLen);
  }

  lemma DecodeDigits(z: nat, d: seq<nat>, e: seq<nat>, maxLen: int)
    requires IsDigits(58, d) && ToDigits(256, Num(58, d)) == e && z + |e| <= maxLen
    ensures DecodeWord(z, ToChars(d), maxLen) == Some(Repeat(0, z) + e)
  {
    CharsBack(d);
  }

  lemma EncodeNumber(z: nat, v: nat)
    ensures var b := Repeat(0, z) + ToDigits(256, v);
            IsDigits(256, b) && EncodeOf(b) == Repeat('1', z) + ToChars(ToDigits(58, v))
  {
    var d := ToDigits(256, v);
    ToDigitsNum(256, v);
    LeadingIs(Repeat(0, z) + d, 0, z);
    LeadingZeroes(256, z, d);
  }

  lemma WordBack(w: string)
    requires AllMapped(w) && (w != [] ==> w[0] != '1')
    ensures ToChars(ToDigits(58, Num(58, FromChars(w)))) == w
  {
    if w != [] {
      CharTables(0, w[0]);
    }
    NumToDigits(58, FromChars(w));
    DigitsBack(w);
  }

  lemma {:induction false} WordOf(t: string, z: nat)
    requires z <= |t| && forall i :: 0 <= i < z ==> t[i] == '1'
    ensures WordLength(t) == z + WordLength(t[z..])
  {
    if z > 0 {
      CharTables(0, t[0]);
      assert t[1..][z - 1..] == t[z..];
      WordOf(t[1..], z - 1);
    } else {
      assert t[0..] == t;
    }
  }

  ghost predicate Encodes(b: seq<nat>, w: string) {
    IsDigits(256, b) && EncodeOf(b) == w
  }

  /** Where the ones end, and the word. */
  lemma Parts(t: string, maxLen: int) returns (z: nat, n: nat)
    ensures z + n == WordLength(t) && DecodeFrom(t, maxLen) == DecodeSplit(t, z, n, maxLen)
    ensures (forall i :: 0 <= i < z ==> t[i] == '1') && (z < |t| ==> t[z] != '1')
  {
    z := Leading(t, '1');
    n := WordLength(t[z..]);
    WordOf(t, z);
  }

  lemma EncodeDecodeParts(t: string, z: nat, n: nat, maxLen: int)
    requires z + n <= |t| && (forall i :: 0 <= i < z ==> t[i] == '1') && (z < |t| ==> t[z] != '1')
    requires DecodeSplit(t, z, n, maxLen).Some?
    ensures Encodes(DecodeSplit(t, z, n, maxLen).value, t[..z + n]) && DropSpaces(t[z + n..]) == []
  {
    OnesThen(t, z, n);
    EncodeDecodeWord(z, t[z..z + n], maxLen);
  }

  lemma OnesThen(t: string, z: nat, n: nat)
    requires z + n <= |t| && forall i :: 0 <= i < z ==> t[i] == '1'
    ensures t[..z + n] == Repeat('1', z) + t[z..z + n] && (n > 0 ==> t[z..z + n][0] == t[z])
  {
  }

  lemma EncodeDecodeWord(z: nat, w: string, maxLen: int)
    requires DecodeWord(z, w, maxLen).Some? && (w != [] ==> w[0] != '1')
    ensures Encodes(DecodeWord(z, w, maxLen).value, Repeat('1', z) + w)
  {
    EncodeNumber(z, Num(58, FromChars(w)));
    WordBack(w);
  }

  /** Encoding what was decoded gives the text back, without the spaces around it. */
  lemma EncodeDecode(str: string, maxLen: int)
    requires DecodeOf(str, maxLen).Some?
    ensures var b, t := DecodeOf(str, maxLen).value, DropSpaces(str);
            IsDigits(256, b) && EncodeOf(b) == t[..WordLength(t)] && DropSpaces(t[WordLength(t)..]) == []
  {
    var t := DropSpaces(str);
    var z, n := Parts(t, maxLen);
    EncodeDecodeParts(t, z, n, maxLen);
  }

  // ---------- Spaces ----------

  /** The word at `i`, with nothing but spaces around it. */
  ghost predicate FramedAt(str: string, w: string, i: nat) {
    && i + |w| <= |str| && str[i..i + |w|] == w
    && forall j :: 0 <= j < |str| && !(i <= j < i + |w|) ==> IsSpace(str[j])
  }

  lemma {:induction false} DropIs(s: string, k: nat)
    requires k <= |s| && (forall j :: 0 <= j < k ==> IsSpace(s[j])) && (k < |s| ==> !IsSpace(s[k]))
    ensures DropSpaces(s) == s[k..]
  {
    if k > 0 {
      DropIs(s[1..], k - 1);
      assert s[1..][k - 1..] == s[k..];
    } else {
      assert s[0..] == s;
    }
  }

  lemma {:induction false} DropAt(s: string) returns (k: nat)
    ensures k <= |s| && DropSpaces(s) == s[k..] && forall j :: 0 <= j < k ==> IsSpace(s[j])
  {
    k := 0;
    if s != [] && IsSpace(s[0]) {
      k := DropAt(s[1..]);
      assert s[1..][k..] == s[k + 1..];
      k := k + 1;
    } else {
      assert s[0..] == s;
    }
  }

  lemma {:induction false} WordLengthIs(s: string, n: nat)
    requires n <= |s| && (forall i :: 0 <= i < n ==> !IsSpace(s[i])) && (n < |s| ==> IsSpace(s[n]))
    ensures WordLength(s) == n
  {
    if n > 0 {
      WordLengthIs(s[1..], n - 1);
    }
  }

  /** Spaces around a word make no difference. */
  lemma FrameIgnored(str: string, w: string, i: nat, maxLen: int)
    requires FramedAt(str, w, i) && forall j :: 0 <= j < |w| ==> !IsSpace(w[j]) && w[j] as int != 0
    ensures DecodeOf(str, maxLen) == DecodeOf(w, maxLen)
  {
    assert 0 as char !in str by {
      forall j | 0 <= j < |str| ensures str[j] != 0 as char {
        assert i <= j < i + |w| ==> str[j] == w[j - i];
      }
    }
    DropIs(w, 0);
    if w == [] {
      DropIs(str, |str|);
      assert str[|str|..] == w;
    } else {
      assert str[i] == w[0];
      DropIs(str, i);
      TailIgnored(str[i..], w, maxLen);
    }
  }

  lemma TailIgnored(t: string, w: string, maxLen: int)
    requires w <= t && forall j :: 0 <= j < |w| ==> !IsSpace(w[j])
    requires forall j :: |w| <= j < |t| ==> IsSpace(t[j])
    ensures DecodeFrom(t, maxLen) == DecodeFrom(w, maxLen)
  {
    var z := Leading(w, '1');
    LeadingIs(t, '1', z);
    WordLengthIs(w[z..], |w| - z);
    WordLengthIs(t[z..], |w| - z);
    assert t[z..|w|] == w[z..|w|];
    DropIs(t[|w|..], |t| - |w|);
  }

  lemma EncodedChars(b: seq<nat>)
    requires IsDigits(256, b)
    ensures forall j :: 0 <= j < |EncodeOf(b)| ==> !IsSpace(EncodeOf(b)[j]) && EncodeOf(b)[j] as int != 0
  {
    var d := ToDigits(58, Num(256, b));
    ToDigitsNum(58, Num(256, b));
    CharsBack(d);
  }

  lemma AllSpaces(s: string)
    requires DropSpaces(s) == []
    ensures forall j :: 0 <= j < |s| ==> IsSpace(s[j])
  {
    var k := DropAt(s);
    assert |s[k..]| == |s| - k;
  }

  lemma FrameAround(str: string, i: nat, n: nat)
    requires i + n <= |str| && (forall j :: 0 <= j < i ==> IsSpace(str[j])) && DropSpaces(str[i + n..]) == []
    ensures FramedAt(str, str[i..i + n], i)
  {
    AllSpaces(str[i + n..]);
    forall j | i + n <= j < |str| ensures IsSpace(str[j]) {
      assert str[j] == str[i + n..][j - i - n];
    }
  }

  lemma Framing(str: string, maxLen: int) returns (i: nat)
    requires DecodeOf(str, maxLen).Some?
    ensures FramedAt(str, EncodeOf(DecodeOf(str, maxLen).value), i)
  {
    i := DropAt(str);
    ghost var n := WordLength(str[i..]);
    assert str[i..][n..] == str[i + n..] && str[i..][..n] == str[i..i + n];
    EncodeDecode(str, maxLen);
    FrameAround(str, i, n);
  }

  /** Exactly the encodings with nothing but spaces around them are accepted, if they are not too long. */
  lemma DecodeExact(str: string, maxLen: int, b: seq<nat>)
    requires IsDigits(256, b)
    ensures DecodeOf(str, maxLen) == Some(b) <==>
              (|b| <= maxLen || b == []) && exists i :: FramedAt(str, EncodeOf(b), i)
  {
    EncodedChars(b);
    if DecodeOf(str, maxLen) == Some(b) {
      var i := Framing(str, maxLen);
    }
    if i :| FramedAt(str, EncodeOf(b), i) {
      FrameIgnored(str, EncodeOf(b), i, maxLen);
    }
    if |b| <= maxLen {
      DecodeEncode(b, maxLen);
    } else {
      assert EncodeOf([]) == [];
    }
  }

  // ---------- With a checksum ----------

  /** The data followed by the first four bytes of its hash, encoded. */
  function EncodeCheckOf(hash: seq<nat> -> seq<nat>, b: seq<nat>): string
    requires |hash(b)| >= 4
  {
    EncodeOf(b + hash(b)[..4])
  }

  function DecodeCheckOf(hash: seq<nat> -> seq<nat>, str: string, maxLen: int): Option<seq<nat>>
    requires forall b :: |hash(b)| >= 4
  {
    var d := DecodeOf(str, maxLen + 4);
    if d.None? || |d.value| < 4 then None
    else
      var b := d.value[..|d.value| - 4];
      if hash(b)[..4] == d.value[|b|..] then Some(b) else None
  }

  /** A checked decoding returns `b` exactly for the checked encoding of `b` with nothing but spaces around it. */
  lemma CheckExact(hash: seq<nat> -> seq<nat>, str: string, maxLen: int, b: seq<nat>)
    requires forall x :: |hash(x)| >= 4 && IsDigits(256, hash(x))
    requires IsDigits(256, b)
    ensures DecodeCheckOf(hash, str, maxLen) == Some(b) <==>
              |b| <= maxLen && exists i :: FramedAt(str, EncodeCheckOf(hash, b), i)
  {
    var all := b + hash(b)[..4];
    DecodeExact(str, maxLen + 4, all);
    CheckedData(hash, str, maxLen, b);
    assert |all| == |b| + 4 && EncodeCheckOf(hash, b) == EncodeOf(all);
  }

  lemma CheckedData(hash: seq<nat> -> seq<nat>, str: string, maxLen: int, b: seq<nat>)
    requires forall x :: |hash(x)| >= 4
    ensures DecodeCheckOf(hash, str, maxLen) == Some(b) <==> DecodeOf(str, maxLen + 4) == Some(b + hash(b)[..4])
  {
    var d, all := DecodeOf(str, maxLen + 4), b + hash(b)[..4];
    assert all[..|all| - 4] == b && all[|b|..] == hash(b)[..4];
    if DecodeCheckOf(hash, str, maxLen) == Some(b) {
      assert d.value == d.value[..|b|] + d.value[|b|..];
    }
  }
}
