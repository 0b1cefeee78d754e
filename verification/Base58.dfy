/** Base58 (src/base58.cpp): bytes as text and back. */
module Base58 {
  import opened Bytes
  import opened Radix
  import opened Wrappers

  const ALPHABET: string :=
    "123456789" + "ABCDEFGH" + "JKLMN" + "PQRSTUVWXYZ" + "abcdefghijk" + "mnopqrstuvwxyz"

  // ---------------------------------------------------------------------------------------
  // Characters

  /** The character of a digit. */
  function Symbol(d: nat): char
    requires d < 58
  {
    if d < 9 then '1' + d as char
    else if d < 17 then 'A' + (d - 9) as char
    else if d < 22 then 'J' + (d - 17) as char
    else if d < 33 then 'P' + (d - 22) as char
    else if d < 44 then 'a' + (d - 33) as char
    else 'm' + (d - 44) as char
  }

  /** What strchr finds: the digit of a character, if it has one. */
  function Value(c: char): (d: Option<nat>)
    ensures d.Some? ==> d.value < 58
  {
    if '1' <= c <= '9' then Some(c as int - '1' as int)
    else if 'A' <= c <= 'H' then Some(c as int - 'A' as int + 9)
    else if 'J' <= c <= 'N' then Some(c as int - 'J' as int + 17)
    else if 'P' <= c <= 'Z' then Some(c as int - 'P' as int + 22)
    else if 'a' <= c <= 'k' then Some(c as int - 'a' as int + 33)
    else if 'm' <= c <= 'z' then Some(c as int - 'm' as int + 44)
    else None
  }

  lemma ValueOfSymbol(d: nat)
    requires d < 58
    ensures Value(Symbol(d)) == Some(d)
    ensures (Symbol(d) == '1' <==> d == 0) && !IsSpace(Symbol(d))
  {
  }

  lemma SymbolOfValue(c: char)
    requires Value(c).Some?
    ensures Symbol(Value(c).value) == c
  {
  }

  lemma SymbolsAreAlphabet(d: nat)
    requires d < 58
    ensures |ALPHABET| == 58 && ALPHABET[d] == Symbol(d)
  {
    assert d < 9 ==> "123456789"[d] == Symbol(d);
    assert 9 <= d < 17 ==> "ABCDEFGH"[d - 9] == Symbol(d);
    assert 17 <= d < 22 ==> "JKLMN"[d - 17] == Symbol(d);
    assert 22 <= d < 33 ==> "PQRSTUVWXYZ"[d - 22] == Symbol(d);
    assert 33 <= d < 44 ==> "abcdefghijk"[d - 33] == Symbol(d);
    assert 44 <= d ==> "mnopqrstuvwxyz"[d - 44] == Symbol(d);
  }

  // ---------------------------------------------------------------------------------------
  // The buffers are large enough

  /** The powers below which both buffer sizes are checked. */
  lemma SmallPowers()
    ensures Pow(58, 0) == 1
    ensures Pow(58, 1) == 58
    ensures Pow(58, 2) == 3364
    ensures Pow(58, 3) == 195112
    ensures Pow(58, 4) == 11316496
    ensures Pow(58, 5) == 656356768
    ensures Pow(58, 6) == 38068692544
    ensures Pow(58, 7) == 2207984167552
    ensures Pow(58, 8) == 128063081718016
    ensures Pow(58, 9) == 7427658739644928
    ensures Pow(58, 10) == 430804206899405824
    ensures Pow(58, 11) == 24986644000165537792
    ensures Pow(58, 12) == 1449225352009601191936
    ensures Pow(58, 13) == 84055070416556869132288
    ensures Pow(58, 14) == 4875194084160298409672704
    ensures Pow(58, 15) == 282761256881297307761016832
    ensures Pow(256, 0) == 1
    ensures Pow(256, 1) == 256
    ensures Pow(256, 2) == 65536
    ensures Pow(256, 3) == 16777216
    ensures Pow(256, 4) == 4294967296
    ensures Pow(256, 5) == 1099511627776
    ensures Pow(256, 6) == 281474976710656
    ensures Pow(256, 7) == 72057594037927936
    ensures Pow(256, 8) == 18446744073709551616
    ensures Pow(256, 9) == 4722366482869645213696
    ensures Pow(256, 10) == 1208925819614629174706176
    ensures Pow(256, 11) == 309485009821345068724781056
  {
    assert Pow(58, 1) == 58 * Pow(58, 0);
    assert Pow(58, 2) == 58 * Pow(58, 1);
    assert Pow(58, 3) == 58 * Pow(58, 2);
    assert Pow(58, 4) == 58 * Pow(58, 3);
    assert Pow(58, 5) == 58 * Pow(58, 4);
    assert Pow(58, 6) == 58 * Pow(58, 5);
    assert Pow(58, 7) == 58 * Pow(58, 6);
    assert Pow(58, 8) == 58 * Pow(58, 7);
    assert Pow(58, 9) == 58 * Pow(58, 8);
    assert Pow(58, 10) == 58 * Pow(58, 9);
    assert Pow(58, 11) == 58 * Pow(58, 10);
    assert Pow(58, 12) == 58 * Pow(58, 11);
    assert Pow(58, 13) == 58 * Pow(58, 12);
    assert Pow(58, 14) == 58 * Pow(58, 13);
    assert Pow(58, 15) == 58 * Pow(58, 14);
    assert Pow(256, 1) == 256 * Pow(256, 0);
    assert Pow(256, 2) == 256 * Pow(256, 1);
    assert Pow(256, 3) == 256 * Pow(256, 2);
    assert Pow(256, 4) == 256 * Pow(256, 3);
    assert Pow(256, 5) == 256 * Pow(256, 4);
    assert Pow(256, 6) == 256 * Pow(256, 5);
    assert Pow(256, 7) == 256 * Pow(256, 6);
    assert Pow(256, 8) == 256 * Pow(256, 7);
    assert Pow(256, 9) == 256 * Pow(256, 8);
    assert Pow(256, 10) == 256 * Pow(256, 9);
    assert Pow(256, 11) == 256 * Pow(256, 10);
  }

  lemma SmallEncode(n: nat)
    requires n < 8
    ensures Pow(256, n) <= Pow(58, n * 138 / 100 + 1)
  {
    SmallPowers();
  }

  lemma {:induction false} EncodeFits(n: nat)
    ensures Pow(256, n) <= Pow(58, n * 138 / 100 + 1)
  {
    if n < 8 {
      SmallEncode(n);
    } else {
      EncodeFits(n - 8);
      SmallPowers();
      hide Pow;
      var m := (n - 8) * 138 / 100 + 1;
      PowPlus(256, 8, n - 8);
      PowPlus(58, 11, m);
      TimesMono(Pow(256, 8), Pow(256, n - 8), Pow(58, 11), Pow(58, m));
      PowGrows(58, 11 + m, n * 138 / 100 + 1);
    }
  }

  lemma SmallDecode(n: nat)
    requires n < 15
    ensures Pow(58, n) <= Pow(256, if n == 0 then 0 else n * 733 / 1000 + 1)
  {
    SmallPowers();
  }

  lemma Fifteen()
    ensures Pow(58, 15) <= Pow(256, 11)
  {
    SmallPowers();
  }

  lemma SeventyOne()
    ensures Pow(58, 71) <= Pow(256, 52)
  {
    SmallPowers();
    PowPlus(58, 60, 11);
    PowTimes(58, 15, 4);
    PowPlus(256, 44, 8);
    PowTimes(256, 11, 4);
  }

  lemma FitsPlus(b: nat, c: nat, m: nat, k: nat, n: nat, j: nat, i: nat)
    requires c > 0 && Pow(b, m) <= Pow(c, k) && Pow(b, n) <= Pow(c, j) && k + j <= i
    ensures Pow(b, m + n) <= Pow(c, i)
  {
    hide Pow;
    PowPlus(b, m, n);
    PowPlus(c, k, j);
    TimesMono(Pow(b, m), Pow(b, n), Pow(c, k), Pow(c, j));
    PowGrows(c, k + j, i);
  }

  lemma FitsTimes(b: nat, c: nat, m: nat, k: nat, n: nat)
    requires Pow(b, m) <= Pow(c, k)
    ensures Pow(b, m * n) <= Pow(c, k * n)
  {
    PowTimes(b, m, n);
    PowTimes(c, k, n);
    PowMono(Pow(b, m), Pow(c, k), n);
  }

  lemma Thousandths(x: nat, q: nat, r: nat)
    requires x == 1000 * q + r && r < 1000
    ensures x / 1000 == q
  {
  }

  lemma MediumSize(a: nat, b: nat)
    requires a <= 4 && b < 15
    ensures 11 * a + (if b == 0 then 0 else b * 733 / 1000 + 1) <= (15 * a + b) * 733 / 1000 + 1
  {
    if b == 0 {
      if a > 0 {
        Thousandths(15 * a * 733, 11 * a - 1, 1000 - 5 * a);
      }
    } else {
      var (q, r) := SmallRest(b);
      Thousandths(b * 733, q, r);
      Thousandths((15 * a + b) * 733, 11 * a + q, r - 5 * a);
    }
  }

  function SmallRest(b: nat): (parts: (nat, nat))
    requires 1 <= b < 15
    ensures b * 733 == 1000 * parts.0 + parts.1 && 20 <= parts.1 < 1000
  {
    match b
    case 1 => (0, 733)
    case 2 => (1, 466)
    case 3 => (2, 199)
    case 4 => (2, 932)
    case 5 => (3, 665)
    case 6 => (4, 398)
    case 7 => (5, 131)
    case 8 => (5, 864)
    case 9 => (6, 597)
    case 10 => (7, 330)
    case 11 => (8, 63)
    case 12 => (8, 796)
    case 13 => (9, 529)
    case _ => (10, 262)
  }

  /** Up to four times fifteen digits, and fewer than fifteen more. */
  lemma MediumDecode(a: nat, b: nat)
    requires a <= 4 && b < 15
    ensures Pow(58, 15 * a + b) <= Pow(256, (15 * a + b) * 733 / 1000 + 1)
  {
    hide Pow;
    SmallDecode(b);
    Fifteen();
    MediumSize(a, b);
    var c := if b == 0 then 0 else b * 733 / 1000 + 1;
    FitsTimes(58, 256, 15, 11, a);
    FitsPlus(58, 256, 15 * a, 11 * a, b, c, (15 * a + b) * 733 / 1000 + 1);
  }

  lemma {:induction false} DecodeFits(n: nat)
    ensures Pow(58, n) <= Pow(256, n * 733 / 1000 + 1)
  {
    hide Pow;
    if n < 71 {
      MediumDecode(n / 15, n % 15);
    } else {
      DecodeFits(n - 71);
      SeventyOne();
      FitsPlus(58, 256, 71, 52, n - 71, (n - 71) * 733 / 1000 + 1, n * 733 / 1000 + 1);
    }
  }

  // ---------------------------------------------------------------------------------------
  // Encoding

  /** The text of bytes: a '1' for each leading zero, then the base 58 digits of the rest. */
  function Encoded(vch: seq<byte>): string {
    Ones(Zeroes(vch)) + Text(Digits(58, Num(256, vch)))
  }

  function Ones(n: nat): (s: string)
    ensures |s| == n && forall i :: 0 <= i < n ==> s[i] == '1'
  {
    if n == 0 then "" else Ones(n - 1) + "1"
  }

  function Text(digits: seq<nat>): (s: string)
    requires InBase(58, digits)
    ensures |s| == |digits| && forall i :: 0 <= i < |s| ==> s[i] == Symbol(digits[i])
  {
    if digits == [] then "" else Text(digits[..|digits| - 1]) + [Symbol(digits[|digits| - 1])]
  }

  method CountZeroes(b: seq<nat>) returns (n: nat)
    ensures n == Zeroes(b)
  {
    n := 0;
    while n < |b| && b[n] == 0
      invariant n <= |b| && Zeroes(b) == n + Zeroes(b[n..])
    {
      n := n + 1;
    }
  }

  /** Without its leading zeroes a buffer holds the shortest digits of its number. */
  lemma ShortestDigits(base: nat, b: seq<nat>)
    requires base > 1 && InBase(base, b)
    ensures b[Zeroes(b)..] == Digits(base, Num(base, b))
  {
    var n := Zeroes(b);
    NumSkipsZeroes(base, b, n);
    DigitsOfNum(base, b[n..]);
  }

  /** "b = b * factor + d" does not overflow a buffer that is large enough: the carry is zero. */
  lemma NoCarry(base: nat, factor: nat, d: nat, carry: nat, after: seq<nat>, before: seq<nat>)
    requires base > 0 && InBase(base, after) && Balanced(base, factor, d, carry, after, before)
    requires Num(base, before) * factor + d < Pow(base, |after|)
    ensures carry == 0 && Num(base, after) == Num(base, before) * factor + d
  {
    hide Num, Pow;
    if carry > 0 {
      TimesMono(1, Pow(base, |after|), carry, Pow(base, |after|));
    }
  }

  /** One round of either conversion; the assertion that no carry is left holds. */
  method Absorb(b: array<nat>, base: nat, factor: nat, d: nat)
    requires base > 0 && InBase(base, b[..])
    requires Num(base, b[..]) * factor + d < Pow(base, b.Length)
    modifies b
    ensures InBase(base, b[..]) && Num(base, b[..]) == Num(base, old(b[..])) * factor + d
  {
    hide Num, Pow, Balanced;
    var carry := MultiplyAdd(b, base, factor, d);
    NoCarry(base, factor, d, carry, b[..], old(b[..]));
    assert carry == 0;
  }

  /** The loop of EncodeBase58 over the bytes after the leading zeroes. */
  method EncodeDigits(rest: seq<byte>) returns (b58: array<nat>)
    ensures fresh(b58) && InBase(58, b58[..]) && Num(58, b58[..]) == Num(256, rest)
  {
    b58 := new nat[|rest| * 138 / 100 + 1](i => 0);
    AllZero(58, b58[..]);
    assert rest[..0] == [] && rest[..|rest|] == rest;
    for k := 0 to |rest|
      invariant InBase(58, b58[..])
      invariant Num(58, b58[..]) == Num(256, rest[..k])
    {
      assert rest[..k + 1] == rest[..k] + [rest[k]];
      EncodeStep(rest[..k], rest[k], |rest|);
      Absorb(b58, 58, 256, rest[k]);
    }
  }

  method EncodeBase58(vch: seq<byte>) returns (str: string)
    ensures str == Encoded(vch)
  {
    var zeroes := CountZeroes(vch);
    NumSkipsZeroes(256, vch, zeroes);
    var b58 := EncodeDigits(vch[zeroes..]);
    var skip := CountZeroes(b58[..]);
    ShortestDigits(58, b58[..]);
    str := Ones(zeroes) + Text(b58[skip..]);
  }

  /** Some of n bytes and one more make a number below the size of the buffer for n. */
  lemma EncodeStep(s: seq<nat>, d: byte, n: nat)
    requires InBase(256, s) && |s| < n
    ensures Num(256, s + [d]) == Num(256, s) * 256 + d < Pow(58, n * 138 / 100 + 1)
  {
    hide Num, Pow;
    EncodeFits(n);
    FitsMore(58, 256, s, d, n, n * 138 / 100 + 1);
  }

  /** One digit more, of at most n, fits a buffer that n digits fit. */
  lemma FitsMore(base: nat, factor: nat, s: seq<nat>, d: nat, n: nat, length: nat)
    requires factor > 0 && InBase(factor, s) && d < factor && |s| < n && Pow(factor, n) <= Pow(base, length)
    ensures Num(factor, s + [d]) == Num(factor, s) * factor + d < Pow(base, length)
  {
    hide Num, Pow;
    NumPrefix(factor, s, d);
    NumBelow(factor, s + [d]);
    PowGrows(factor, |s| + 1, n);
  }

  // ---------------------------------------------------------------------------------------
  // Decoding

  /** isspace, in the C locale. */
  predicate IsSpace(c: char) {
    c == ' ' || ('\t' <= c <= '\r')
  }

  /** Blank, tabs, line feed, form feed and carriage return. */
  lemma SpaceCodes(c: char)
    ensures IsSpace(c) <==> c as int in {9, 10, 11, 12, 13, 32}
  {
  }

  function Spaces(s: string): (n: nat)
    ensures n <= |s| && (forall i :: 0 <= i < n ==> IsSpace(s[i])) && (n < |s| ==> !IsSpace(s[n]))
  {
    if s != "" && IsSpace(s[0]) then 1 + Spaces(s[1..]) else 0
  }

  function LeadingOnes(s: string): (n: nat)
    ensures n <= |s| && (forall i :: 0 <= i < n ==> s[i] == '1') && (n < |s| ==> s[n] != '1')
  {
    if s != "" && s[0] == '1' then 1 + LeadingOnes(s[1..]) else 0
  }

  /** The length of the text before a space. */
  function WordLength(s: string): (n: nat)
    ensures n <= |s| && (forall i :: 0 <= i < n ==> !IsSpace(s[i])) && (n < |s| ==> IsSpace(s[n]))
  {
    if s != "" && !IsSpace(s[0]) then 1 + WordLength(s[1..]) else 0
  }

  predicate IsBase58(s: string) {
    forall i :: 0 <= i < |s| ==> Value(s[i]).Some?
  }

  function Values(s: string): (digits: seq<nat>)
    requires IsBase58(s)
    ensures |digits| == |s| && InBase(58, digits)
    ensures forall i :: 0 <= i < |s| ==> digits[i] == Value(s[i]).value
  {
    if s == "" then [] else Values(s[..|s| - 1]) + [Value(s[|s| - 1]).value]
  }

  function ZeroBytes(n: nat): (s: seq<byte>)
    ensures |s| == n && forall i :: 0 <= i < n ==> s[i] == 0
  {
    if n == 0 then [] else ZeroBytes(n - 1) + [0]
  }

  /** The bytes of a text: spaces may surround it, each leading '1' is a zero byte, and every other
      character must be a base 58 digit. */
  function Decoded(psz: string): Option<seq<byte>> {
    var text := psz[Spaces(psz)..];
    AfterOnes(LeadingOnes(text), text[LeadingOnes(text)..])
  }

  /** The bytes for a text after its leading ones. */
  function AfterOnes(zeroes: nat, rest: string): Option<seq<byte>> {
    var word := rest[..WordLength(rest)];
    if !IsBase58(word) || Spaces(rest[|word|..]) != |rest| - |word| then None
    else Some(ZeroBytes(zeroes) + Digits(256, Num(58, Values(word))))
  }

  method SkipSpaces(s: string, start: nat) returns (k: nat)
    requires start <= |s|
    ensures k == start + Spaces(s[start..])
  {
    k := start;
    while k < |s| && IsSpace(s[k])
      invariant start <= k <= |s| && start + Spaces(s[start..]) == k + Spaces(s[k..])
    {
      k := k + 1;
    }
  }

  method SkipOnes(s: string, start: nat) returns (k: nat)
    requires start <= |s|
    ensures k == start + LeadingOnes(s[start..])
  {
    k := start;
    while k < |s| && s[k] == '1'
      invariant start <= k <= |s| && start + LeadingOnes(s[start..]) == k + LeadingOnes(s[k..])
    {
      k := k + 1;
    }
  }

  /** The loop of DecodeBase58 over the characters up to a space: the number they stand for, if all of
      them are digits. The buffer also has room for what follows. */
  method DecodeDigits(rest: string) returns (ok: bool, b256: array<nat>)
    ensures fresh(b256) && InBase(256, b256[..])
    ensures ok <==> IsBase58(rest[..WordLength(rest)])
    ensures ok ==> Num(256, b256[..]) == Num(58, Values(rest[..WordLength(rest)]))
  {
    hide Num, Pow, IsSpace, Value, Values, WordLength;
    b256 := new nat[|rest| * 733 / 1000 + 1](i => 0);
    AllZero(256, b256[..]);
    var k := 0;
    NothingDecoded(rest);
    assert rest[k..] == rest;
    while k < |rest| && !IsSpace(rest[k])
      invariant k <= |rest| && WordLength(rest) == k + WordLength(rest[k..])
      invariant IsBase58(rest[..k]) && InBase(256, b256[..])
      invariant Num(256, b256[..]) == Num(58, Values(rest[..k]))
    {
      if Value(rest[k]) == None {
        WordStep(rest, k);
        assert rest[..WordLength(rest)][k] == rest[k];
        return false, b256;
      }
      DecodeOne(rest, k, b256);
      WordStep(rest, k);
      k := k + 1;
    }
    WordEnds(rest, k);
    ok := true;
  }

  lemma NothingDecoded(rest: string)
    ensures IsBase58(rest[..0]) && Num(58, Values(rest[..0])) == 0
  {
    assert rest[..0] == "";
  }

  lemma WordStep(rest: string, k: nat)
    requires k < |rest| && !IsSpace(rest[k])
    ensures WordLength(rest[k..]) == 1 + WordLength(rest[k + 1..])
  {
    hide IsSpace;
    assert rest[k..][1..] == rest[k + 1..];
  }

  lemma WordEnds(rest: string, k: nat)
    requires k <= |rest| && (k < |rest| ==> IsSpace(rest[k]))
    ensures WordLength(rest[k..]) == 0
  {
    hide IsSpace;
  }

  method DecodeOne(rest: string, k: nat, b256: array<nat>)
    requires k < |rest| && IsBase58(rest[..k]) && Value(rest[k]).Some? && InBase(256, b256[..])
    requires b256.Length == |rest| * 733 / 1000 + 1 && Num(256, b256[..]) == Num(58, Values(rest[..k]))
    modifies b256
    ensures IsBase58(rest[..k + 1]) && InBase(256, b256[..])
    ensures Num(256, b256[..]) == Num(58, Values(rest[..k + 1]))
  {
    hide Num, Pow, Value, Values;
    DecodeStep(rest, k);
    Absorb(b256, 256, 58, Value(rest[k]).value);
  }

  lemma DecodeStep(rest: string, k: nat)
    requires k < |rest| && IsBase58(rest[..k]) && Value(rest[k]).Some?
    ensures IsBase58(rest[..k + 1])
    ensures Num(58, Values(rest[..k + 1])) == Num(58, Values(rest[..k])) * 58 + Value(rest[k]).value
    ensures Num(58, Values(rest[..k + 1])) < Pow(256, |rest| * 733 / 1000 + 1)
  {
    hide Num, Pow, Value, Values, IsBase58;
    ValuesPlus(rest, k);
    DigitsFit(Values(rest[..k]), Value(rest[k]).value, |rest|);
  }

  lemma DigitsFit(s: seq<nat>, d: nat, n: nat)
    requires InBase(58, s) && d < 58 && |s| < n
    ensures Num(58, s + [d]) == Num(58, s) * 58 + d < Pow(256, n * 733 / 1000 + 1)
  {
    hide Num, Pow;
    DecodeFits(n);
    FitsMore(256, 58, s, d, n, n * 733 / 1000 + 1);
  }

  lemma ValuesPlus(s: string, k: nat)
    requires k < |s| && IsBase58(s[..k]) && Value(s[k]).Some?
    ensures IsBase58(s[..k + 1]) && Values(s[..k + 1]) == Values(s[..k]) + [Value(s[k]).value]
  {
    assert s[..k + 1][..k] == s[..k];
  }

  /** Decoding a text whose spaces and ones end at a place. */
  lemma DecodedFrom(psz: string, start: nat, first: nat)
    requires start == Spaces(psz) && first == start + LeadingOnes(psz[start..])
    ensures var rest := psz[first..];
            var length := WordLength(rest);
            Decoded(psz)
            == if !IsBase58(rest[..length]) || Spaces(psz[first + length..]) != |psz| - (first + length) then None
               else Some(ZeroBytes(first - start) + Digits(256, Num(58, Values(rest[..length]))))
  {
    hide Num, Digits, Values, IsSpace, IsBase58, Spaces, LeadingOnes, WordLength, ZeroBytes, InBase, Value, Decoded;
    DecodedRest(psz, start, first);
    DropDrop(psz, first, first + WordLength(psz[first..]));
  }

  lemma DecodedRest(psz: string, start: nat, first: nat)
    requires start == Spaces(psz) && first == start + LeadingOnes(psz[start..])
    ensures Decoded(psz) == AfterOnes(first - start, psz[first..])
  {
    hide AfterOnes, IsSpace, Spaces, LeadingOnes;
    DropDrop(psz, start, first);
  }

  lemma DropDrop(s: string, i: nat, j: nat)
    requires i <= j <= |s|
    ensures s[i..][j - i..] == s[j..] && |s[j..]| == |s| - j
  {
  }

  method DecodeBase58(psz: string) returns (ok: bool, vch: seq<byte>)
    ensures (if ok then Some(vch) else None) == Decoded(psz)
  {
    hide Num, Digits, Values, IsSpace, IsBase58, Spaces, LeadingOnes, WordLength, ZeroBytes, InBase, Decoded;
    vch := [];
    var start := SkipSpaces(psz, 0);
    assert psz[0..] == psz;
    var first := SkipOnes(psz, start);
    DecodedFrom(psz, start, first);
    var b256;
    ok, b256 := DecodeDigits(psz[first..]);
    if !ok {
      return;
    }
    var length := WordLength(psz[first..]);
    var end := SkipSpaces(psz, first + length);
    if end != |psz| {
      return false, [];
    }
    vch := Extract(first - start, b256);
  }

  /** The end of DecodeBase58: zero bytes, then the buffer without its leading zeroes. */
  method Extract(zeroes: nat, b256: array<nat>) returns (vch: seq<byte>)
    requires InBase(256, b256[..])
    ensures vch == ZeroBytes(zeroes) + Digits(256, Num(256, b256[..]))
  {
    var skip := CountZeroes(b256[..]);
    ShortestDigits(256, b256[..]);
    vch := ZeroBytes(zeroes) + b256[skip..];
  }

  // ---------------------------------------------------------------------------------------
  // Round trips

  lemma ZeroesOfZeroBytes(n: nat, rest: seq<byte>)
    requires rest != [] ==> rest[0] != 0
    ensures Zeroes(ZeroBytes(n) + rest) == n
  {
    var s := ZeroBytes(n) + rest;
    assert rest != [] ==> s[n] == rest[0];
  }

  lemma OnesBeforeText(n: nat, digits: seq<nat>)
    requires InBase(58, digits) && (digits != [] ==> digits[0] != 0)
    ensures var s := Ones(n) + Text(digits);
            && LeadingOnes(s) == n && s[n..] == Text(digits)
            && IsBase58(s) && forall i :: 0 <= i < |s| ==> !IsSpace(s[i])
  {
    hide Symbol, Value, IsSpace;
    var s := Ones(n) + Text(digits);
    ValueOfSymbol(0);
    forall i | 0 <= i < |s|
      ensures Value(s[i]).Some? && !IsSpace(s[i])
    {
      ValueOfSymbol(if i < n then 0 else digits[i - n]);
    }
    if digits != [] {
      ValueOfSymbol(digits[0]);
      assert s[n] == Symbol(digits[0]);
    }
  }

  lemma ValuesOfText(digits: seq<nat>)
    requires InBase(58, digits)
    ensures IsBase58(Text(digits)) && Values(Text(digits)) == digits
  {
    forall i | 0 <= i < |digits|
      ensures Value(Text(digits)[i]) == Some(digits[i])
    {
      ValueOfSymbol(digits[i]);
    }
  }

  lemma TextOfValues(s: string)
    requires IsBase58(s)
    ensures Text(Values(s)) == s
  {
    forall i | 0 <= i < |s|
      ensures Symbol(Values(s)[i]) == s[i]
    {
      SymbolOfValue(s[i]);
    }
  }

  lemma NoSpaces(s: string)
    requires forall i :: 0 <= i < |s| ==> !IsSpace(s[i])
    ensures Spaces(s) == 0 && WordLength(s) == |s|
  {
  }

  /** Decoding a text without spaces. */
  lemma DecodedText(psz: string, z: nat)
    requires z <= |psz| && LeadingOnes(psz) == z && IsBase58(psz[z..])
    requires forall i :: 0 <= i < |psz| ==> !IsSpace(psz[i])
    ensures Decoded(psz) == Some(ZeroBytes(z) + Digits(256, Num(58, Values(psz[z..]))))
  {
    hide Num, Digits, Values, IsSpace, IsBase58;
    NoSpaces(psz);
    NoSpaces(psz[z..]);
    assert psz[0..] == psz && psz[z..] + "" == psz[z..];
    DecodedParts(psz, 0, z, psz[z..], "");
  }

  /** Decoding what was encoded gives the bytes back, for all bytes. */
  lemma DecodeEncode(vch: seq<byte>)
    ensures Decoded(Encoded(vch)) == Some(vch)
  {
    hide Num, Digits, Values, Text, IsSpace, Decoded;
    var z := Zeroes(vch);
    var digits := Digits(58, Num(256, vch));
    OnesBeforeText(z, digits);
    ValuesOfText(digits);
    DecodedText(Encoded(vch), z);
    NumOfDigits(58, Num(256, vch));
    ShortestDigits(256, vch);
    assert ZeroBytes(z) + vch[z..] == vch;
  }

  /** Encoding what was decoded gives the text back, if it had no spaces around it: every string of bytes
      has one text only. */
  lemma EncodeDecode(psz: string)
    requires Decoded(psz).Some? && forall i :: 0 <= i < |psz| ==> !IsSpace(psz[i])
    ensures Encoded(Decoded(psz).value) == psz
  {
    hide Num, Digits, Values, Text, IsSpace, Decoded, Encoded, IsBase58;
    var z := LeadingOnes(psz);
    var word := psz[z..];
    DecodedWord(psz);
    DecodedText(psz, z);
    FirstDigit(word);
    EncodedDigits(z, Values(word));
    TextOfValues(word);
    assert Ones(z) + word == psz;
  }

  lemma EncodedDigits(z: nat, digits: seq<nat>)
    requires InBase(58, digits) && (digits != [] ==> digits[0] != 0)
    ensures Encoded(ZeroBytes(z) + Digits(256, Num(58, digits))) == Ones(z) + Text(digits)
  {
    hide Num, Digits, Text;
    var rest := Digits(256, Num(58, digits));
    ZeroesOfZeroBytes(z, rest);
    var vch: seq<byte> := ZeroBytes(z) + rest;
    assert vch[z..] == rest;
    NumSkipsZeroes(256, vch, z);
    NumOfDigits(256, Num(58, digits));
    DigitsOfNum(58, digits);
  }

  lemma DecodedWord(psz: string)
    requires Decoded(psz).Some? && forall i :: 0 <= i < |psz| ==> !IsSpace(psz[i])
    ensures IsBase58(psz[LeadingOnes(psz)..])
  {
    hide Num, Digits, Values, IsSpace, IsBase58, Decoded, Spaces, LeadingOnes, WordLength;
    NoSpaces(psz);
    assert psz[0..] == psz;
    DecodedRest(psz, 0, LeadingOnes(psz));
    var word := psz[LeadingOnes(psz)..];
    NoSpaces(word);
    assert word[..|word|] == word;
  }

  lemma FirstDigit(s: string)
    requires IsBase58(s) && (s != "" ==> s[0] != '1')
    ensures s != "" ==> Values(s)[0] != 0
  {
    if s != "" {
      SymbolOfValue(s[0]);
      ValueOfSymbol(Values(s)[0]);
    }
  }

  /** Spaces around a text make no difference. */
  lemma DecodeTrims(before: string, text: string, after: string)
    requires forall i :: 0 <= i < |before| ==> IsSpace(before[i])
    requires forall i :: 0 <= i < |after| ==> IsSpace(after[i])
    requires text != "" && forall i :: 0 <= i < |text| ==> !IsSpace(text[i])
    ensures Decoded(before + text + after) == Decoded(text)
  {
    hide Num, Digits, Values, IsSpace, IsBase58, Decoded;
    var psz := before + text + after;
    var z := LeadingOnes(text);
    SpacesAre(psz, |before|);
    assert psz[|before|..] == text + after;
    LeadingOnesAre(text + after, z);
    assert (text + after)[z..] == text[z..] + after;
    WordLengthIs(text[z..] + after, |text| - z);
    SpacesAre(after, |after|);
    DecodedParts(psz, |before|, z, text[z..], after);
    NoSpaces(text);
    NoSpaces(text[z..]);
    DecodedParts(text, 0, z, text[z..], "");
  }

  /** Decoding a text of known parts. */
  lemma DecodedParts(psz: string, a: nat, z: nat, word: string, after: string)
    requires Spaces(psz) == a && LeadingOnes(psz[a..]) == z && psz[a..][z..] == word + after
    requires WordLength(word + after) == |word| && Spaces(after) == |after|
    ensures Decoded(psz)
            == if IsBase58(word) then Some(ZeroBytes(z) + Digits(256, Num(58, Values(word)))) else None
  {
    hide Num, Digits, Values, IsSpace, IsBase58;
    assert (word + after)[..|word|] == word && (word + after)[|word|..] == after;
  }

  lemma SpacesAre(s: string, n: nat)
    requires n <= |s| && (forall i :: 0 <= i < n ==> IsSpace(s[i])) && (n < |s| ==> !IsSpace(s[n]))
    ensures Spaces(s) == n
  {
  }

  lemma LeadingOnesAre(s: string, n: nat)
    requires n <= |s| && (forall i :: 0 <= i < n ==> s[i] == '1') && (n < |s| ==> s[n] != '1')
    ensures LeadingOnes(s) == n
  {
  }

  lemma WordLengthIs(s: string, n: nat)
    requires n <= |s| && (forall i :: 0 <= i < n ==> !IsSpace(s[i])) && (n < |s| ==> IsSpace(s[n]))
    ensures WordLength(s) == n
  {
  }

  // ---------------------------------------------------------------------------------------
  // With a checksum

  /** The first four bytes of the hash. */
  type Checksum = c: seq<byte> | |c| == 4 witness [0, 0, 0, 0]

  function EncodedCheck(hash: seq<byte> -> Checksum, vch: seq<byte>): string {
    Encoded(vch + hash(vch))
  }

  function DecodedCheck(hash: seq<byte> -> Checksum, psz: string): Option<seq<byte>> {
    match Decoded(psz)
    case None => None
    case Some(vch) =>
      if |vch| < 4 || hash(vch[..|vch| - 4]) != vch[|vch| - 4..] then None else Some(vch[..|vch| - 4])
  }

  method EncodeBase58Check(hash: seq<byte> -> Checksum, vchIn: seq<byte>) returns (str: string)
    ensures str == EncodedCheck(hash, vchIn)
  {
    str := EncodeBase58(vchIn + hash(vchIn));
  }

  method DecodeBase58Check(hash: seq<byte> -> Checksum, psz: string) returns (ok: bool, vchRet: seq<byte>)
    ensures (if ok then Some(vchRet) else None) == DecodedCheck(hash, psz)
    ensures !ok ==> vchRet == []
  {
    ok, vchRet := DecodeBase58(psz);
    if !ok || |vchRet| < 4 {
      return false, [];
    }
    if hash(vchRet[..|vchRet| - 4]) != vchRet[|vchRet| - 4..] {
      return false, [];
    }
    vchRet := vchRet[..|vchRet| - 4];
  }

  /** The checksum comes after the bytes: a text has a checked decoding just if it decodes to some bytes with their
      checksum behind. */
  lemma ChecksumBehind(hash: seq<byte> -> Checksum, vch: seq<byte>, psz: string)
    ensures Decoded(EncodedCheck(hash, vch)) == Some(vch + hash(vch))
    ensures DecodedCheck(hash, psz) == Some(vch) <==> Decoded(psz) == Some(vch + hash(vch))
  {
    hide Decoded, Encoded;
    DecodeEncode(vch + hash(vch));
    var all := vch + hash(vch);
    assert all[..|vch|] == vch && all[|vch|..] == hash(vch);
    if DecodedCheck(hash, psz) == Some(vch) {
      var found := Decoded(psz).value;
      assert found == found[..|found| - 4] + found[|found| - 4..];
    }
  }

  /** With a checksum too decoding undoes encoding; and without spaces around it a text is accepted only if
      it is the encoding of some bytes: no other checksum, and no other text, passes for them. */
  lemma CheckRoundTrip(hash: seq<byte> -> Checksum, vch: seq<byte>, psz: string)
    requires forall i :: 0 <= i < |psz| ==> !IsSpace(psz[i])
    ensures DecodedCheck(hash, psz) == Some(vch) <==> psz == EncodedCheck(hash, vch)
  {
    hide Decoded, Encoded, IsSpace;
    var all := vch + hash(vch);
    DecodeEncode(all);
    assert all[..|vch|] == vch && all[|vch|..] == hash(vch);
    if DecodedCheck(hash, psz) == Some(vch) {
      EncodeDecode(psz);
      var found := Decoded(psz).value;
      assert found == found[..|found| - 4] + found[|found| - 4..];
    }
  }
}
