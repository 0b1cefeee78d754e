/** Compact amounts (CTxOutCompressor, src/compressor.cpp): a bijection of the natural numbers, and exactly the
    amounts that survive it in 64 bits. */
module Amounts {
  import opened Radix

  /** The size of uint64_t. */
  const U64: nat := 0x1_0000_0000_0000_0000

  /** Dividing by ten, at most nine times in all: what is left, and the exponent. */
  function Strip(n: nat, e: nat): (r: (nat, nat))
    requires e <= 9
    ensures e <= r.1 <= 9 && (r.1 < 9 ==> r.0 % 10 != 0)
    decreases 9 - e
  {
    if n % 10 == 0 && e < 9 then Strip(n / 10, e + 1) else (n, e)
  }

  function Compressed(n: nat): nat {
    if n == 0 then 0 else
    var (m, e) := Strip(n, 0);
    if e < 9 then 1 + (m / 10 * 9 + m % 10 - 1) * 10 + e
    else StripPositive(n, 0); 1 + (m - 1) * 10 + 9
  }

  function Decompressed(x: nat): nat {
    if x == 0 then 0 else
    var (e, y) := ((x - 1) % 10, (x - 1) / 10);
    (if e < 9 then y / 9 * 10 + y % 9 + 1 else y + 1) * Pow(10, e)
  }

  lemma {:induction false} StripPositive(n: nat, e: nat)
    requires n > 0 && e <= 9
    ensures Strip(n, e).0 > 0
    decreases 9 - e
  {
    if n % 10 == 0 && e < 9 {
      StripPositive(n / 10, e + 1);
    }
  }

  lemma TenTimes(m: nat, k: nat)
    requires k > 0
    ensures m * Pow(10, k) == 10 * (m * Pow(10, k - 1))
  {
    var p := Pow(10, k - 1);
    assert Pow(10, k) == 10 * p;
    Associate(10, m, p);
    Associate(m, 10, p);
  }

  lemma {:induction false} StripIs(n: nat, e: nat)
    requires e <= 9
    ensures var (m, f) := Strip(n, e); n == m * Pow(10, f - e)
    decreases 9 - e
  {
    hide Pow;
    if n % 10 == 0 && e < 9 {
      StripIs(n / 10, e + 1);
      var (m, f) := Strip(n, e);
      TenTimes(m, f - e);
    } else {
      NoTens();
    }
  }

  lemma NoTens()
    ensures Pow(10, 0) == 1
  {
  }

  lemma {:induction false} StripScaled(m: nat, k: nat, e: nat)
    requires e + k <= 9 && (m % 10 != 0 || e + k == 9)
    ensures Strip(m * Pow(10, k), e) == (m, e + k)
  {
    hide Pow;
    if k > 0 {
      TenTimes(m, k);
      StripScaled(m, k - 1, e + 1);
      TenthOf(m * Pow(10, k - 1), e);
    } else {
      NoTens();
    }
  }

  lemma TenthOf(n: nat, e: nat)
    requires e < 9
    ensures Strip(10 * n, e) == Strip(n, e + 1)
  {
  }

  lemma DigitsApart(q: nat, d: nat, e: nat)
    requires 1 <= d <= 9 && e < 9
    ensures var x := 1 + (q * 9 + d - 1) * 10 + e;
            (x - 1) % 10 == e && (x - 1) / 10 / 9 == q && (x - 1) / 10 % 9 == d - 1
  {
  }

  /** Decompressing gives a compressed amount back, whatever the amount. */
  lemma DecompressCompress(n: nat)
    ensures Decompressed(Compressed(n)) == n
  {
    if n > 0 {
      var (m, e) := Strip(n, 0);
      CompressedParts(n);
      hide Strip, Compressed;
      StripIs(n, 0);
    }
  }

  /** The parts of a compressed amount. */
  lemma CompressedParts(n: nat)
    requires n > 0
    ensures var (m, e) := Strip(n, 0);
            var x := Compressed(n);
            && x > 0 && (x - 1) % 10 == e
            && (if e < 9 then (x - 1) / 10 / 9 * 10 + (x - 1) / 10 % 9 + 1 else (x - 1) / 10 + 1) == m
  {
    hide Strip, Compressed;
    StripPositive(n, 0);
    var (m, e) := Strip(n, 0);
    if e < 9 {
      CompressedLow(n, m, e);
    } else {
      CompressedHigh(n, m);
    }
  }

  lemma CompressedLow(n: nat, m: nat, e: nat)
    requires n > 0 && Strip(n, 0) == (m, e) && e < 9
    ensures var x := Compressed(n);
            x > 0 && (x - 1) % 10 == e && (x - 1) / 10 / 9 * 10 + (x - 1) / 10 % 9 + 1 == m
  {
    hide Strip;
    DigitsApart(m / 10, m % 10, e);
  }

  lemma CompressedHigh(n: nat, m: nat)
    requires n > 0 && m > 0 && Strip(n, 0) == (m, 9)
    ensures var x := Compressed(n);
            x > 0 && (x - 1) % 10 == 9 && (x - 1) / 10 + 1 == m
  {
    hide Strip;
  }

  lemma DecompressedParts(x: nat)
    requires x > 0
    ensures var (e, y) := ((x - 1) % 10, (x - 1) / 10);
            && Decompressed(x) > 0
            && Strip(Decompressed(x), 0) == (if e < 9 then y / 9 * 10 + y % 9 + 1 else y + 1, e)
  {
    var (e, y) := ((x - 1) % 10, (x - 1) / 10);
    var m := if e < 9 then y / 9 * 10 + y % 9 + 1 else y + 1;
    StripScaled(m, e, 0);
    TimesMono(1, 1, m, Pow(10, e));
  }

  /** And every number is the compressed form of some amount: the two are inverse bijections. */
  lemma CompressDecompress(x: nat)
    ensures Compressed(Decompressed(x)) == x
  {
    hide Decompressed, Strip;
    if x > 0 {
      DecompressedParts(x);
    } else {
      Nothing();
    }
  }

  /** Compression makes an amount at most nine times as large. */
  lemma CompressedSize(n: nat)
    requires n > 0
    ensures Compressed(n) <= 9 * n
  {
    StripPositive(n, 0);
    StripIs(n, 0);
    var (m, e) := Strip(n, 0);
    if e > 0 {
      PowGrows(10, 1, e);
      TimesMono(m, 10, m, Pow(10, e));
    }
  }

  /** CompressAmount, in 64-bit arithmetic. */
  method CompressAmount(n: nat) returns (r: nat)
    requires n < U64
    ensures r == Compressed(n) % U64
  {
    if n == 0 {
      return 0;
    }
    StripPositive(n, 0);
    var m: nat := n;
    var e := 0;
    while m % 10 == 0 && e < 9
      invariant 0 <= e <= 9 && Strip(n, 0) == Strip(m, e)
      decreases 9 - e
    {
      m := m / 10;
      e := e + 1;
    }
    if e < 9 {
      var d := m % 10;
      assert 1 <= d <= 9;
      m := m / 10;
      r := (1 + (m * 9 + d - 1) * 10 + e) % U64;
    } else {
      r := (1 + (m - 1) * 10 + 9) % U64;
    }
  }

  lemma TimesTenWraps(n: nat)
    ensures (n % U64 * 10) % U64 == (n * 10) % U64
  {
  }

  /** DecompressAmount, in 64-bit arithmetic. */
  method DecompressAmount(x: nat) returns (r: nat)
    requires x < U64
    ensures r == Decompressed(x) % U64
  {
    if x == 0 {
      return 0;
    }
    var e := (x - 1) % 10;
    var y := (x - 1) / 10;
    var n: nat;
    if e < 9 {
      var d := y % 9 + 1;
      n := y / 9 * 10 + d;
    } else {
      n := y + 1;
    }
    r := AddZeroes(n, e);
  }

  /** The loop that multiplies by ten. */
  method AddZeroes(n: nat, zeroes: nat) returns (r: nat)
    requires n < U64
    ensures r == n * Pow(10, zeroes) % U64
  {
    r := n;
    var e := zeroes;
    ghost var full := n;
    while e > 0
      invariant r == full % U64
      invariant full * Pow(10, e) == n * Pow(10, zeroes)
    {
      TimesTenWraps(full);
      Associate(full, 10, Pow(10, e - 1));
      r := (r * 10) % U64;
      full := full * 10;
      e := e - 1;
    }
    assert full * Pow(10, 0) == full;
  }

  lemma Nothing()
    ensures Compressed(0) == 0 && Decompressed(0) == 0
  {
  }

  // ---------------------------------------------------------------------------------------
  // 64 bits

  /** What an amount that does not end in zero is compressed to. */
  function Over(n: nat): int {
    9 * n + n % 10 - 9
  }

  /** The compressed form of a 64-bit amount has 64 bits. */
  predicate NoWrap(n: nat) {
    n % 10 == 0 || Over(n) < U64
  }

  lemma CompressedOdd(n: nat)
    requires n % 10 != 0
    ensures Compressed(n) == Over(n)
  {
    assert Strip(n, 0) == (n, 0);
    assert n == n / 10 * 10 + n % 10;
  }

  lemma CompressedFits(n: nat)
    requires n < U64
    ensures Compressed(n) < U64 <==> NoWrap(n)
  {
    if n == 0 {
      Nothing();
    } else if n % 10 == 0 {
      StripPositive(n, 0);
      StripIs(n, 0);
      var (m, e) := Strip(n, 0);
      assert e > 0;
      PowGrows(10, 1, e);
      TimesMono(m, 10, m, Pow(10, e));
      assert 10 * m <= n;
    } else {
      CompressedOdd(n);
    }
  }

  // An amount n whose compressed form wraps k times has another form y, with an exponent e that k determines,
  // and y decompresses to m * p with p == 10^e. If that were n again, modulo 2^64, then 9 * (p - 1) * n == p * c
  // for a small number c; as 9 * (p - 1) is odd, this determines n. None of the few numbers left is such an n.

  /** p divided by 9 * (p - 1), modulo 2^64. */
  function Ratio(p: nat): nat {
    if p == 100 then 5507108780703412716 else if p == 10000 then 7644275316384711792
    else if p == 1000000 then 4285082501131939776 else 8231903262009845504
  }

  /** The number n with 9 * (p - 1) * n == p * c, modulo 2^64. */
  function Origin(p: nat, c: int): (n: nat)
    ensures n < U64
  {
    Ratio(p) * c % U64
  }

  lemma ModIs(x: int, z: int, n: nat)
    requires x == z * U64 + n && n < U64
    ensures x % U64 == n
  {
  }

  lemma OriginIs(p: nat, n: nat, m: nat, j: int, k: int, c: int)
    requires p in {100, 10000, 1000000, 100000000} && n < U64
    requires 9 * m == 9 * n - c - k * U64 && m * p == n + j * U64
    ensures n == Origin(p, c)
  {
    var t := p * k + 9 * j;
    if p == 100 {
      ModIs(5507108780703412716 * c, 662 * n - 13705661702352102323 * t - 74 * c, n);
    } else if p == 10000 {
      ModIs(7644275316384711792 * c, 77288 * n - 15842828238033401399 * t - 8588 * c, n);
    } else if p == 1000000 {
      ModIs(4285082501131939776 * c, 6090647 * n - 12483635422780629383 * t - 676739 * c, n);
    } else {
      ModIs(8231903262009845504 * c, 801627125 * n - 16430456183658535111 * t - 89069681 * c, n);
    }
  }

  /** An amount comes back wrong: it does not wrap, or its digits do not fit together, or it is seen to. */
  predicate Ruled(n: nat, e: nat, c: int) {
    || NoWrap(n)
    || Over(n) / U64 * 4 % 10 != e
    || !(1 <= c - e + n % 10 <= 9)
    || Decompressed(Over(n) % U64) % U64 != n
  }

  lemma HundredPowers()
    ensures Pow(10, 0) == 1 && Pow(10, 2) == 100 && Pow(10, 4) == 10000
    ensures Pow(10, 6) == 1000000 && Pow(10, 8) == 100000000
  {
    assert Pow(10, 4) == 10 * (10 * (10 * (10 * Pow(10, 0))));
    assert Pow(10, 8) == 10 * (10 * (10 * (10 * Pow(10, 4))));
  }

  /** By digits, when the compressed form wraps k times. */
  lemma RuledByDigits(p: nat, c: int, z: int, n: nat, e: nat, k: nat)
    requires Ratio(p) * c == z * U64 + n && n < U64
    requires n % 10 != 0 ==> k * U64 <= 9 * n + n % 10 - 9 < (k + 1) * U64
    requires n % 10 == 0 || k == 0 || k * 4 % 10 != e || !(1 <= c - e + n % 10 <= 9)
    ensures Ruled(Origin(p, c), e, c)
  {
    hide Decompressed, Ratio, Over, NoWrap;
    ModIs(Ratio(p) * c, z, n);
    if n % 10 != 0 {
      OverWraps(n, k);
    } else {
      TenFits(n);
    }
  }

  lemma TenFits(n: nat)
    requires n % 10 == 0
    ensures NoWrap(n)
  {
  }

  lemma OverWraps(n: nat, k: nat)
    requires n % 10 != 0 && k * U64 <= 9 * n + n % 10 - 9 < (k + 1) * U64
    ensures Over(n) / U64 == k && (k == 0 ==> NoWrap(n))
  {
  }

  lemma DecompressedIs(y: nat, e: nat)
    requires e < 9
    ensures Decompressed(10 * y + e + 1) == (y / 9 * 10 + y % 9 + 1) * Pow(10, e)
  {
    hide Pow;
    var x := 10 * y + e + 1;
    assert (x - 1) % 10 == e && (x - 1) / 10 == y;
  }

  /** By decompressing, when y is the compressed form without its exponent. */
  lemma RuledBySight(p: nat, c: int, z: int, n: nat, e: nat, k: nat, y: nat)
    requires Ratio(p) * c == z * U64 + n && n < U64
    requires (e, p) in {(2, 100), (4, 10000), (6, 1000000), (8, 100000000)}
    requires 9 * n + n % 10 - 9 == k * U64 + 10 * y + e + 1 && 10 * y + e + 1 < U64
    requires (y / 9 * 10 + y % 9 + 1) * p % U64 != n
    ensures Ruled(Origin(p, c), e, c)
  {
    hide Decompressed, Ratio, NoWrap;
    ModIs(Ratio(p) * c, z, n);
    ModIs(Over(n), k, 10 * y + e + 1);
    HundredPowers();
    DecompressedIs(y, e);
  }

  lemma RuledOut2(c: int)
    requires -6 <= c <= 10
    ensures Ruled(Origin(100, c), 2, c)
  {
    hide Decompressed, Origin, Ruled;
    match c {
      case -6 => RuledByDigits(100, -6, -2, 3850835463198626936, 2, 1);
      case -5 => RuledByDigits(100, -5, -2, 9357944243902039652, 2, 4);
      case -4 => RuledByDigits(100, -4, -2, 14865053024605452368, 2, 7);
      case -3 => RuledByDigits(100, -3, -1, 1925417731599313468, 2, 0);
      case -2 => RuledByDigits(100, -2, -1, 7432526512302726184, 2, 3);
      case -1 => RuledByDigits(100, -1, -1, 12939635293006138900, 2, 0);
      case 0 => RuledByDigits(100, 0, 0, 0, 2, 0);
      case 1 => RuledByDigits(100, 1, 0, 5507108780703412716, 2, 2);
      case 2 => RuledByDigits(100, 2, 0, 11014217561406825432, 2, 5);
      case 3 => RuledBySight(100, 3, 0, 16521326342110238148, 2, 8, 111798448931573040);
      case 4 => RuledByDigits(100, 4, 1, 3581691049104099248, 2, 1);
      case 5 => RuledByDigits(100, 5, 1, 9088799829807511964, 2, 4);
      case 6 => RuledByDigits(100, 6, 1, 14595908610510924680, 2, 0);
      case 7 => RuledByDigits(100, 7, 2, 1656273317504785780, 2, 0);
      case 8 => RuledByDigits(100, 8, 2, 7163382098208198496, 2, 3);
      case 9 => RuledByDigits(100, 9, 2, 12670490878911611212, 2, 6);
      case 10 => RuledByDigits(100, 10, 2, 18177599659615023928, 2, 8);
      case _ =>
    }
  }

  lemma RuledOut4(c: int)
    requires -4 <= c <= 12
    ensures Ruled(Origin(10000, c), 4, c)
  {
    hide Decompressed, Origin, Ruled;
    match c {
      case -4 => RuledByDigits(10000, -4, -2, 6316386881880256064, 4, 3);
      case -3 => RuledByDigits(10000, -3, -2, 13960662198264967856, 4, 6);
      case -2 => RuledByDigits(10000, -2, -1, 3158193440940128032, 4, 1);
      case -1 => RuledByDigits(10000, -1, -1, 10802468757324839824, 4, 5);
      case 0 => RuledByDigits(10000, 0, 0, 0, 4, 0);
      case 1 => RuledByDigits(10000, 1, 0, 7644275316384711792, 4, 3);
      case 2 => RuledByDigits(10000, 2, 0, 15288550632769423584, 4, 7);
      case 3 => RuledByDigits(10000, 3, 1, 4486081875444583760, 4, 0);
      case 4 => RuledByDigits(10000, 4, 1, 12130357191829295552, 4, 5);
      case 5 => RuledByDigits(10000, 5, 2, 1327888434504455728, 4, 0);
      case 6 => RuledByDigits(10000, 6, 2, 8972163750889167520, 4, 0);
      case 7 => RuledByDigits(10000, 7, 2, 16616439067273879312, 4, 8);
      case 8 => RuledByDigits(10000, 8, 3, 5813970309949039488, 4, 2);
      case 9 => RuledByDigits(10000, 9, 3, 13458245626333751280, 4, 0);
      case 10 => RuledByDigits(10000, 10, 4, 2655776869008911456, 4, 1);
      case 11 => RuledByDigits(10000, 11, 4, 10300052185393623248, 4, 5);
      case 12 => RuledByDigits(10000, 12, 4, 17944327501778335040, 4, 0);
      case _ =>
    }
  }

  lemma RuledOut6(c: int)
    requires -2 <= c <= 14
    ensures Ruled(Origin(1000000, c), 6, c)
  {
    hide Decompressed, Origin, Ruled;
    match c {
      case -2 => RuledByDigits(1000000, -2, -1, 9876579071445672064, 6, 4);
      case -1 => RuledByDigits(1000000, -1, -1, 14161661572577611840, 6, 0);
      case 0 => RuledByDigits(1000000, 0, 0, 0, 6, 0);
      case 1 => RuledByDigits(1000000, 1, 0, 4285082501131939776, 6, 2);
      case 2 => RuledByDigits(1000000, 2, 0, 8570165002263879552, 6, 4);
      case 3 => RuledByDigits(1000000, 3, 0, 12855247503395819328, 6, 6);
      case 4 => RuledByDigits(1000000, 4, 0, 17140330004527759104, 6, 8);
      case 5 => RuledByDigits(1000000, 5, 1, 2978668431950147264, 6, 1);
      case 6 => RuledByDigits(1000000, 6, 1, 7263750933082087040, 6, 0);
      case 7 => RuledByDigits(1000000, 7, 1, 11548833434214026816, 6, 5);
      case 8 => RuledByDigits(1000000, 8, 1, 15833915935345966592, 6, 7);
      case 9 => RuledByDigits(1000000, 9, 2, 1672254362768354752, 6, 0);
      case 10 => RuledByDigits(1000000, 10, 2, 5957336863900294528, 6, 2);
      case 11 => RuledBySight(1000000, 11, 2, 10242419365032234304, 6, 4, 1839479799045190226);
      case 12 => RuledByDigits(1000000, 12, 2, 14527501866164174080, 6, 0);
      case 13 => RuledByDigits(1000000, 13, 3, 365840293586562240, 6, 0);
      case 14 => RuledByDigits(1000000, 14, 3, 4650922794718502016, 6, 2);
      case _ =>
    }
  }

  lemma RuledOut8(c: int)
    requires 0 <= c <= 16
    ensures Ruled(Origin(100000000, c), 8, c)
  {
    hide Decompressed, Origin, Ruled;
    match c {
      case 0 => RuledByDigits(100000000, 0, 0, 0, 8, 0);
      case 1 => RuledByDigits(100000000, 1, 0, 8231903262009845504, 8, 4);
      case 2 => RuledByDigits(100000000, 2, 0, 16463806524019691008, 8, 8);
      case 3 => RuledByDigits(100000000, 3, 1, 6248965712319984896, 8, 3);
      case 4 => RuledByDigits(100000000, 4, 1, 14480868974329830400, 8, 0);
      case 5 => RuledBySight(100000000, 5, 2, 4266028162630124288, 8, 2, 150076531625201535);
      case 6 => RuledByDigits(100000000, 6, 2, 12497931424639969792, 8, 6);
      case 7 => RuledByDigits(100000000, 7, 3, 2283090612940263680, 8, 0);
      case 8 => RuledByDigits(100000000, 8, 3, 10514993874950109184, 8, 5);
      case 9 => RuledByDigits(100000000, 9, 4, 300153063250403072, 8, 0);
      case 10 => RuledByDigits(100000000, 10, 4, 8532056325260248576, 8, 4);
      case 11 => RuledByDigits(100000000, 11, 4, 16763959587270094080, 8, 0);
      case 12 => RuledByDigits(100000000, 12, 5, 6549118775570387968, 8, 3);
      case 13 => RuledBySight(100000000, 13, 5, 14781022037580233472, 8, 7, 390198982225523992);
      case 14 => RuledByDigits(100000000, 14, 6, 4566181225880527360, 8, 0);
      case 15 => RuledByDigits(100000000, 15, 6, 12798084487890372864, 8, 6);
      case 16 => RuledByDigits(100000000, 16, 7, 2583243676190666752, 8, 1);
      case _ =>
    }
  }

  lemma LastDigit(w: int, r: nat)
    ensures (10 * w + r) % 10 == r % 10
  {
  }

  /** How often the compressed form wraps determines its exponent. */
  lemma WrappedExponent(n: nat, k: nat, y: nat)
    requires n < U64 && n % 10 != 0 && Over(n) == k * U64 + y && 0 < y < U64
    ensures k <= 8 && (y - 1) % 10 == k * 4 % 10
  {
    var q, d := n / 10, n % 10;
    assert Over(n) - 1 == 10 * (9 * q + d - 1);
    var w := 9 * q + d - 1 - k * 1844674407370955162;
    assert y - 1 == 10 * w + k * 4;
    LastDigit(w, k * 4);
  }

  /** How the amount y decompresses to relates to one whose compressed form wraps to y. */
  lemma WrappedParts(n: nat, k: nat, y: nat) returns (e: nat, m: nat, c: int)
    requires n < U64 && n % 10 != 0 && Over(n) == k * U64 + y && 0 < y < U64
    ensures e in {0, 2, 4, 6, 8} && k * 4 % 10 == e && 1 <= c - e + n % 10 <= 9
    ensures Decompressed(y) == m * Pow(10, e) && m < U64
    ensures 9 * m == 9 * n - c - k * U64
  {
    hide Pow;
    WrappedExponent(n, k, y);
    e := (y - 1) % 10;
    var z := (y - 1) / 10;
    m := z / 9 * 10 + z % 9 + 1;
    c := z % 9 + 1 + e - n % 10;
    assert y - 1 == 10 * z + e;
  }

  /** A number of which the product with p is n modulo 2^64 would be one of those ruled out. */
  lemma LostFrom(n: nat, e: nat, p: nat, m: nat, k: nat, c: int)
    requires n < U64 && !NoWrap(n) && k == Over(n) / U64 && k * 4 % 10 == e && 1 <= c - e + n % 10 <= 9
    requires (e, p) in {(2, 100), (4, 10000), (6, 1000000), (8, 100000000)}
    requires 9 * m == 9 * n - c - k * U64 && m * p % U64 == n
    ensures Decompressed(Over(n) % U64) % U64 != n
  {
    hide Decompressed, Origin;
    OriginIs(p, n, m, m * p / U64, k, c);
    match e {
      case 2 => RuledOut2(c);
      case 4 => RuledOut4(c);
      case 6 => RuledOut6(c);
      case _ => RuledOut8(c);
    }
  }

  lemma LostParts(n: nat, y: nat)
    requires n < U64 && !NoWrap(n) && y == Over(n) % U64 && y > 0
    ensures Decompressed(y) % U64 != n
  {
    hide Decompressed, Origin, Pow;
    var k := Over(n) / U64;
    var e, m, c := WrappedParts(n, k, y);
    HundredPowers();
    if Decompressed(y) % U64 == n && e > 0 {
      LostFrom(n, e, Pow(10, e), m, k, c);
    }
  }

  /** An amount whose compressed form wraps does not come back. */
  lemma WrappedIsLost(n: nat)
    requires n < U64 && !NoWrap(n)
    ensures Decompressed(Compressed(n) % U64) % U64 != n
  {
    CompressedOdd(n);
    var y := Over(n) % U64;
    if Decompressed(y) % U64 == n {
      if y == 0 {
        Nothing();
      } else {
        LostParts(n, y);
      }
      assert false;
    }
  }

  /** In 64 bits the round trip is exact just for the amounts whose compressed form does not wrap: those that end
      in zero, and of the others those up to about (2^64 - 1) / 9. */
  lemma AmountFits(n: nat)
    requires n < U64
    ensures Decompressed(Compressed(n) % U64) % U64 == n <==> NoWrap(n)
  {
    hide Compressed, Decompressed;
    if NoWrap(n) {
      DecompressCompress(n);
      CompressedFits(n);
    } else {
      WrappedIsLost(n);
    }
  }

  /** The first amount that is lost: all smaller ones come back, and it comes back as another. */
  lemma FirstLost()
    ensures var lost: nat := 2049638230412172403;
            && lost == (U64 - 1) / 9 + 2
            && Decompressed(Compressed(lost) % U64) % U64 != lost
            && forall n: nat :: n < lost ==> Decompressed(Compressed(n) % U64) % U64 == n
  {
    hide Compressed, Decompressed;
    forall n: nat | n <= 2049638230412172403
      ensures Decompressed(Compressed(n) % U64) % U64 == n <==> n < 2049638230412172403
    {
      AmountFits(n);
    }
  }
}
