/** Numbers written in a base, most significant digit first, and the in-place step that conversion
    between bases is made of (the inner loops of src/base58.cpp).
*/
module Radix {

  function Pow(b: nat, n: nat): (p: nat)
    ensures b > 0 ==> p > 0
  {
    if n == 0 then 1 else
    var q := Pow(b, n - 1);
    assert b > 0 ==> b * q > 0;
    b * q
  }

  lemma {:induction false} PowPlus(b: nat, m: nat, n: nat)
    ensures Pow(b, m + n) == Pow(b, m) * Pow(b, n)
  {
    if m > 0 {
      PowPlus(b, m - 1, n);
      Associate(b, Pow(b, m - 1), Pow(b, n));
    }
  }

  lemma {:induction false} PowTimes(b: nat, m: nat, n: nat)
    ensures Pow(b, m * n) == Pow(Pow(b, m), n)
  {
    if n == 0 {
      assert m * n == 0;
    } else {
      PowTimes(b, m, n - 1);
      assert m * n == m + m * (n - 1);
      PowPlus(b, m, m * (n - 1));
    }
  }

  lemma TimesMono(a: nat, b: nat, c: nat, d: nat)
    requires a <= c && b <= d
    ensures a * b <= c * d
  {
    assert c * d - a * b == c * (d - b) + (c - a) * b;
  }

  lemma {:induction false} PowMono(a: nat, b: nat, n: nat)
    requires a <= b
    ensures Pow(a, n) <= Pow(b, n)
  {
    if n > 0 {
      PowMono(a, b, n - 1);
      TimesMono(a, Pow(a, n - 1), b, Pow(b, n - 1));
    }
  }

  lemma {:induction false} PowGrows(b: nat, m: nat, n: nat)
    requires b > 0 && m <= n
    ensures Pow(b, m) <= Pow(b, n)
  {
    PowPlus(b, m, n - m);
    TimesMono(Pow(b, m), 1, Pow(b, m), Pow(b, n - m));
  }

  // ---------------------------------------------------------------------------------------
  // Numerals

  predicate InBase(base: nat, s: seq<nat>) {
    forall i :: 0 <= i < |s| ==> s[i] < base
  }

  /** The number that digits stand for. */
  function Num(base: nat, s: seq<nat>): nat {
    if s == [] then 0 else Num(base, s[..|s| - 1]) * base + s[|s| - 1]
  }

  /** The shortest digits that stand for a number. */
  function Digits(base: nat, n: nat): (s: seq<nat>)
    requires base > 1
    ensures InBase(base, s) && (s != [] ==> s[0] != 0) && (n > 0 ==> s != [])
  {
    if n == 0 then [] else
    Quotient(n, base);
    Digits(base, n / base) + [n % base]
  }

  lemma Quotient(n: nat, d: nat)
    requires n > 0 && d > 1
    ensures 0 <= n / d < n && (n / d == 0 ==> n % d != 0) && n == n / d * d + n % d
  {
    var q := n / d;
    assert n == d * q + n % d;
    TimesMono(q, 2, q, d);
  }

  lemma {:induction false} NumOfDigits(base: nat, n: nat)
    requires base > 1
    ensures Num(base, Digits(base, n)) == n
  {
    if n > 0 {
      Quotient(n, base);
      NumOfDigits(base, n / base);
      var s := Digits(base, n);
      assert s[..|s| - 1] == Digits(base, n / base);
    }
  }

  lemma DivisionIs(n: nat, d: nat, q: nat, r: nat)
    requires d > 0 && r < d && n == q * d + r
    ensures n / d == q && n % d == r
  {
    var p := n / d;
    assert n == d * p + n % d;
    assert d * (p - q) == r - n % d;
    TimesMono(if p > q then 1 else 0, d, if p > q then p - q else 0, d);
    TimesMono(if p < q then 1 else 0, d, if p < q then q - p else 0, d);
    assert d * (q - p) == -(d * (p - q));
  }

  lemma {:induction false} DigitsOfNum(base: nat, s: seq<nat>)
    requires base > 1 && InBase(base, s) && (s != [] ==> s[0] != 0)
    ensures Digits(base, Num(base, s)) == s && (s != [] ==> Num(base, s) > 0)
  {
    if s != [] {
      var front, last := s[..|s| - 1], s[|s| - 1];
      DigitsOfNum(base, front);
      DivisionIs(Num(base, s), base, Num(base, front), last);
      if front != [] {
        TimesMono(1, 1, Num(base, front), base);
      }
      assert s == front + [last];
    }
  }

  /** Leading zeroes. */
  function Zeroes(s: seq<nat>): (n: nat)
    ensures n <= |s| && (forall i :: 0 <= i < n ==> s[i] == 0) && (n < |s| ==> s[n] != 0)
  {
    if s != [] && s[0] == 0 then 1 + Zeroes(s[1..]) else 0
  }

  lemma {:induction false} NumSkipsZeroes(base: nat, s: seq<nat>, n: nat)
    requires n <= |s| && forall i :: 0 <= i < n ==> s[i] == 0
    ensures Num(base, s) == Num(base, s[n..])
  {
    if n == |s| {
      AllZero(base, s);
    } else {
      var front := s[..|s| - 1];
      NumSkipsZeroes(base, front, n);
      assert s[n..][..|s| - n - 1] == front[n..];
    }
  }

  lemma {:induction false} AllZero(base: nat, s: seq<nat>)
    requires forall i :: 0 <= i < |s| ==> s[i] == 0
    ensures Num(base, s) == 0
  {
    if s != [] {
      AllZero(base, s[..|s| - 1]);
    }
  }

  lemma {:induction false} NumBelow(base: nat, s: seq<nat>)
    requires InBase(base, s)
    ensures Num(base, s) < Pow(base, |s|)
  {
    if s != [] {
      var front := s[..|s| - 1];
      NumBelow(base, front);
      var n, p := Num(base, front), Pow(base, |front|);
      assert Pow(base, |s|) == base * p && Num(base, s) == n * base + s[|s| - 1];
      hide Num, Pow;
      TimesMono(n + 1, base, p, base);
      Distribute(n, 1, base);
    }
  }

  lemma {:induction false} NumPrefix(base: nat, s: seq<nat>, d: nat)
    ensures Num(base, s + [d]) == Num(base, s) * base + d
  {
    assert (s + [d])[..|s|] == s;
  }

  lemma {:induction false} NumConcat(base: nat, s: seq<nat>, r: seq<nat>)
    ensures Num(base, s + r) == Num(base, s) * Pow(base, |r|) + Num(base, r)
  {
    if r == [] {
      assert s + r == s;
    } else {
      var front, last := r[..|r| - 1], r[|r| - 1];
      NumConcat(base, s, front);
      assert s + r == (s + front) + [last];
      NumPrefix(base, s + front, last);
      var n, p := Num(base, s), Pow(base, |front|);
      assert r == front + [last];
      NumPrefix(base, front, last);
      Distribute(n * p, Num(base, front), base);
      Associate(base, n, p);
      Associate(n, base, p);
    }
  }

  // ---------------------------------------------------------------------------------------
  // Multiplying and adding in place

  /** Digits and a carry before them stand for a multiple of other digits, plus a number. */
  ghost predicate Balanced(base: nat, factor: nat, add: nat, carry: nat, done: seq<nat>, start: seq<nat>) {
    carry * Pow(base, |done|) + Num(base, done) == Num(base, start) * factor + add
  }

  /** "b = b * factor + carry", from the last digit to the first; what is left is the carry out. */
  method MultiplyAdd(b: array<nat>, base: nat, factor: nat, add: nat) returns (carry: nat)
    requires base > 0 && InBase(base, b[..])
    modifies b
    ensures InBase(base, b[..])
    ensures Balanced(base, factor, add, carry, b[..], old(b[..]))
  {
    carry := add;
    ghost var start := b[..];
    var i := b.Length;
    assert start[i..] == [] && b[i..] == [];
    assert Balanced(base, factor, add, carry, [], []);
    hide Num, Pow, Balanced;
    while i > 0
      invariant 0 <= i <= b.Length && b[..i] == start[..i] && InBase(base, b[..])
      invariant Balanced(base, factor, add, carry, b[i..], start[i..])
    {
      ghost var done := b[i..];
      i := i - 1;
      carry := Step(b, i, base, factor, carry, add, done, start[i + 1..]);
      assert b[i..] == [b[i]] + done;
      assert start[i..] == [start[i]] + start[i + 1..];
    }
    assert b[0..] == b[..] && start[0..] == start;
  }

  /** One digit; `done` and `rest` are the digits after it, now and at the start. */
  method Step(b: array<nat>, i: nat, base: nat, factor: nat, carryIn: nat, ghost add: nat,
              ghost done: seq<nat>, ghost rest: seq<nat>) returns (carry: nat)
    requires base > 0 && i < b.Length && InBase(base, b[..])
    requires |done| == |rest| && Balanced(base, factor, add, carryIn, done, rest)
    modifies b
    ensures b[..] == old(b[..])[i := b[i]] && InBase(base, b[..])
    ensures Balanced(base, factor, add, carry, [b[i]] + done, [old(b[i])] + rest)
  {
    var sum := carryIn + factor * b[i];
    ghost var digit := b[i];
    b[i] := sum % base;
    carry := sum / base;
    assert sum == carry * base + b[i];
    StepKeeps(base, factor, add, digit, rest, done, carryIn, b[i], carry);
  }

  lemma Distribute(a: nat, b: nat, c: nat)
    ensures (a + b) * c == a * c + b * c
  {
  }

  lemma Associate(a: nat, b: nat, c: nat)
    ensures a * (b * c) == (a * b) * c == (b * c) * a
  {
  }

  lemma StepKeeps(base: nat, factor: nat, add: nat, digit: nat, rest: seq<nat>, done: seq<nat>, carry: nat,
                  low: nat, high: nat)
    requires |rest| == |done| && carry + factor * digit == high * base + low
    requires Balanced(base, factor, add, carry, done, rest)
    ensures Balanced(base, factor, add, high, [low] + done, [digit] + rest)
  {
    var p := Pow(base, |done|);
    assert Pow(base, |done| + 1) == base * p;
    hide Num, Pow;
    NumConcat(base, [low], done);
    NumConcat(base, [digit], rest);
    NumOnly(base, low);
    NumOnly(base, digit);
    StepArithmetic(p, Num(base, done), Num(base, rest), base, factor, digit, carry, high, low, add);
  }

  lemma StepArithmetic(p: nat, d: nat, r: nat, base: nat, factor: nat, digit: nat, carry: nat, high: nat, low: nat,
                       add: nat)
    requires carry + factor * digit == high * base + low && carry * p + d == r * factor + add
    ensures high * (base * p) + (low * p + d) == (digit * p + r) * factor + add
  {
    Associate(high, base, p);
    Distribute(high * base, low, p);
    Distribute(carry, factor * digit, p);
    Associate(factor, digit, p);
    Distribute(digit * p, r, factor);
    var a, b := high * base, factor * digit;
    assert a * p + low * p == carry * p + b * p;
  }

  lemma NumOnly(base: nat, d: nat)
    ensures Num(base, [d]) == d
  {
    NumPrefix(base, [], d);
    assert [] + [d] == [d];
  }
}
