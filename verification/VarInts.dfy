/** Variable-length integers (WriteVarInt and ReadVarInt, src/serialize.h): seven bits to a byte, most
    significant first, less one in all but the last byte so that no number has two encodings.
*/
module VarInts {
  import opened Bytes
  import opened Collections
  import opened Radix
  import opened Streams
  import opened Wrappers

  /** The bytes before the last: all marked as not the last. */
  function Head(n: nat): seq<byte> {
    (if n > 0x7F then Head(n / 128 - 1) else []) + [n % 128 + 0x80]
  }

  function VarInt(n: nat): (s: seq<byte>)
    ensures s != []
  {
    (if n > 0x7F then Head(n / 128 - 1) else []) + [n % 128]
  }

  /** What is written for a number of a signed type: for a negative one only its last seven bits. */
  function SignedVarInt(n: int): (s: seq<byte>)
    ensures s != []
  {
    if n < 0 then [n % 128] else VarInt(n)
  }

  /** Reading on from a number, without regard to the width of its type. */
  function Parse(n: nat, data: seq<byte>): (r: Option<(nat, seq<byte>)>)
    ensures r.Some? ==> |r.value.1| < |data|
    decreases |data|
  {
    if data == [] then None
    else if data[0] >= 0x80 then Parse(n * 128 + data[0] % 128 + 1, data[1..])
    else Some((n * 128 + data[0], data[1..]))
  }

  lemma ParseStep(n: nat, data: seq<byte>)
    requires data != []
    ensures Parse(n, data) == if data[0] >= 0x80 then Parse(n * 128 + data[0] % 128 + 1, data[1..])
                              else Some((n * 128 + data[0] % 128, data[1..]))
  {
  }

  lemma {:induction false} ParseHead(n: nat, rest: seq<byte>)
    ensures Parse(0, Head(n) + rest) == Parse(n + 1, rest)
  {
    hide Parse;
    var last: seq<byte> := [n % 128 + 0x80];
    var more := last + rest;
    assert more[0] == n % 128 + 0x80 && more[1..] == rest;
    ParseStep(if n > 0x7F then n / 128 else 0, more);
    if n > 0x7F {
      ParseHead(n / 128 - 1, more);
      assert Head(n) + rest == Head(n / 128 - 1) + more;
    } else {
      assert Head(n) + rest == more;
    }
  }

  /** Reading what was written gives the number back, and the rest of the stream. */
  lemma ParseVarInt(n: nat, rest: seq<byte>)
    ensures Parse(0, VarInt(n) + rest) == Some((n, rest))
  {
    hide Parse, Head;
    var last: seq<byte> := [n % 128];
    var more := last + rest;
    assert more[0] == n % 128 && more[1..] == rest;
    ParseStep(if n > 0x7F then n / 128 else 0, more);
    if n > 0x7F {
      ParseHead(n / 128 - 1, more);
      assert VarInt(n) + rest == Head(n / 128 - 1) + more;
    } else {
      assert VarInt(n) + rest == more;
    }
  }

  lemma OneMore(m: nat, c: nat)
    requires c < 128
    ensures Head((m + 1) * 128 + c) == Head(m) + [c + 0x80]
    ensures VarInt((m + 1) * 128 + c) == Head(m) + [c]
  {
    var n := (m + 1) * 128 + c;
    assert n / 128 - 1 == m && n % 128 == c;
  }

  lemma {:induction false} ParsedHead(m: nat, data: seq<byte>)
    requires Parse(m + 1, data).Some?
    ensures var (n, rest) := Parse(m + 1, data).value; Head(m) + data == VarInt(n) + rest
    decreases |data|
  {
    hide Head, VarInt;
    var c := data[0] % 128;
    OneMore(m, c);
    assert data == [data[0]] + data[1..];
    if data[0] >= 0x80 {
      ParsedHead((m + 1) * 128 + c, data[1..]);
      assert Head(m) + data == Head((m + 1) * 128 + c) + data[1..];
    } else {
      assert Head(m) + data == VarInt((m + 1) * 128 + c) + data[1..];
    }
  }

  /** Every integer has exactly one encoding: what is read as a number is what would be written for it. */
  lemma ParsedVarInt(data: seq<byte>)
    requires Parse(0, data).Some?
    ensures var (n, rest) := Parse(0, data).value; data == VarInt(n) + rest
  {
    assert data == [data[0]] + data[1..];
    if data[0] >= 0x80 {
      ParsedHead(data[0] % 128, data[1..]);
      assert Head(data[0] % 128) == [data[0]];
    } else {
      assert VarInt(data[0]) == [data[0]];
    }
  }

  // ---------------------------------------------------------------------------------------
  // Writing

  /** WriteVarInt of a number of `width` bits; the temporary array is large enough. */
  method WriteVarInt(os: DataStream, width: nat, n: int)
    requires width > 0 && n < Pow(2, width)
    modifies os
    ensures os.data == old(os.data) + SignedVarInt(n)
  {
    if n < 0 {
      os.Write([n % 128]);
      return;
    }
    var tmp := new byte[(width + 6) / 7](i => 0);
    var len := FillVarInt(tmp, width, n);
    WriteBack(os, tmp[..len + 1]);
  }

  /** The loop that writes the bytes, last first. */
  method WriteBack(os: DataStream, tmp: seq<byte>)
    requires tmp != []
    modifies os
    ensures os.data == old(os.data) + Reverse<byte>(tmp)
  {
    var k := |tmp| - 1;
    os.Write([tmp[k]]);
    assert tmp[k..] == [tmp[k]];
    while k > 0
      invariant 0 <= k < |tmp| && os.data == old(os.data) + Reverse<byte>(tmp[k..])
    {
      k := k - 1;
      ReverseMore(tmp, k);
      os.Write([tmp[k]]);
    }
    assert tmp[0..] == tmp;
  }

  lemma ReverseMore(s: seq<byte>, k: nat)
    requires k < |s|
    ensures Reverse<byte>(s[k..]) == Reverse<byte>(s[k + 1..]) + [s[k]]
  {
    ReverseIs(s[k..]);
    ReverseIs(s[k + 1..]);
    var a, b := Reverse<byte>(s[k..]), Reverse<byte>(s[k + 1..]) + [s[k]];
    assert forall i :: 0 <= i < |a| ==> a[i] == b[i];
  }

  lemma FitsIn(len: nat, width: nat)
    requires 7 * len < width
    ensures len < (width + 6) / 7
  {
  }

  /** The bytes, last first; gives the index of the first. */
  method FillVarInt(tmp: array<byte>, width: nat, n: nat) returns (len: nat)
    requires width > 0 && n < Pow(2, width) && tmp.Length == (width + 6) / 7
    modifies tmp
    ensures len < tmp.Length && Reverse<byte>(tmp[..len + 1]) == VarInt(n)
  {
    hide VarInt, Head, Rest, Reverse, Pow;
    len := 0;
    var m: nat := n;
    FillStart(n);
    assert tmp[..len] == [];
    while true
      invariant 7 * len < width && m < Pow(2, width - 7 * len)
      invariant VarInt(n) == Rest(len, m) + Reverse<byte>(tmp[..len])
      decreases width - 7 * len
    {
      ghost var before := tmp[..len];
      FitsIn(len, width);
      tmp[len] := m % 128 + if len > 0 then 0x80 else 0;
      assert tmp[..len + 1] == before + [tmp[len]];
      FillStep(len, m, before);
      if m <= 0x7F {
        return;
      }
      Shrinks(m, width - 7 * len);
      m := m / 128 - 1;
      len := len + 1;
    }
  }

  /** What is to be written before the first len of the last bytes. */
  ghost function Rest(len: nat, m: nat): seq<byte> {
    if len == 0 then VarInt(m) else Head(m)
  }

  lemma FillStart(n: nat)
    ensures VarInt(n) == Rest(0, n) + Reverse<byte>([])
  {
  }

  lemma RestStep(len: nat, m: nat)
    ensures Rest(len, m) == (if m > 0x7F then Rest(len + 1, m / 128 - 1) else [])
                            + [m % 128 + if len > 0 then 0x80 else 0]
  {
  }

  lemma ReverseLast(s: seq<byte>, b: byte)
    ensures Reverse<byte>(s + [b]) == [b] + Reverse<byte>(s)
  {
    assert (s + [b])[..|s|] == s;
  }

  lemma FillStep(len: nat, m: nat, before: seq<byte>)
    ensures var b := m % 128 + if len > 0 then 0x80 else 0;
            Rest(len, m) + Reverse<byte>(before)
            == if m > 0x7F then Rest(len + 1, m / 128 - 1) + Reverse<byte>(before + [b])
               else Reverse<byte>(before + [b])
  {
    hide Rest, Reverse, VarInt, Head;
    var b: byte := m % 128 + if len > 0 then 0x80 else 0;
    var rest := if m > 0x7F then Rest(len + 1, m / 128 - 1) else [];
    RestStep(len, m);
    ReverseLast(before, b);
    assert (rest + [b]) + Reverse<byte>(before) == rest + ([b] + Reverse<byte>(before));
  }

  lemma Shrinks(m: nat, bits: nat)
    requires 0x7F < m < Pow(2, bits)
    ensures bits > 7 && m / 128 - 1 < Pow(2, bits - 7)
  {
    assert Pow(2, 7) == 128;
    if bits <= 7 {
      PowGrows(2, bits, 7);
    } else {
      PowPlus(2, 7, bits - 7);
    }
  }

  // ---------------------------------------------------------------------------------------
  // Reading

  lemma {:induction false} Wraps(k: nat, m: nat, n: nat)
    requires m > 0
    ensures (k * m + n) % m == n % m
  {
    DivisionIs(k * m + n, m, k + n / m, n % m);
    Distribute(k, n / m, m);
  }

  /** A step of ReadVarInt in a type that wraps at m. */
  lemma StepWraps(n: nat, low: nat, m: nat)
    requires m > 0
    ensures (n % m * 128 + low) % m == (n * 128 + low) % m
    ensures (n % m + 1) % m == (n + 1) % m
  {
    var k := n / m;
    assert n == k * m + n % m;
    Wraps(k * 128, m, n % m * 128 + low);
    Wraps(k, m, n % m + 1);
    assert n * 128 + low == k * 128 * m + (n % m * 128 + low) by {
      Distribute(k * m, n % m, 128);
      Associate(k, 128, m);
      Associate(k, m, 128);
    }
  }

  lemma ParseEnd(n: nat)
    ensures Parse(n, []) == None
  {
  }

  /** ReadVarInt into an unsigned type that wraps at m; fails at the end of the stream. */
  method ReadVarInt(s: DataStream, m: nat) returns (r: Option<nat>)
    requires m > 0
    modifies s
    ensures match Parse(0, old(s.data))
            case None => r == None
            case Some((n, rest)) => r == Some(n % m) && s.data == rest
  {
    hide Parse;
    var n := 0;
    ghost var full: nat := 0;
    ParseEnd(full);
    while true
      invariant n == full % m && Parse(full, []) == None && Parse(0, old(s.data)) == Parse(full, s.data)
      decreases |s.data|
    {
      ghost var data := s.data;
      var ok, bytes := s.Read(1);
      if !ok {
        return None;
      }
      var chData := bytes[0];
      ParseStep(full, data);
      StepWraps(full, chData % 128, m);
      n := (n * 128 + chData % 128) % m;
      full := full * 128 + chData % 128;
      if chData >= 0x80 {
        StepWraps(full, 0, m);
        n := (n + 1) % m;
        full := full + 1;
        ParseEnd(full);
      } else {
        return Some(n);
      }
    }
  }
}
