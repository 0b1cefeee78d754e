/** Serialization of the unspent outputs of a transaction (CCoins, src/coins.h, src/coins.cpp): which outputs
    are unspent is packed into a header code and a bit mask, whose length the reader is not told.
*/
module CoinsSerialization {
  import opened Amounts
  import opened Bits
  import opened Bytes
  import opened Coins
  import opened Compressor
  import opened Radix
  import opened Streams
  import opened VarInts
  import opened Wrappers

  // ---------------------------------------------------------------------------------------
  // The mask

  /** The bits of a byte, as the reader unpacks them. */
  function Unpack(x: byte): (bits: seq<bool>)
    ensures |bits| == 8
  {
    seq(8, p requires 0 <= p < 8 => Bit(x, p))
  }

  lemma UnpackPack(bits: seq<bool>)
    requires |bits| == 8
    ensures Pack(bits) < 256 && Unpack(Pack(bits)) == bits
  {
    assert Pow(2, 8) == 256;
    forall p | 0 <= p < 8
      ensures Bit(Pack(bits), p) == bits[p]
    {
      BitOfPack(bits, p);
    }
  }

  predicate Avail(vout: seq<TxOut>, i: nat) {
    i < |vout| && !IsNull(vout[i])
  }

  /** Availability of the outputs from i on, for n of them. */
  function Avails(vout: seq<TxOut>, i: nat, n: nat): (s: seq<bool>)
    ensures |s| == n
  {
    seq(n, k requires 0 <= k < n => Avail(vout, i + k))
  }

  function MaskByte(vout: seq<TxOut>, b: nat): byte {
    UnpackPack(Avails(vout, 2 + 8 * b, 8));
    Pack(Avails(vout, 2 + 8 * b, 8))
  }

  lemma MaskByteUnpacks(vout: seq<TxOut>, b: nat)
    ensures Unpack(MaskByte(vout, b)) == Avails(vout, 2 + 8 * b, 8)
  {
    UnpackPack(Avails(vout, 2 + 8 * b, 8));
  }

  lemma AvailsSplit(vout: seq<TxOut>, i: nat, m: nat, n: nat)
    ensures Avails(vout, i, m + n) == Avails(vout, i, m) + Avails(vout, i + m, n)
  {
  }

  lemma MaskByteZero(vout: seq<TxOut>, b: nat)
    ensures MaskByte(vout, b) == 0 <==> forall k :: 2 + 8 * b <= k < 10 + 8 * b ==> !Avail(vout, k)
  {
    var bits := Avails(vout, 2 + 8 * b, 8);
    PackZero(bits);
    assert forall k :: 2 + 8 * b <= k < 10 + 8 * b ==> bits[k - 2 - 8 * b] == Avail(vout, k);
    assert forall i :: 0 <= i < 8 ==> bits[i] == Avail(vout, 2 + 8 * b + i);
  }

  /** The number of bytes that could have a bit set. */
  function ByteCount(vout: seq<TxOut>): nat {
    if |vout| <= 2 then 0 else (|vout| + 5) / 8
  }

  /** One past the last of the first n bytes that is not zero. */
  function LastUsed(vout: seq<TxOut>, n: nat): (k: nat)
    ensures k <= n && (k > 0 ==> MaskByte(vout, k - 1) != 0)
    ensures forall b :: k <= b < n ==> MaskByte(vout, b) == 0
  {
    if n == 0 then 0 else if MaskByte(vout, n - 1) != 0 then n else LastUsed(vout, n - 1)
  }

  /** How many of the first n bytes are not zero. */
  function Nonzero(vout: seq<TxOut>, n: nat): (k: nat)
    ensures k <= n
  {
    if n == 0 then 0 else Nonzero(vout, n - 1) + if MaskByte(vout, n - 1) != 0 then 1 else 0
  }

  function MaskSize(vout: seq<TxOut>): nat {
    LastUsed(vout, ByteCount(vout))
  }

  function MaskCode(vout: seq<TxOut>): nat {
    Nonzero(vout, ByteCount(vout))
  }

  /** The mask bytes from b up to n. */
  function Mask(vout: seq<TxOut>, b: nat, n: nat): (s: seq<byte>)
    requires b <= n
    decreases n - b
  {
    if b == n then [] else [MaskByte(vout, b)] + Mask(vout, b + 1, n)
  }

  lemma {:induction false} NonzeroMono(vout: seq<TxOut>, b: nat, n: nat)
    requires b <= n
    ensures Nonzero(vout, b) <= Nonzero(vout, n)
    ensures b < n && MaskByte(vout, n - 1) != 0 ==> Nonzero(vout, b) < Nonzero(vout, n)
    ensures (forall k :: b <= k < n ==> MaskByte(vout, k) == 0) ==> Nonzero(vout, b) == Nonzero(vout, n)
  {
    if b < n {
      NonzeroMono(vout, b, n - 1);
    }
  }

  /** CalcMaskSize: both counts, in one loop over the outputs. */
  method CalcMaskSize(vout: seq<TxOut>) returns (nBytes: nat, nNonzeroBytes: nat)
    ensures nBytes == MaskSize(vout) && nNonzeroBytes == MaskCode(vout)
  {
    hide MaskByte, Avail, Avails;
    var nLastUsedByte := 0;
    nNonzeroBytes := 0;
    var b := 0;
    while 2 + b * 8 < |vout|
      invariant b <= ByteCount(vout)
      invariant nLastUsedByte == LastUsed(vout, b) && nNonzeroBytes == Nonzero(vout, b)
      decreases |vout| - b
    {
      var fZero := AllSpent(vout, b);
      if !fZero {
        nLastUsedByte := b + 1;
        nNonzeroBytes := nNonzeroBytes + 1;
      }
      b := b + 1;
    }
    nBytes := nLastUsedByte;
  }

  method AllSpent(vout: seq<TxOut>, b: nat) returns (fZero: bool)
    requires 2 + b * 8 < |vout|
    ensures fZero <==> MaskByte(vout, b) == 0
  {
    MaskByteZero(vout, b);
    fZero := true;
    var i := 0;
    while i < 8 && 2 + b * 8 + i < |vout|
      invariant i <= 8 && fZero == forall k :: 2 + 8 * b <= k < 2 + 8 * b + i ==> !Avail(vout, k)
    {
      if !IsNull(vout[2 + b * 8 + i]) {
        assert Avail(vout, 2 + 8 * b + i);
        fZero := false;
      }
      i := i + 1;
    }
  }

  /** No output that is available lies beyond the mask. */
  lemma MaskCovers(vout: seq<TxOut>, i: nat)
    requires Avail(vout, i)
    ensures i < 2 + 8 * MaskSize(vout)
  {
    if i >= 2 {
      MaskByteZero(vout, (i - 2) / 8);
    }
  }

  /** The mask is there for nothing only if the first two outputs say it all; and its code, the number of
      bytes that are not zero, determines where it ends. */
  lemma MaskCodeCounts(vout: seq<TxOut>)
    ensures MaskCode(vout) == Nonzero(vout, MaskSize(vout))
    ensures MaskCode(vout) == 0 <==> forall i: nat :: i >= 2 ==> !Avail(vout, i)
  {
    NonzeroMono(vout, MaskSize(vout), ByteCount(vout));
    if MaskSize(vout) > 0 {
      NonzeroMono(vout, 0, MaskSize(vout));
      MaskByteZero(vout, MaskSize(vout) - 1);
    } else {
      forall i: nat | i >= 2
        ensures !Avail(vout, i)
      {
        if Avail(vout, i) {
          MaskCovers(vout, i);
        }
      }
    }
  }

  /** Reading mask bytes until `code` of them are not zero. */
  function ReadMask(data: seq<byte>, code: nat): Option<(seq<bool>, seq<byte>)> {
    if code == 0 then Some(([], data))
    else if data == [] then None
    else match ReadMask(data[1..], if data[0] != 0 then code - 1 else code)
    case None => None
    case Some((bits, rest)) => Some((Unpack(data[0]) + bits, rest))
  }

  lemma MaskSteps(vout: seq<TxOut>, b: nat, n: nat)
    requires b <= n
    ensures Mask(vout, b, n) == if b == n then [] else [MaskByte(vout, b)] + Mask(vout, b + 1, n)
  {
  }

  lemma ReadMaskSteps(data: seq<byte>, code: nat)
    ensures ReadMask(data, code)
            == if code == 0 then Some(([], data))
               else if data == [] then None
               else match ReadMask(data[1..], if data[0] != 0 then code - 1 else code)
                    case None => None
                    case Some((bits, rest)) => Some((Unpack(data[0]) + bits, rest))
  {
  }

  /** The reader stops exactly at the end of the mask. */
  lemma {:induction false} ReadMaskWritten(vout: seq<TxOut>, b: nat, n: nat, rest: seq<byte>)
    requires b <= n && (n > 0 ==> MaskByte(vout, n - 1) != 0) && Nonzero(vout, b) <= Nonzero(vout, n)
    ensures ReadMask(Mask(vout, b, n) + rest, Nonzero(vout, n) - Nonzero(vout, b))
            == Some((Avails(vout, 2 + 8 * b, 8 * (n - b)), rest))
    decreases n - b
  {
    hide MaskByte, Avails, Unpack, Nonzero, ReadMask, Mask;
    MaskSteps(vout, b, n);
    var data := Mask(vout, b, n) + rest;
    ReadMaskSteps(data, Nonzero(vout, n) - Nonzero(vout, b));
    if b == n {
      assert data == rest;
      assert |Avails(vout, 2 + 8 * b, 0)| == 0;
    } else {
      NonzeroMono(vout, b, n);
      NonzeroMono(vout, b + 1, n);
      NonzeroStep(vout, b);
      ReadMaskWritten(vout, b + 1, n, rest);
      assert data[0] == MaskByte(vout, b) && data[1..] == Mask(vout, b + 1, n) + rest;
      MaskByteUnpacks(vout, b);
      AvailsSplit(vout, 2 + 8 * b, 8, 8 * (n - b - 1));
    }
  }

  lemma NonzeroStep(vout: seq<TxOut>, b: nat)
    ensures Nonzero(vout, b + 1) == Nonzero(vout, b) + if MaskByte(vout, b) != 0 then 1 else 0
  {
  }

  // ---------------------------------------------------------------------------------------
  // The outputs

  /** The outputs that are not null, from i on, in their compact form. */
  function OutsBytes(keys: Keys, vout: seq<TxOut>, i: nat): seq<byte>
    decreases |vout| - i
  {
    if i >= |vout| then []
    else (if IsNull(vout[i]) then [] else TxOutBytes(keys, vout[i])) + OutsBytes(keys, vout, i + 1)
  }

  /** Reading an output for each bit that is set; the others stay null. */
  function ReadOuts(keys: Keys, data: seq<byte>, avail: seq<bool>): Option<(seq<TxOut>, seq<byte>)>
    decreases |avail|
  {
    if avail == [] then Some(([], data))
    else if !avail[0] then
      match ReadOuts(keys, data, avail[1..])
      case None => None
      case Some((outs, rest)) => Some(([NULL_OUT] + outs, rest))
    else
      match ReadTxOut(keys, data)
      case None => None
      case Some((out, more)) =>
        match ReadOuts(keys, more, avail[1..])
        case None => None
        case Some((outs, rest)) => Some(([out] + outs, rest))
  }

  /** What is read of n outputs from i on, null where there is none. */
  function Padded(vout: seq<TxOut>, i: nat, n: nat): (s: seq<TxOut>)
    ensures |s| == n && forall k :: 0 <= k < n ==> s[k] == if Avail(vout, i + k) then AsRead(vout[i + k]) else NULL_OUT
  {
    seq(n, k requires 0 <= k < n => if Avail(vout, i + k) then AsRead(vout[i + k]) else NULL_OUT)
  }

  ghost predicate AllSized(vout: seq<TxOut>) {
    forall i :: 0 <= i < |vout| && !IsNull(vout[i]) ==> Sized(vout[i])
  }

  ghost predicate AllFit(vout: seq<TxOut>) {
    forall i :: 0 <= i < |vout| && !IsNull(vout[i]) ==> Fits(vout[i])
  }

  lemma {:induction false} ReadOutsWritten(keys: Keys, vout: seq<TxOut>, i: nat, n: nat, rest: seq<byte>)
    requires Sound(keys) && AllSized(vout)
    requires forall k: nat :: Avail(vout, k) ==> k < i + n
    ensures ReadOuts(keys, OutsBytes(keys, vout, i) + rest, Avails(vout, i, n)) == Some((Padded(vout, i, n), rest))
    decreases n
  {
    hide ReadTxOut, TxOutBytes, Sound, OutsBytes, Padded, Avails, Sized, AsRead, IsNull;
    var data := OutsBytes(keys, vout, i) + rest;
    if n == 0 {
      NothingWritten(keys, vout, i);
      assert data == rest && Padded(vout, i, n) == [] && Avails(vout, i, n) == [];
    } else {
      ReadOutsWritten(keys, vout, i + 1, n - 1, rest);
      OutsSteps(keys, vout, i, n);
      assert ([Avail(vout, i)] + Avails(vout, i + 1, n - 1))[1..] == Avails(vout, i + 1, n - 1);
      if Avail(vout, i) {
        ReadOneWritten(keys, vout, i, rest);
      } else {
        assert data == OutsBytes(keys, vout, i + 1) + rest;
      }
    }
  }

  lemma OutsSteps(keys: Keys, vout: seq<TxOut>, i: nat, n: nat)
    requires n > 0
    ensures Avails(vout, i, n) == [Avail(vout, i)] + Avails(vout, i + 1, n - 1)
    ensures Padded(vout, i, n) == [if Avail(vout, i) then AsRead(vout[i]) else NULL_OUT] + Padded(vout, i + 1, n - 1)
    ensures OutsBytes(keys, vout, i)
            == (if Avail(vout, i) then TxOutBytes(keys, vout[i]) else []) + OutsBytes(keys, vout, i + 1)
  {
    hide AsRead, TxOutBytes, Padded;
    PaddedStep(vout, i, n);
  }

  lemma PaddedStep(vout: seq<TxOut>, i: nat, n: nat)
    requires n > 0
    ensures Padded(vout, i, n) == [if Avail(vout, i) then AsRead(vout[i]) else NULL_OUT] + Padded(vout, i + 1, n - 1)
  {
    hide AsRead, Avail;
  }

  lemma ReadOneWritten(keys: Keys, vout: seq<TxOut>, i: nat, rest: seq<byte>)
    requires Sound(keys) && AllSized(vout) && Avail(vout, i)
    ensures ReadTxOut(keys, OutsBytes(keys, vout, i) + rest)
            == Some((AsRead(vout[i]), OutsBytes(keys, vout, i + 1) + rest))
  {
    hide ReadTxOut, TxOutBytes, Sound, Sized, AsRead;
    var more := OutsBytes(keys, vout, i + 1) + rest;
    assert OutsBytes(keys, vout, i) + rest == TxOutBytes(keys, vout[i]) + more;
    TxOutReadBack(keys, vout[i], more);
  }

  lemma {:induction false} NothingWritten(keys: Keys, vout: seq<TxOut>, i: nat)
    requires forall k: nat :: Avail(vout, k) ==> k < i
    ensures OutsBytes(keys, vout, i) == []
    decreases |vout| - i
  {
    if i < |vout| {
      assert !Avail(vout, i);
      NothingWritten(keys, vout, i + 1);
    }
  }

  /** What is read of all outputs. */
  function OutsAsRead(vout: seq<TxOut>): (s: seq<TxOut>)
    ensures |s| == |vout|
    ensures forall i :: 0 <= i < |vout| ==> s[i] == if IsNull(vout[i]) then NULL_OUT else AsRead(vout[i])
  {
    seq(|vout|, i requires 0 <= i < |vout| => if IsNull(vout[i]) then NULL_OUT else AsRead(vout[i]))
  }

  /** Cleaned up, it does not matter how many null outputs there are at the end. */
  lemma TrimPadded(vout: seq<TxOut>, n: nat)
    requires forall k: nat :: Avail(vout, k) ==> k < n
    ensures Trim(Padded(vout, 0, n)) == Trim(OutsAsRead(vout))
  {
    hide Padded, Trim, OutsAsRead, AsRead;
    var read := OutsAsRead(vout);
    var m := |Trim(read)|;
    var padded := Padded(vout, 0, n);
    if m > 0 {
      assert Avail(vout, m - 1);
    }
    forall k | m <= k < n
      ensures IsNull(padded[k])
    {
      assert k < |vout| ==> IsNull(read[k]);
    }
    TrimIs(padded, m);
    assert padded[..m] == read[..m];
  }

  /** And the outputs that were read are those that were written just if all their amounts fit. */
  lemma TrimAsRead(vout: seq<TxOut>)
    requires AllSized(vout) && forall i :: 0 <= i < |vout| && IsNull(vout[i]) ==> vout[i] == NULL_OUT
    ensures Trim(OutsAsRead(vout)) == Trim(vout) <==> AllFit(vout)
  {
    hide Trim, OutsAsRead, AsRead, Sized, Fits;
    forall i | 0 <= i < |vout| && !IsNull(vout[i])
      ensures AsRead(vout[i]) == vout[i] <==> Fits(vout[i])
    {
      AsReadFits(vout[i]);
    }
    var read := OutsAsRead(vout);
    if AllFit(vout) {
      assert read == vout;
    }
    if Trim(read) == Trim(vout) {
      forall i | 0 <= i < |vout| && !IsNull(vout[i])
        ensures Fits(vout[i])
      {
        assert i < |Trim(vout)|;
        assert Trim(read)[i] == read[i] && Trim(vout)[i] == vout[i];
      }
    }
  }

  lemma {:induction false} TrimIs(vout: seq<TxOut>, n: nat)
    requires n <= |vout| && (n > 0 ==> !IsNull(vout[n - 1])) && forall k :: n <= k < |vout| ==> IsNull(vout[k])
    ensures Trim(vout) == vout[..n]
  {
    var t := Trim(vout);
    assert t == vout[..|t|];
  }

  // ---------------------------------------------------------------------------------------
  // The whole record

  predicate First(c: Coins) {
    Avail(c.vout, 0)
  }

  predicate Second(c: Coins) {
    Avail(c.vout, 1)
  }

  /** The header code. */
  function Code(c: Coins): int {
    16 * (MaskCode(c.vout) - if First(c) || Second(c) then 0 else 1)
    + (if c.fCoinBase then 1 else 0) + (if c.fCoinStake then 2 else 0)
    + (if First(c) then 4 else 0) + (if Second(c) then 8 else 0)
  }

  /** The assertion in Serialize holds for all coins that are not pruned. */
  lemma CodeNotNegative(c: Coins)
    requires !IsPruned(c)
    ensures First(c) || Second(c) || MaskCode(c.vout) > 0
    ensures Code(c) >= 0
  {
    MaskCodeCounts(c.vout);
    var i :| 0 <= i < |c.vout| && !IsNull(c.vout[i]);
    assert Avail(c.vout, i);
  }

  /** What the reader takes from the header code. */
  lemma CodeParts(c: Coins)
    requires !IsPruned(c)
    ensures Code(c) >= 0
    ensures (Code(c) % 2 == 1) == c.fCoinBase && (Code(c) / 2 % 2 == 1) == c.fCoinStake
    ensures (Code(c) / 4 % 2 == 1) == First(c) && (Code(c) / 8 % 2 == 1) == Second(c)
    ensures Code(c) / 16 + (if Code(c) / 4 % 4 != 0 then 0 else 1) == MaskCode(c.vout)
  {
    hide MaskCode, First, Second;
    CodeNotNegative(c);
    CodeArithmetic(MaskCode(c.vout) - (if First(c) || Second(c) then 0 else 1),
                   c.fCoinBase, c.fCoinStake, First(c), Second(c));
  }

  lemma Halves(x: nat, b: bool)
    ensures var y := 2 * x + if b then 1 else 0; (y % 2 == 1) == b && y / 2 == x
  {
  }

  lemma CodeArithmetic(mask: nat, b0: bool, b1: bool, b2: bool, b3: bool)
    ensures var code := 16 * mask + (if b0 then 1 else 0) + (if b1 then 2 else 0)
                        + (if b2 then 4 else 0) + (if b3 then 8 else 0);
            && (code % 2 == 1) == b0 && (code / 2 % 2 == 1) == b1
            && (code / 4 % 2 == 1) == b2 && (code / 8 % 2 == 1) == b3
            && code / 16 == mask && (code / 4 % 4 != 0) == (b2 || b3)
  {
    var c3 := 2 * mask + if b3 then 1 else 0;
    var c2 := 2 * c3 + if b2 then 1 else 0;
    var c1 := 2 * c2 + if b1 then 1 else 0;
    Halves(mask, b3);
    Halves(c3, b2);
    Halves(c2, b1);
    Halves(c1, b0);
  }

  function CoinsBytes(keys: Keys, c: Coins): seq<byte>
    requires !IsPruned(c)
  {
    CodeNotNegative(c);
    SignedVarInt(c.nVersion) + VarInt(Code(c)) + Mask(c.vout, 0, MaskSize(c.vout)) + OutsBytes(keys, c.vout, 0)
    + SignedVarInt(c.nHeight)
  }

  /** Reading an int: what wraps is taken as negative. */
  function ReadInt(data: seq<byte>): Option<(int, seq<byte>)> {
    match ReadUnsigned(data, U32)
    case None => None
    case Some((n, rest)) => Some((if n < U32 / 2 then n else n - U32, rest))
  }

  /** An int is read as what is congruent to the number read, within 32 bits. */
  lemma ReadIntIs(data: seq<byte>)
    requires ReadUnsigned(data, U32).Some?
    ensures ReadInt(data).Some? && ReadInt(data).value.1 == ReadUnsigned(data, U32).value.1
    ensures var n: int, u: int := ReadInt(data).value.0, ReadUnsigned(data, U32).value.0;
            -0x8000_0000 <= n < 0x8000_0000 && (n == u || n == u - 0x1_0000_0000)
  {
  }

  /** CCoins::Unserialize. */
  function ReadCoins(keys: Keys, data: seq<byte>): Option<(Coins, seq<byte>)> {
    match ReadInt(data)
    case None => None
    case Some((nVersion, data1)) =>
      match ReadUnsigned(data1, U32)
      case None => None
      case Some((nCode, data2)) => ReadBody(keys, data2, nVersion, nCode)
  }

  /** The part after the header code. */
  function ReadBody(keys: Keys, data: seq<byte>, nVersion: int, nCode: nat): Option<(Coins, seq<byte>)> {
    match ReadMask(data, nCode / 16 + if nCode / 4 % 4 != 0 then 0 else 1)
    case None => None
    case Some((bits, data1)) =>
      match ReadOuts(keys, data1, [nCode / 4 % 2 == 1, nCode / 8 % 2 == 1] + bits)
      case None => None
      case Some((vout, data2)) =>
        match ReadInt(data2)
        case None => None
        case Some((nHeight, rest)) =>
          Some((Coins(nCode % 2 == 1, nCode / 2 % 2 == 1, Trim(vout), nHeight, nVersion), rest))
  }

  /** What is read of an int: the last seven bits, if it was negative. */
  function IntAsRead(n: int): int {
    if n < 0 then n % 128 else n
  }

  lemma IntRoundTrip(n: int, rest: seq<byte>)
    requires n < U32 / 2
    ensures ReadInt(SignedVarInt(n) + rest) == Some((IntAsRead(n), rest))
  {
    if n < 0 {
      ShortVarInt(n % 128);
      ParseVarInt(n % 128, rest);
    } else {
      ParseVarInt(n, rest);
    }
  }

  /** What serialization is for: coins with unspent outputs. The types hold their numbers and sizes. */
  ghost predicate Storable(c: Coins) {
    && !IsPruned(c) && Canonical(c) && AllSized(c.vout)
    && Code(c) < U32 && c.nVersion < U32 / 2 && c.nHeight < U32 / 2
  }

  lemma MaskRoundTrip(vout: seq<TxOut>, rest: seq<byte>)
    ensures ReadMask(Mask(vout, 0, MaskSize(vout)) + rest, MaskCode(vout))
            == Some((Avails(vout, 2, 8 * MaskSize(vout)), rest))
  {
    MaskCodeCounts(vout);
    NonzeroMono(vout, 0, MaskSize(vout));
    ReadMaskWritten(vout, 0, MaskSize(vout), rest);
  }

  lemma OutsRoundTrip(keys: Keys, c: Coins, rest: seq<byte>)
    requires Sound(keys) && AllSized(c.vout)
    ensures var avail := [First(c), Second(c)] + Avails(c.vout, 2, 8 * MaskSize(c.vout));
            var read := ReadOuts(keys, OutsBytes(keys, c.vout, 0) + rest, avail);
            read.Some? && read.value.1 == rest && Trim(read.value.0) == Trim(OutsAsRead(c.vout))
  {
    hide ReadOuts, OutsBytes, Padded, OutsAsRead, Avails, Trim, MaskSize, Sound, AllSized;
    var n := 2 + 8 * MaskSize(c.vout);
    forall k: nat | Avail(c.vout, k)
      ensures k < n
    {
      MaskCovers(c.vout, k);
    }
    AvailsSplit(c.vout, 0, 2, n - 2);
    FirstTwo(c);
    ReadOutsWritten(keys, c.vout, 0, n, rest);
    TrimPadded(c.vout, n);
  }

  lemma FirstTwo(c: Coins)
    ensures Avails(c.vout, 0, 2) == [First(c), Second(c)]
  {
  }

  /** What is read of a record: an int as its last seven bits if it is negative, an output with the amount that
      its compact form gives. */
  function CoinsAsRead(c: Coins): Coins {
    Cleaned(c.(nVersion := IntAsRead(c.nVersion), nHeight := IntAsRead(c.nHeight), vout := OutsAsRead(c.vout)))
  }

  /** Whatever is stored is read back so, consuming exactly the bytes written. */
  lemma CoinsReadBack(keys: Keys, c: Coins, rest: seq<byte>)
    requires Sound(keys) && Storable(c)
    ensures ReadCoins(keys, CoinsBytes(keys, c) + rest) == Some((CoinsAsRead(c), rest))
  {
    hide ReadInt, ReadBody, OutsBytes, Mask, MaskSize, SignedVarInt, VarInt, Parse, Sound, AllSized, Code, CoinsAsRead;
    CodeNotNegative(c);
    var data2 := Mask(c.vout, 0, MaskSize(c.vout)) + (OutsBytes(keys, c.vout, 0) + (SignedVarInt(c.nHeight) + rest));
    var data1 := VarInt(Code(c)) + data2;
    assert CoinsBytes(keys, c) + rest == SignedVarInt(c.nVersion) + data1;
    IntRoundTrip(c.nVersion, data1);
    ParseVarInt(Code(c), data2);
    BodyReadBack(keys, c, rest);
  }

  lemma BodyReadBack(keys: Keys, c: Coins, rest: seq<byte>)
    requires Sound(keys) && Storable(c)
    ensures Code(c) >= 0
    ensures ReadBody(keys, Mask(c.vout, 0, MaskSize(c.vout))
                           + (OutsBytes(keys, c.vout, 0) + (SignedVarInt(c.nHeight) + rest)),
                     IntAsRead(c.nVersion), Code(c))
            == Some((CoinsAsRead(c), rest))
  {
    hide ReadInt, ReadMask, ReadOuts, OutsBytes, Mask, MaskSize, MaskCode, SignedVarInt, Sound, AllSized, Code, Avails,
      OutsAsRead;
    CodeParts(c);
    var data2 := SignedVarInt(c.nHeight) + rest;
    MaskRoundTrip(c.vout, OutsBytes(keys, c.vout, 0) + data2);
    OutsRoundTrip(keys, c, data2);
    IntRoundTrip(c.nHeight, rest);
  }

  /** So the round trip gives the same coins, up to null outputs at the end, just when neither int is negative and
      every amount fits its compact form. */
  lemma CoinsRoundTrip(keys: Keys, c: Coins, rest: seq<byte>)
    requires Sound(keys) && Storable(c)
    ensures ReadCoins(keys, CoinsBytes(keys, c) + rest) == Some((Cleaned(c), rest))
            <==> c.nVersion >= 0 && c.nHeight >= 0 && AllFit(c.vout)
  {
    hide ReadCoins, CoinsBytes, Sound, OutsAsRead, AllSized, AllFit, Trim;
    CoinsReadBack(keys, c, rest);
    TrimAsRead(c.vout);
  }

  /** A version of -1 comes back as 127, whatever the keys. */
  lemma NegativeVersionLost(keys: Keys, rest: seq<byte>)
    requires Sound(keys)
    ensures var c := Coins(false, false, [TxOut(1, [])], 1, -1);
            Storable(c) && ReadCoins(keys, CoinsBytes(keys, c) + rest) == Some((c.(nVersion := 127), rest))
  {
    hide ReadCoins, CoinsBytes, Sound, MaskCode, AsRead;
    var c := Coins(false, false, [TxOut(1, [])], 1, -1);
    MaskCodeCounts(c.vout);
    assert First(c) && MaskCode(c.vout) == 0;
    assert !IsNull(c.vout[0]) && !IsPruned(c);
    assert Code(c) == 4 && Sized(c.vout[0]);
    assert Storable(c);
    CoinsReadBack(keys, c, rest);
    AsReadFits(c.vout[0]);
    assert OutsAsRead(c.vout) == c.vout;
    CleanedIsClean(c);
  }

  // ---------------------------------------------------------------------------------------
  // The methods, on streams

  method WriteInt(s: DataStream, n: int)
    requires n < U32 / 2
    modifies s
    ensures s.data == old(s.data) + SignedVarInt(n)
  {
    U32IsPower();
    WriteVarInt(s, 32, n);
  }

  method ReadIntFrom(s: DataStream) returns (r: Option<int>)
    modifies s
    ensures match ReadInt(old(s.data))
            case None => r == None
            case Some((n, rest)) => r == Some(n) && s.data == rest
  {
    var u := ReadVarInt(s, U32);
    if u == None {
      return None;
    }
    r := Some(if u.value < U32 / 2 then u.value else u.value - U32);
  }

  lemma AvailsPlus(vout: seq<TxOut>, i: nat, n: nat, f: bool)
    requires f <==> i + n < |vout| && !IsNull(vout[i + n])
    ensures Avails(vout, i, n + 1) == Avails(vout, i, n) + [f]
  {
    assert f == Avail(vout, i + n);
    AvailsSplit(vout, i, n, 1);
    assert Avails(vout, i + n, 1) == [f];
  }

  /** The loop over the bits of a byte. */
  method AvailByte(vout: seq<TxOut>, b: nat) returns (chAvail: byte)
    ensures chAvail == MaskByte(vout, b)
  {
    hide Pack, Unpack, Avails, Avail;
    UnpackPack(Avails(vout, 2 + 8 * b, 8));
    var x: nat := 0;
    PackZero(Avails(vout, 2 + 8 * b, 0));
    for i := 0 to 8
      invariant x == Pack(Avails(vout, 2 + 8 * b, i))
    {
      var f := 2 + b * 8 + i < |vout| && !IsNull(vout[2 + b * 8 + i]);
      AvailsPlus(vout, 2 + 8 * b, i, f);
      PackPlus(Avails(vout, 2 + 8 * b, i), f);
      if f {
        x := x + Pow(2, i);
      }
    }
    chAvail := x;
  }

  /** CCoins::Serialize. */
  method Serialize(keys: Keys, s: DataStream, c: Coins)
    requires !IsPruned(c) && Code(c) < U32 && c.nVersion < U32 / 2 && c.nHeight < U32 / 2
    requires forall i :: 0 <= i < |c.vout| ==> |c.vout[i].scriptPubKey| + SPECIAL_SCRIPTS < U32
    modifies s
    ensures s.data == old(s.data) + CoinsBytes(keys, c)
  {
    hide OutsBytes, Mask, MaskSize, MaskCode, SignedVarInt, VarInt;
    CodeNotNegative(c);
    var nMaskSize, nMaskCode := CalcMaskSize(c.vout);
    var fFirst, fSecond := Avail(c.vout, 0), Avail(c.vout, 1);
    assert fFirst || fSecond || nMaskCode > 0;
    var nCode := 16 * (nMaskCode - if fFirst || fSecond then 0 else 1) + (if c.fCoinBase then 1 else 0)
                 + (if c.fCoinStake then 2 else 0) + (if fFirst then 4 else 0) + (if fSecond then 8 else 0);
    WriteParts(keys, s, c, nCode, nMaskSize);
  }

  method WriteParts(keys: Keys, s: DataStream, c: Coins, nCode: nat, nMaskSize: nat)
    requires nCode < U32 && nMaskSize == MaskSize(c.vout) && c.nVersion < U32 / 2 && c.nHeight < U32 / 2
    requires forall i :: 0 <= i < |c.vout| ==> |c.vout[i].scriptPubKey| + SPECIAL_SCRIPTS < U32
    modifies s
    ensures s.data == old(s.data) + (SignedVarInt(c.nVersion) + VarInt(nCode) + Mask(c.vout, 0, nMaskSize)
                                     + OutsBytes(keys, c.vout, 0) + SignedVarInt(c.nHeight))
  {
    hide OutsBytes, Mask, MaskSize, SignedVarInt, VarInt;
    ghost var start := s.data;
    ghost var data := SignedVarInt(c.nVersion);
    WriteInt(s, c.nVersion);
    WriteCode(s, nCode);
    data := data + VarInt(nCode);
    assert s.data == start + data;
    WriteMask(s, c.vout, nMaskSize);
    data := data + Mask(c.vout, 0, nMaskSize);
    assert s.data == start + data;
    WriteOuts(keys, s, c.vout);
    data := data + OutsBytes(keys, c.vout, 0);
    assert s.data == start + data;
    WriteInt(s, c.nHeight);
    assert s.data == start + (data + SignedVarInt(c.nHeight));
  }

  method WriteCode(s: DataStream, nCode: nat)
    requires nCode < U32
    modifies s
    ensures s.data == old(s.data) + VarInt(nCode)
  {
    U32IsPower();
    WriteVarInt(s, 32, nCode);
  }

  method WriteMask(s: DataStream, vout: seq<TxOut>, nMaskSize: nat)
    requires nMaskSize == MaskSize(vout)
    modifies s
    ensures s.data == old(s.data) + Mask(vout, 0, nMaskSize)
  {
    hide MaskByte, MaskSize;
    assert Mask(vout, nMaskSize, nMaskSize) == [];
    assert Mask(vout, 0, 0) == [];
    ghost var start := s.data;
    for b := 0 to nMaskSize
      invariant s.data + Mask(vout, b, nMaskSize) == start + Mask(vout, 0, nMaskSize)
    {
      var chAvail := AvailByte(vout, b);
      ghost var before := s.data;
      s.Write([chAvail]);
      assert before + Mask(vout, b, nMaskSize) == before + [chAvail] + Mask(vout, b + 1, nMaskSize);
    }
    assert s.data + [] == s.data;
  }

  method WriteOuts(keys: Keys, s: DataStream, vout: seq<TxOut>)
    requires forall i :: 0 <= i < |vout| ==> |vout[i].scriptPubKey| + SPECIAL_SCRIPTS < U32
    modifies s
    ensures s.data == old(s.data) + OutsBytes(keys, vout, 0)
  {
    hide TxOutBytes, OutsBytes;
    ghost var start := s.data;
    for i := 0 to |vout|
      invariant s.data + OutsBytes(keys, vout, i) == start + OutsBytes(keys, vout, 0)
    {
      ghost var before := s.data;
      OutsSteps(keys, vout, i, 1);
      if !IsNull(vout[i]) {
        WriteTxOut(keys, s, vout[i]);
        assert before + (TxOutBytes(keys, vout[i]) + OutsBytes(keys, vout, i + 1))
               == before + TxOutBytes(keys, vout[i]) + OutsBytes(keys, vout, i + 1);
      } else {
        assert [] + OutsBytes(keys, vout, i + 1) == OutsBytes(keys, vout, i + 1);
      }
    }
    NothingWritten(keys, vout, |vout|);
    assert s.data + [] == s.data;
  }

  /** The loop over the mask bytes. */
  method ReadMaskFrom(s: DataStream, code: nat) returns (r: Option<seq<bool>>)
    modifies s
    ensures match ReadMask(old(s.data), code)
            case None => r == None
            case Some((bits, rest)) => r == Some(bits) && s.data == rest
  {
    var vAvail: seq<bool> := [];
    var nMaskCode := code;
    ghost var all := ReadMask(s.data, code);
    assert all.Some? ==> [] + all.value.0 == all.value.0;
    while nMaskCode > 0
      invariant ReadMask(old(s.data), code)
                == match ReadMask(s.data, nMaskCode)
                   case None => None
                   case Some((bits, rest)) => Some((vAvail + bits, rest))
      decreases |s.data|
    {
      ghost var data := s.data;
      var ok, bytes := s.Read(1);
      if !ok {
        return None;
      }
      var chAvail := bytes[0];
      vAvail := MoreBits(s, old(s.data), code, nMaskCode, data, vAvail, chAvail);
      if chAvail != 0 {
        nMaskCode := nMaskCode - 1;
      }
    }
    assert vAvail + [] == vAvail;
    r := Some(vAvail);
  }

  /** The loop over the bits of one mask byte. */
  method MoreBits(s: DataStream, ghost start: seq<byte>, ghost code: nat, ghost nMaskCode: nat,
                  ghost data: seq<byte>, vAvail: seq<bool>, chAvail: byte) returns (more: seq<bool>)
    requires data != [] && data[0] == chAvail && s.data == data[1..] && nMaskCode > 0
    requires ReadMask(start, code) == match ReadMask(data, nMaskCode)
                                      case None => None
                                      case Some((bits, rest)) => Some((vAvail + bits, rest))
    ensures more == vAvail + Unpack(chAvail)
    ensures ReadMask(start, code) == match ReadMask(s.data, if chAvail != 0 then nMaskCode - 1 else nMaskCode)
                                     case None => None
                                     case Some((bits, rest)) => Some((more + bits, rest))
  {
    more := vAvail;
    for p := 0 to 8
      invariant more == vAvail + Unpack(chAvail)[..p]
    {
      more := more + [Bit(chAvail, p)];
    }
    var next := ReadMask(s.data, if chAvail != 0 then nMaskCode - 1 else nMaskCode);
    if next.Some? {
      assert vAvail + (Unpack(chAvail) + next.value.0) == more + next.value.0;
    }
  }

  /** The loop that reads the outputs into null ones. */
  method ReadOutsFrom(keys: Keys, s: DataStream, vAvail: seq<bool>) returns (r: Option<seq<TxOut>>)
    modifies s
    ensures match ReadOuts(keys, old(s.data), vAvail)
            case None => r == None
            case Some((vout, rest)) => r == Some(vout) && s.data == rest
  {
    var vout: seq<TxOut> := [];
    var i := 0;
    assert vAvail[0..] == vAvail;
    ghost var all := ReadOuts(keys, s.data, vAvail);
    assert all.Some? ==> [] + all.value.0 == all.value.0;
    while i < |vAvail|
      invariant i <= |vAvail| == i + |vAvail[i..]|
      invariant ReadOuts(keys, old(s.data), vAvail)
                == match ReadOuts(keys, s.data, vAvail[i..])
                   case None => None
                   case Some((outs, rest)) => Some((vout + outs, rest))
    {
      ghost var data := s.data;
      var out := NULL_OUT;
      if vAvail[i] {
        var read := ReadTxOutInto(keys, s);
        if read == None {
          return None;
        }
        out := read.value;
      }
      OutsMore(keys, data, s.data, vAvail, i, vout, out);
      vout := vout + [out];
      i := i + 1;
    }
    assert vout + [] == vout;
    r := Some(vout);
  }

  lemma OutsMore(keys: Keys, before: seq<byte>, after: seq<byte>, vAvail: seq<bool>, i: nat, vout: seq<TxOut>,
                 out: TxOut)
    requires i < |vAvail|
    requires if vAvail[i] then ReadTxOut(keys, before) == Some((out, after)) else before == after && out == NULL_OUT
    ensures (match ReadOuts(keys, before, vAvail[i..])
             case None => None
             case Some((outs, rest)) => Some((vout + outs, rest)))
            == match ReadOuts(keys, after, vAvail[i + 1..])
               case None => None
               case Some((outs, rest)) => Some((vout + [out] + outs, rest))
  {
    assert vAvail[i..][1..] == vAvail[i + 1..];
    var next := ReadOuts(keys, after, vAvail[i + 1..]);
    if next.Some? {
      assert vout + ([out] + next.value.0) == vout + [out] + next.value.0;
    }
  }

  /** CCoins::Unserialize. */
  method Unserialize(keys: Keys, s: DataStream) returns (r: Option<Coins>)
    modifies s
    ensures match ReadCoins(keys, old(s.data))
            case None => r == None
            case Some((c, rest)) => r == Some(c) && s.data == rest
  {
    hide ReadInt, ReadMask, ReadOuts, Parse;
    var nVersion := ReadIntFrom(s);
    if nVersion == None {
      return None;
    }
    var nCode := ReadVarInt(s, U32);
    if nCode == None {
      return None;
    }
    r := UnserializeBody(keys, s, nVersion.value, nCode.value);
  }

  method UnserializeBody(keys: Keys, s: DataStream, nVersion: int, nCode: nat) returns (r: Option<Coins>)
    modifies s
    ensures match ReadBody(keys, old(s.data), nVersion, nCode)
            case None => r == None
            case Some((c, rest)) => r == Some(c) && s.data == rest
  {
    hide ReadInt, ReadMask, ReadOuts, Trim;
    var vAvail := [nCode / 4 % 2 == 1, nCode / 8 % 2 == 1];
    var bits := ReadMaskFrom(s, nCode / 16 + if nCode / 4 % 4 != 0 then 0 else 1);
    if bits == None {
      return None;
    }
    var vout := ReadOutsFrom(keys, s, vAvail + bits.value);
    if vout == None {
      return None;
    }
    var nHeight := ReadIntFrom(s);
    if nHeight == None {
      return None;
    }
    var clean := Cleanup(vout.value);
    r := Some(Coins(nCode % 2 == 1, nCode / 2 % 2 == 1, clean, nHeight.value, nVersion));
  }
}
