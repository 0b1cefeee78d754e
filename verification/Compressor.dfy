/** Compact forms of scripts and outputs (src/compressor.cpp, src/compressor.h). */
module Compressor {
  import opened Amounts
  import opened Bytes
  import opened Radix
  import opened Coins
  import opened Streams
  import opened VarInts
  import opened Wrappers

  // ---------------------------------------------------------------------------------------
  // Scripts

  const OP_DUP: byte := 0x76
  const OP_EQUAL: byte := 0x87
  const OP_EQUALVERIFY: byte := 0x88
  const OP_HASH160: byte := 0xa9
  const OP_CHECKSIG: byte := 0xac

  const SPECIAL_SCRIPTS: nat := 6

  /** An uncompressed public key. */
  type FullKey = k: seq<byte> | |k| == 65 witness seq(65, i => 0)

  /** The public key operations of CPubKey that scripts are compressed with. */
  datatype Keys = Keys(isFullyValid: seq<byte> -> bool, decompress: seq<byte> -> Option<FullKey>)

  /** The compressed form of an uncompressed key: a byte for the parity, and the first coordinate. */
  function Short(key: FullKey): seq<byte> {
    [2 + key[64] % 2] + key[1..33]
  }

  /** A valid uncompressed key is the decompressed form of its compressed form. */
  ghost predicate Sound(keys: Keys) {
    forall key: FullKey :: key[0] == 0x04 && keys.isFullyValid(key) ==> keys.decompress(Short(key)) == Some(key)
  }

  predicate IsToKeyID(script: seq<byte>) {
    && |script| == 25 && script[0] == OP_DUP && script[1] == OP_HASH160 && script[2] == 20
    && script[23] == OP_EQUALVERIFY && script[24] == OP_CHECKSIG
  }

  predicate IsToScriptID(script: seq<byte>) {
    |script| == 23 && script[0] == OP_HASH160 && script[1] == 20 && script[22] == OP_EQUAL
  }

  /** The public key of a pay-to-pubkey script that can be compressed. */
  function PubKeyOf(keys: Keys, script: seq<byte>): Option<seq<byte>> {
    if |script| == 35 && script[0] == 33 && script[34] == OP_CHECKSIG && (script[1] == 0x02 || script[1] == 0x03)
    then Some(script[1..34])
    else if |script| == 67 && script[0] == 65 && script[66] == OP_CHECKSIG && script[1] == 0x04
            && keys.isFullyValid(script[1..66])
    then Some(script[1..66])
    else None
  }

  /** CScriptCompressor::Compress. */
  function CompressScript(keys: Keys, script: seq<byte>): (r: Option<seq<byte>>)
    ensures r.Some? ==> r.value != [] && r.value[0] < SPECIAL_SCRIPTS && |r.value| == 1 + SpecialSize(r.value[0])
  {
    if IsToKeyID(script) then Some([0x00] + script[3..23])
    else if IsToScriptID(script) then Some([0x01] + script[2..22])
    else match PubKeyOf(keys, script)
    case None => None
    case Some(key) =>
      if key[0] == 0x04 then Some([4 + key[64] % 2] + key[1..33]) else Some([key[0]] + key[1..33])
  }

  /** GetSpecialSize. */
  function SpecialSize(nSize: nat): nat {
    if nSize <= 1 then 20 else if nSize <= 5 then 32 else 0
  }

  /** CScriptCompressor::Decompress; without a result the script stays as it was. */
  function DecompressScript(keys: Keys, nSize: nat, from: seq<byte>): Option<seq<byte>>
    requires nSize < SPECIAL_SCRIPTS && |from| == SpecialSize(nSize)
  {
    if nSize == 0 then Some([OP_DUP, OP_HASH160, 20] + from + [OP_EQUALVERIFY, OP_CHECKSIG])
    else if nSize == 1 then Some([OP_HASH160, 20] + from + [OP_EQUAL])
    else if nSize <= 3 then Some([33, nSize] + from + [OP_CHECKSIG])
    else match keys.decompress([nSize - 2] + from)
    case None => None
    case Some(key) => Some([65] + key + [OP_CHECKSIG])
  }

  /** Decompressing gives a compressed script back. */
  lemma DecompressCompressScript(keys: Keys, script: seq<byte>)
    requires Sound(keys) && CompressScript(keys, script).Some?
    ensures var c := CompressScript(keys, script).value;
            DecompressScript(keys, c[0], c[1..]) == Some(script)
  {
    var c := CompressScript(keys, script).value;
    if IsToKeyID(script) {
      assert script == [OP_DUP, OP_HASH160, 20] + script[3..23] + [OP_EQUALVERIFY, OP_CHECKSIG];
    } else if IsToScriptID(script) {
      assert script == [OP_HASH160, 20] + script[2..22] + [OP_EQUAL];
    } else if |script| == 35 {
      assert script == [33, script[1]] + script[2..34] + [OP_CHECKSIG];
      assert script[1..34][1..33] == script[2..34];
    } else {
      var key: FullKey := script[1..66];
      assert [c[0] - 2] + c[1..] == Short(key);
      assert script == [65] + key + [OP_CHECKSIG];
    }
  }

  /** What decompresses has a valid uncompressed key, whose compressed form it is. */
  ghost predicate Faithful(keys: Keys) {
    forall vch: seq<byte> :: |vch| == 33 && vch[0] in {2, 3} && keys.decompress(vch).Some? ==>
      var key := keys.decompress(vch).value;
      key[0] == 0x04 && keys.isFullyValid(key) && Short(key) == vch
  }

  /** And every compressed form that decompresses is that of the script it gives: none has two. */
  lemma CompressDecompressScript(keys: Keys, nSize: nat, from: seq<byte>)
    requires Faithful(keys) && nSize < SPECIAL_SCRIPTS && |from| == SpecialSize(nSize)
    requires DecompressScript(keys, nSize, from).Some?
    ensures CompressScript(keys, DecompressScript(keys, nSize, from).value) == Some([nSize] + from)
  {
    var script := DecompressScript(keys, nSize, from).value;
    if nSize == 0 {
      assert script[3..23] == from;
    } else if nSize == 1 {
      assert script[2..22] == from;
    } else if nSize <= 3 {
      var key: seq<byte> := [nSize] + from;
      assert script[1..34] == key && key[1..33] == from && PubKeyOf(keys, script) == Some(key);
    } else {
      var vch: seq<byte> := [nSize - 2] + from;
      var key: FullKey := keys.decompress(vch).value;
      assert script[1..66] == key;
      assert Short(key)[0] == nSize - 2 && Short(key)[1..] == from;
      assert key[1..33] == from;
    }
  }

  // ---------------------------------------------------------------------------------------
  // Serialization

  function ScriptBytes(keys: Keys, script: seq<byte>): seq<byte> {
    match CompressScript(keys, script)
    case Some(c) => c
    case None => VarInt(|script| + SPECIAL_SCRIPTS) + script
  }

  function Split(data: seq<byte>, n: nat): Option<(seq<byte>, seq<byte>)> {
    if n > |data| then None else Some((data[..n], data[n..]))
  }

  /** Reading an unsigned type that wraps at m. */
  function ReadUnsigned(data: seq<byte>, m: nat): Option<(nat, seq<byte>)>
    requires m > 0
  {
    match Parse(0, data)
    case None => None
    case Some((n, rest)) => Some((n % m, rest))
  }

  /** The size of unsigned int. */
  const U32: nat := 0x1_0000_0000

  /** CScriptCompressor::Unserialize into a script that is `before` so far. */
  function ReadScript(keys: Keys, data: seq<byte>, before: seq<byte>): Option<(seq<byte>, seq<byte>)> {
    match ReadUnsigned(data, U32)
    case None => None
    case Some((nSize, more)) =>
      if nSize < SPECIAL_SCRIPTS then
        match Split(more, SpecialSize(nSize))
        case None => None
        case Some((vch, rest)) =>
          var script := DecompressScript(keys, nSize, vch);
          Some((if script.Some? then script.value else before, rest))
      else
        Split(more, nSize - SPECIAL_SCRIPTS)
  }

  /** A script is read back as it was written, special or not, and nothing more is consumed. */
  lemma ScriptRoundTrip(keys: Keys, script: seq<byte>, before: seq<byte>, rest: seq<byte>)
    requires Sound(keys) && |script| + SPECIAL_SCRIPTS < U32
    ensures ReadScript(keys, ScriptBytes(keys, script) + rest, before) == Some((script, rest))
  {
    if CompressScript(keys, script).Some? {
      SpecialRoundTrip(keys, script, before, rest);
    } else {
      PlainRoundTrip(keys, script, before, rest);
    }
  }

  lemma SpecialRoundTrip(keys: Keys, script: seq<byte>, before: seq<byte>, rest: seq<byte>)
    requires Sound(keys) && CompressScript(keys, script).Some?
    ensures ReadScript(keys, ScriptBytes(keys, script) + rest, before) == Some((script, rest))
  {
    hide CompressScript, DecompressScript, Parse, VarInt;
    var c := CompressScript(keys, script).value;
    DecompressCompressScript(keys, script);
    ShortVarInt(c[0]);
    assert c + rest == VarInt(c[0]) + (c[1..] + rest);
    ParseVarInt(c[0], c[1..] + rest);
    assert (c[1..] + rest)[..|c| - 1] == c[1..] && (c[1..] + rest)[|c| - 1..] == rest;
  }

  lemma ShortVarInt(n: nat)
    requires n <= 0x7F
    ensures VarInt(n) == [n]
  {
  }

  lemma PlainRoundTrip(keys: Keys, script: seq<byte>, before: seq<byte>, rest: seq<byte>)
    requires CompressScript(keys, script) == None && |script| + SPECIAL_SCRIPTS < U32
    ensures ReadScript(keys, ScriptBytes(keys, script) + rest, before) == Some((script, rest))
  {
    hide CompressScript, DecompressScript, Parse, VarInt;
    var n := |script| + SPECIAL_SCRIPTS;
    assert VarInt(n) + script + rest == VarInt(n) + (script + rest);
    ParseVarInt(n, script + rest);
    assert (script + rest)[..|script|] == script && (script + rest)[|script|..] == rest;
  }

  /** The conversions between CAmount and uint64_t. */
  function Unsigned64(n: int): (u: nat)
    ensures u < U64
  {
    n % U64
  }

  function Signed64(u: nat): int
    requires u < U64
  {
    if u < U64 / 2 then u else u - U64
  }

  /** Both are the number they are given, modulo 2^64; so they undo each other. */
  lemma SignedIs(n: int, u: nat)
    requires u < U64
    ensures (Unsigned64(n) - n) % U64 == 0
    ensures -(U64 / 2) <= Signed64(u) < U64 / 2 && (Signed64(u) - u) % U64 == 0
    ensures Signed64(Unsigned64(n)) == n <==> -(U64 / 2) <= n < U64 / 2
  {
    assert n == n / U64 * U64 + n % U64;
  }

  function TxOutBytes(keys: Keys, out: TxOut): seq<byte> {
    VarInt(Compressed(Unsigned64(out.nValue)) % U64) + ScriptBytes(keys, out.scriptPubKey)
  }

  /** CTxOutCompressor, reading into a null output. */
  function ReadTxOut(keys: Keys, data: seq<byte>): Option<(TxOut, seq<byte>)> {
    match ReadUnsigned(data, U64)
    case None => None
    case Some((nVal, more)) =>
      match ReadScript(keys, more, [])
      case None => None
      case Some((script, rest)) => Some((TxOut(Signed64(Decompressed(nVal) % U64), script), rest))
  }

  /** The outputs with a 64-bit amount, and a script of a size that the compact form can hold. */
  predicate Sized(out: TxOut) {
    Signed64(Unsigned64(out.nValue)) == out.nValue && |out.scriptPubKey| + SPECIAL_SCRIPTS < U32
  }

  /** And whose amount the compact form holds exactly. */
  predicate Fits(out: TxOut) {
    Sized(out) && NoWrap(Unsigned64(out.nValue))
  }

  /** What is read of an output. */
  function AsRead(out: TxOut): TxOut {
    TxOut(Signed64(Decompressed(Compressed(Unsigned64(out.nValue)) % U64) % U64), out.scriptPubKey)
  }

  /** It is the output, just if its amount fits. */
  lemma AsReadFits(out: TxOut)
    requires Sized(out)
    ensures AsRead(out) == out <==> Fits(out)
  {
    hide Compressed, Decompressed, NoWrap;
    AmountFits(Unsigned64(out.nValue));
  }

  /** The bytes of an output are read back, and nothing more is consumed. */
  lemma TxOutReadBack(keys: Keys, out: TxOut, rest: seq<byte>)
    requires Sound(keys) && Sized(out)
    ensures ReadTxOut(keys, TxOutBytes(keys, out) + rest) == Some((AsRead(out), rest))
  {
    hide Compressed, Decompressed, ReadScript, ScriptBytes, Parse;
    var n := Unsigned64(out.nValue);
    var more := ScriptBytes(keys, out.scriptPubKey) + rest;
    assert TxOutBytes(keys, out) + rest == VarInt(Compressed(n) % U64) + more;
    ParseVarInt(Compressed(n) % U64, more);
    ScriptRoundTrip(keys, out.scriptPubKey, [], rest);
  }

  /** So an output is read back as it was written just if its amount fits. */
  lemma TxOutRoundTrip(keys: Keys, out: TxOut, rest: seq<byte>)
    requires Sound(keys) && Sized(out)
    ensures ReadTxOut(keys, TxOutBytes(keys, out) + rest) == Some((out, rest)) <==> Fits(out)
  {
    hide ReadTxOut, TxOutBytes, AsRead, Sized, Fits;
    TxOutReadBack(keys, out, rest);
    AsReadFits(out);
  }

  /** The methods, on streams. */
  method WriteScript(keys: Keys, s: DataStream, script: seq<byte>)
    requires |script| + SPECIAL_SCRIPTS < U32
    modifies s
    ensures s.data == old(s.data) + ScriptBytes(keys, script)
  {
    var compr := CompressScript(keys, script);
    if compr.Some? {
      s.Write(compr.value);
      return;
    }
    var nSize := |script| + SPECIAL_SCRIPTS;
    U32IsPower();
    WriteVarInt(s, 32, nSize);
    s.Write(script);
    assert old(s.data) + VarInt(nSize) + script == old(s.data) + (VarInt(nSize) + script);
  }

  lemma U32IsPower()
    ensures Pow(2, 32) == U32 && Pow(2, 64) == U64
  {
    hide Pow;
    Squared(8, 256);
    Squared(16, 0x1_0000);
    Squared(32, U32);
  }

  lemma Squared(n: nat, p: nat)
    requires n == 8 || Pow(2, n) == p
    requires n == 8 ==> p == 256
    ensures Pow(2, n + n) == p * p
  {
    assert Pow(2, 8) == 256;
    PowPlus(2, n, n);
  }

  method ReadScriptInto(keys: Keys, s: DataStream, before: seq<byte>) returns (r: Option<seq<byte>>)
    modifies s
    ensures match ReadScript(keys, old(s.data), before)
            case None => r == None
            case Some((script, rest)) => r == Some(script) && s.data == rest
  {
    var size := ReadVarInt(s, U32);
    if size == None {
      return None;
    }
    var nSize := size.value;
    if nSize < SPECIAL_SCRIPTS {
      var ok, vch := s.Read(SpecialSize(nSize));
      if !ok {
        return None;
      }
      var script := DecompressScript(keys, nSize, vch);
      return Some(if script.Some? then script.value else before);
    }
    var ok, script := s.Read(nSize - SPECIAL_SCRIPTS);
    r := if ok then Some(script) else None;
  }

  method WriteTxOut(keys: Keys, s: DataStream, out: TxOut)
    requires |out.scriptPubKey| + SPECIAL_SCRIPTS < U32
    modifies s
    ensures s.data == old(s.data) + TxOutBytes(keys, out)
  {
    hide VarInt, ScriptBytes, Compressed;
    var nVal := CompressAmount(Unsigned64(out.nValue));
    U32IsPower();
    WriteVarInt(s, 64, nVal);
    WriteScript(keys, s, out.scriptPubKey);
    assert old(s.data) + VarInt(nVal) + ScriptBytes(keys, out.scriptPubKey)
           == old(s.data) + (VarInt(nVal) + ScriptBytes(keys, out.scriptPubKey));
  }

  method ReadTxOutInto(keys: Keys, s: DataStream) returns (r: Option<TxOut>)
    modifies s
    ensures match ReadTxOut(keys, old(s.data))
            case None => r == None
            case Some((out, rest)) => r == Some(out) && s.data == rest
  {
    var nVal := ReadVarInt(s, U64);
    if nVal == None {
      return None;
    }
    var nValue := DecompressAmount(nVal.value);
    var script := ReadScriptInto(keys, s, []);
    if script == None {
      return None;
    }
    r := Some(TxOut(Signed64(nValue), script.value));
  }
}
