/**
 What the decoder accepts for a field, and what it makes of it: for every input, in terms of the number or block read
 and of the sizes of the variables, not of the casts and comparisons of the code.
 */
module FieldValues {
  import opened Wire
  import opened Message
  import opened Encoding
  import opened Decoding
  import opened RoundTrip
  import opened Robustness
  import opened Varints

  // ---------- integers ----------

  /** The range of a signed variable of `size` bytes */
  predicate FitsSigned(i: int, size: nat) {
    if size == 1 then -0x80 <= i < 0x80
    else if size == 2 then -0x8000 <= i < 0x8000
    else if size == 4 then -0x8000_0000 <= i < 0x8000_0000
    else -0x8000_0000_0000_0000 <= i < 0x8000_0000_0000_0000
  }

  predicate FitsUnsigned(i: int, size: nat) {
    0 <= i < if size == 1 then 0x100 else if size == 2 then 0x1_0000 else if size == 4 then 0x1_0000_0000
             else 0x1_0000_0000_0000_0000
  }

  /** `i` and `u` are the same word of 64 bits, or of 32 bits for a variable smaller than 64. */
  predicate SameWord(i: int, u: int, size: nat) {
    if size == 8 then i == u || i == u - 0x1_0000_0000_0000_0000 else (u - i) % 0x1_0000_0000 == 0
  }

  /** Storing keeps a value exactly when it is in the range of half the modulus on either side of zero. */
  lemma StoredIffInside(i: int, m: nat)
    requires m > 0
    ensures ToSigned(i % m, m) == i <==> 0 <= 2 * i + m < 2 * m
  {
    if 0 <= 2 * i + m && i < 0 { ModIs(i, -1, m, i + m); } else if 0 <= i && 2 * i < m { ModIs(i, 0, m, i); }
  }

  lemma ModIs(i: int, q: int, m: nat, r: nat)
    requires r < m && i == q * m + r && (q == 0 || q == -1)
    ensures i % m == r
  {
  }

  lemma StoredIffFits(i: int, size: nat)
    requires IntSize(size)
    ensures StoreSigned(i, size) == i <==> FitsSigned(i, size)
  {
    hide ToSigned;
    StoredIffInside(i, Modulus(size));
  }

  lemma WordOfValue(u: nat, size: nat, i: int)
    requires IntSize(size) && u < U64 && FitsSigned(i, size)
    ensures i == VarintValue(u, size) <==> SameWord(i, u, size)
  {
  }

  /**
   A signed varint is accepted with the value `i` exactly when `i` fits the variable and is the word read, of which only
   the low 32 bits count unless the variable has 64: so a negative value may come as five bytes or as ten.
   */
  lemma SignedAcceptedIff(f: Field, s: seq<byte>, u: nat, rest: seq<byte>, i: int)
    requires f.l.LVarint? && IntSize(f.dataSize) && VarintDec(s) == Ok(u, rest)
    ensures DecScalar(f, s) == Ok(VInt(i), rest) <==> FitsSigned(i, f.dataSize) && SameWord(i, u, f.dataSize)
  {
    VarintBelow(s);
    StoredIffFits(VarintValue(u, f.dataSize), f.dataSize);
    if FitsSigned(i, f.dataSize) { WordOfValue(u, f.dataSize, i); }
  }

  lemma UnsignedAcceptedIff(f: Field, s: seq<byte>, u: nat, rest: seq<byte>, i: int)
    requires f.l.LUVarint? && IntSize(f.dataSize) && VarintDec(s) == Ok(u, rest)
    ensures DecScalar(f, s) == Ok(VInt(i), rest) <==> FitsUnsigned(i, f.dataSize) && i == u
  {
    VarintBelow(s);
  }

  lemma ZigZagAcceptedIff(f: Field, s: seq<byte>, u: nat, rest: seq<byte>, i: int)
    requires f.l.LSVarint? && IntSize(f.dataSize) && VarintDec(s) == Ok(u, rest)
    ensures DecScalar(f, s) == Ok(VInt(i), rest)
            <==> FitsSigned(i, f.dataSize) && u == if i < 0 then -2 * i - 1 else 2 * i
  {
    VarintBelow(s);
    StoredIffFits(UnZigZag(u), f.dataSize);
    ZigZagBijection(UnZigZag(u), u);
    if FitsSigned(i, f.dataSize) { ZigZagBijection(i, u); }
  }

  /** Any nonzero 32-bit varint is true. */
  lemma BoolAccepted(f: Field, s: seq<byte>)
    requires f.l.LBool?
    ensures DecScalar(f, s) == match Varint32Dec(s) case Fail => Fail case Ok(u, rest) => Ok(VBool(u > 0), rest)
  {
  }

  /** Four or eight bytes, least significant first. */
  lemma FixedAccepted(f: Field, s: seq<byte>)
    requires f.l.LFixed32? || f.l.LFixed64?
    ensures var n := if f.l.LFixed32? then 4 else 8;
            DecScalar(f, s) == if |s| < n then Fail else Ok(VInt(FromLittleEndian(s[..n])), s[n..])
    ensures DecScalar(f, s).Ok? ==>
            var n := if f.l.LFixed32? then 4 else 8; forall k | 0 <= k < n :: ByteAt(DecScalar(f, s).value.i, k) == s[k]
  {
    var n := if f.l.LFixed32? then 4 else 8;
    if |s| >= n {
      var v := FromLittleEndian(s[..n]);
      FromLittleEndianRoundTrip(s[..n]);
      forall k | 0 <= k < n ensures ByteAt(v, k) == s[k] { LittleEndianAt(n, v, k); }
    }
  }

  /** A negative value may come as the five bytes of its 32-bit word, except in a variable of 64 bits. */
  lemma ShortNegative(f: Field, i: int, t: seq<byte>)
    requires f.l.LVarint? && IntSize(f.dataSize) && FitsSigned(i, f.dataSize) && -0x8000_0000 <= i < 0
    ensures DecScalar(f, VarintEnc(i + 0x1_0000_0000) + t)
            == Ok(VInt(if f.dataSize == 8 then i + 0x1_0000_0000 else i), t)
  {
    var u := i + 0x1_0000_0000;
    VarintRoundTrip(u, t);
    SignedAcceptedIff(f, VarintEnc(u) + t, u, t, if f.dataSize == 8 then u else i);
  }

  // ---------- blocks ----------

  /** The size header in front of the bytes of a bytes field is one pb_size_t. */
  function HeaderSize(): nat {
    if PB_SIZE_MAX == 0xFF then 1 else if PB_SIZE_MAX == 0xFFFF then 2 else 4
  }

  function Zeros(n: nat): seq<byte> {
    seq(n, _ => 0)
  }

  lemma BlockRead(bs: seq<byte>, t: seq<byte>)
    requires |bs| < U32
    ensures Varint32Dec(VarintEnc(|bs|) + bs + t) == Ok(|bs|, bs + t)
    ensures (bs + t)[..|bs|] == bs && (bs + t)[|bs|..] == t
  {
    hide VarintEnc, Varint32Dec;
    Regroup(VarintEnc(|bs|), bs, t);
    Varint32RoundTrip(|bs|, bs + t);
  }

  lemma Regroup(a: seq<byte>, b: seq<byte>, c: seq<byte>)
    ensures a + b + c == a + (b + c)
    ensures (b + c)[..|b|] == b && (b + c)[|b|..] == c
  {
  }

  /** Bytes and strings are accepted exactly when they fit their storage, size header or terminator included. */
  lemma BytesAcceptedIff(f: Field, bs: seq<byte>, t: seq<byte>)
    requires |bs| < U32 && f.dataSize <= PB_SIZE_MAX && (f.l.LBytes? || f.l.LString?)
    ensures DecScalar(f, VarintEnc(|bs|) + bs + t)
            == if |bs| + (if f.l.LString? then 1 else HeaderSize()) <= f.dataSize then Ok(VBytes(bs), t) else Fail
  {
    hide VarintEnc, Varint32Dec;
    BlockRead(bs, t);
  }

  /** Bytes of fixed length are accepted in that length, and an empty block stands for zeros. */
  lemma FixedBytesAcceptedIff(f: Field, bs: seq<byte>, t: seq<byte>)
    requires |bs| < U32 && f.dataSize <= PB_SIZE_MAX && f.l.LFixedBytes?
    ensures DecScalar(f, VarintEnc(|bs|) + bs + t)
            == if |bs| == f.dataSize then Ok(VBytes(bs), t)
               else if |bs| == 0 then Ok(VBytes(Zeros(f.dataSize)), t)
               else Fail
  {
    hide VarintEnc, Varint32Dec, Zero, Zeros, DecScalar;
    BlockRead(bs, t);
    FixedBytesRead(f, VarintEnc(|bs|) + bs + t);
    ZeroBytes(f);
    if |bs| == 0 { assert bs + t == t; }
    if f.dataSize == 0 { assert Zeros(0) == [] by { NoZeros(); } }
  }

  lemma FixedBytesRead(f: Field, s: seq<byte>)
    requires f.l.LFixedBytes?
    ensures DecScalar(f, s) == match Varint32Dec(s)
                               case Fail => Fail
                               case Ok(n, rest) =>
                                 if n > PB_SIZE_MAX then Fail
                                 else if n == 0 then Ok(Zero(f), rest)
                                 else if n != f.dataSize || |rest| < n then Fail
                                 else Ok(VBytes(rest[..n]), rest[n..])
  {
  }

  lemma ZeroBytes(f: Field)
    requires f.l.LFixedBytes?
    ensures Zero(f) == VBytes(Zeros(f.dataSize))
  {
  }

  lemma NoZeros()
    ensures Zeros(0) == []
  {
  }

  // ---------- the end of a message, and what is skipped ----------

  /** A zero byte between records ends the message: it is decoded as if nothing followed, and what follows is left. */
  lemma ZeroTerminates(fs: seq<Field>, a: seq<byte>, t: seq<byte>, m: seq<Slot>)
    requires |m| == |fs| && DecLoop(fs, a, m, {}).LoopDone? && !DecLoop(fs, a, m, {}).stopped
    ensures DecInto(fs, a + [0] + t, m)
            == if DecInto(fs, a, m).Ok? then Ok(DecInto(fs, a, m).value, t) else Fail
  {
    var z := [0] + t;
    assert a + [0] + t == a + z;
    LoopAppend(fs, a, m, {}, z);
    assert z[1..] == t && DecTag(z) == TagEnd(t);
    LoopAppend(fs, a, m, {}, []);
    assert a + [] == a;
  }

  /** By its wire type a value is a varint, eight bytes, a block or four bytes; no other wire type can be skipped. */
  lemma SkipFieldExact(s: seq<byte>, k: nat, bs: seq<byte>, t: seq<byte>, other: nat)
    requires |bs| < U32 && k < |s| && other != 0 && other != 1 && other != 2 && other != 5
    ensures SkipField(s, 0) == Ok((), s[k + 1..]) <==> EndsAt(s, k)
    ensures SkipField(s, 1) == if |s| < 8 then Fail else Ok((), s[8..])
    ensures SkipField(VarintEnc(|bs|) + bs + t, 2) == Ok((), t)
    ensures SkipField(s, 5) == if |s| < 4 then Fail else Ok((), s[4..])
    ensures SkipField(s, other).Fail?
  {
    hide VarintEnc, Varint32Dec, SkipVarint, EndsAt;
    SkipVarintIff(s, k);
    BlockRead(bs, t);
  }
}
