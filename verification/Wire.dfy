/**
 The wire-level arithmetic of nanopb: base-128 varints, zigzag and little-endian words.

 A byte is an integer below 256 and a machine word an integer below its modulus, so every shift, mask and
 truncating cast of the C code is written out as doubling, a remainder or a division by a power of two.
 Decoders are functions from the bytes still in the stream to a value and the bytes left over.
 */
module Wire {

  type byte = x: int | 0 <= x < 256

  const U32: int := 0x1_0000_0000
  const U64: int := 0x1_0000_0000_0000_0000

  datatype Option<+T> = None | Some(value: T)

  /** The outcome of reading something off the front of a stream. */
  datatype Parse<+T> = Fail | Ok(value: T, rest: seq<byte>)

  // ---------- shifts and or ----------

  /** `x << k` before truncation. */
  function Shl(x: nat, k: nat): nat {
    if k == 0 then x else 2 * Shl(x, k - 1)
  }

  /** The `|` of C on naturals, bit by bit. */
  function BitOr(x: nat, y: nat): nat
    decreases x
  {
    if x == 0 then y
    else if y == 0 then x
    else 2 * BitOr(x / 2, y / 2) + (if x % 2 == 1 || y % 2 == 1 then 1 else 0)
  }

  lemma {:induction false} ShlAdd(x: nat, y: nat, k: nat)
    ensures Shl(x + y, k) == Shl(x, k) + Shl(y, k)
  {
    if k > 0 { ShlAdd(x, y, k - 1); }
  }

  lemma ShlMonotone(x: nat, y: nat, k: nat)
    requires x <= y
    ensures Shl(x, k) <= Shl(y, k)
  {
    ShlAdd(x, y - x, k);
  }

  lemma {:induction false} ShlShl(x: nat, j: nat, k: nat)
    ensures Shl(x, j + k) == Shl(Shl(x, j), k)
  {
    if k > 0 {
      ShlShl(x, j, k - 1);
      assert j + k - 1 == j + (k - 1);
    }
  }

  lemma Shl7(x: nat, k: nat)
    ensures Shl(x, 7) == 128 * x && Shl(x, k + 7) == 128 * Shl(x, k)
  {
    Shl7At(x);
    ShlShl(x, k, 7);
    Shl7At(Shl(x, k));
  }

  lemma Shl7At(x: nat)
    ensures Shl(x, 7) == 128 * x
  {
    assert Shl(x, 1) == 2 * x;
    assert Shl(x, 2) == 4 * x;
    assert Shl(x, 3) == 8 * x;
    assert Shl(x, 4) == 16 * x;
    assert Shl(x, 5) == 32 * x;
    assert Shl(x, 6) == 64 * x;
  }

  lemma ShlWords(x: nat)
    ensures Shl(x, 28) == 0x1000_0000 * x && Shl(x, 35) == 8 * U32 * x && Shl(x, 32) == U32 * x
    ensures Shl(x, 56) == 0x100_0000_0000_0000 * x && Shl(x, 63) == 0x8000_0000_0000_0000 * x && Shl(x, 64) == U64 * x
  {
    Shl7(x, 7); Shl7(x, 14); Shl7(x, 21); Shl7(x, 28); Shl7(x, 35); Shl7(x, 42); Shl7(x, 49); Shl7(x, 56);
    assert Shl(x, 29) == 2 * Shl(x, 28);
    assert Shl(x, 30) == 2 * Shl(x, 29);
    assert Shl(x, 31) == 2 * Shl(x, 30);
    assert Shl(x, 64) == 2 * Shl(x, 63);
  }

  /** The width of a word is at least what it holds. */
  lemma {:induction false} ShlOneMonotone(j: nat, k: nat)
    requires j <= k
    ensures 0 < Shl(1, j) <= Shl(1, k)
    decreases k
  {
    if j < k { ShlOneMonotone(j, k - 1); } else if j > 0 { ShlOneMonotone(j - 1, k - 1); }
  }

  /** On disjoint bits `|` is addition, which is what every or in the codec amounts to. */
  lemma {:induction false} BitOrDisjoint(x: nat, c: nat, k: nat)
    requires x < Shl(1, k)
    ensures BitOr(x, Shl(c, k)) == x + Shl(c, k)
  {
    if k > 0 { BitOrDisjoint(x / 2, c, k - 1); }
  }

  /** Seven more bits above the `b` already gathered. */
  lemma ChunkBelow(r: nat, c: nat, b: nat)
    requires r < Shl(1, b) && c < 128
    ensures r + Shl(c, b) < Shl(1, b + 7)
  {
    Shl7(1, b);
    ShlMonotone(c, 127, b);
    ShlAdd(127, 1, b);
    ShlShl(1, 7, b);
    Shl7At(1);
    assert Shl(1, 7 + b) == Shl(128, b);
    assert 7 + b == b + 7;
  }

  /** `x % w`, the truncation of a cast; the test only spares the proofs a division. */
  function Trunc(x: nat, w: nat): (r: nat)
    requires w > 0
    ensures r < w
  {
    if x < w then x else x % w
  }

  /**
   `result | chunk << b` in a word of modulus `w`. When the bits of `result` all lie below position `b`, as they do
   in every decoder until its bit position wraps around, the or is an addition (GatherIsOr).
   */
  function Gather(result: nat, chunk: nat, b: nat, w: nat): nat
    requires w > 0
  {
    if result < Shl(1, b) then result + Trunc(Shl(chunk, b), w) else BitOr(result, Trunc(Shl(chunk, b), w))
  }

  lemma ModUnique(x: nat, k: nat, m: nat, r: nat)
    requires r < m && x == m * k + r
    ensures x % m == r && x / m == k
  {
    if x / m < k { MulMonotone(m, x / m + 1, k); }
    if x / m > k { MulMonotone(m, k + 1, x / m); }
  }

  lemma MulMonotone(a: nat, b: nat, c: nat)
    requires b <= c
    ensures a * b <= a * c
  {
  }

  lemma TruncIsMod(x: nat, w: nat)
    requires w > 0
    ensures Trunc(x, w) == x % w
  {
  }

  lemma TruncDouble(x: nat, w: nat)
    requires w > 0
    ensures Trunc(2 * x, 2 * w) == 2 * Trunc(x, w)
  {
    if x >= w {
      var q := x / w;
      assert 2 * w * q == 2 * (w * q);
      ModUnique(2 * x, q, 2 * w, 2 * (x % w));
    }
  }

  /** Truncating a shifted word to `w` bits keeps the bits below the shift clear. */
  lemma {:induction false} ShlTruncated(c: nat, b: nat, w: nat) returns (d: nat)
    requires b <= w
    ensures d <= c && Shl(1, w) > 0 && Trunc(Shl(c, b), Shl(1, w)) == Shl(d, b) <= Shl(1, w) - Shl(1, b)
  {
    ShlOneMonotone(0, w);
    if b == 0 {
      d := Trunc(c, Shl(1, w));
    } else {
      d := ShlTruncated(c, b - 1, w - 1);
      TruncDouble(Shl(c, b - 1), Shl(1, w - 1));
    }
  }

  lemma GatherIsOr(result: nat, chunk: nat, b: nat, w: nat)
    requires b <= w
    ensures Shl(1, w) > 0
    ensures Gather(result, chunk, b, Shl(1, w)) == BitOr(result, Shl(chunk, b) % Shl(1, w))
  {
    var d := ShlTruncated(chunk, b, w);
    TruncIsMod(Shl(chunk, b), Shl(1, w));
    if result < Shl(1, b) { BitOrDisjoint(result, d, b); }
  }

  // ---------- varints ----------

  /** The bytes pb_encode_varint writes: seven bits a byte, least significant first, top bit on all but the last. */
  function VarintEnc(v: nat): (s: seq<byte>)
    ensures |s| > 0
  {
    if v < 128 then [v] else [v % 128 + 128] + VarintEnc(v / 128)
  }

  /** pb_decode_varint from bit position `bitpos` on, with `result` gathered so far. */
  function VarintFrom(s: seq<byte>, bitpos: nat, result: nat): (p: Parse<nat>)
    ensures p.Ok? ==> |p.rest| < |s|
    decreases |s|
  {
    if bitpos >= 64 || s == [] then Fail
    else
      var r := Gather(result, s[0] % 128, bitpos, U64);
      if s[0] >= 128 then VarintFrom(s[1..], bitpos + 7, r) else Ok(r, s[1..])
  }

  function VarintDec(s: seq<byte>): (p: Parse<nat>)
    ensures p.Ok? ==> |p.rest| < |s|
  {
    VarintFrom(s, 0, 0)
  }

  /** `bitpos` is a byte in pb_decode_varint32, so it wraps at 256. */
  function NextBitpos(bitpos: nat): nat {
    if bitpos < 249 then bitpos + 7 else (bitpos + 7) % 256
  }

  /** pb_decode_varint32 after its first byte. */
  function Varint32From(s: seq<byte>, bitpos: nat, result: nat): (p: Parse<nat>)
    ensures p.Ok? ==> |p.rest| < |s|
    decreases |s|
  {
    if s == [] then Fail
    else
      var b := s[0];
      var signExtension := if bitpos < 63 then 0xFF else 0x01;
      if bitpos >= 32 && b % 128 != 0 && (result / 0x8000_0000 == 0 || b != signExtension) then Fail
      else
        var r := if bitpos >= 32 then result else Gather(result, b % 128, bitpos, U32);
        var next := NextBitpos(bitpos);
        if b >= 128 then Varint32From(s[1..], next, r)
        else if next == 35 && b >= 0x10 then Fail  // `byte & 0x70` of a byte below 0x80
        else Ok(r, s[1..])
  }

  function Varint32Dec(s: seq<byte>): (p: Parse<nat>)
    ensures p.Ok? ==> |p.rest| < |s|
  {
    if s == [] then Fail
    else if s[0] < 128 then Ok(s[0], s[1..])
    else Varint32From(s[1..], 7, s[0] % 128)
  }

  function SkipVarint(s: seq<byte>): (p: Parse<()>)
    ensures p.Ok? ==> |p.rest| < |s|
  {
    if s == [] then Fail
    else if s[0] >= 128 then SkipVarint(s[1..])
    else Ok((), s[1..])
  }

  // ---------- the 64-bit decoder undoes the encoder ----------

  /** A varint splits into its lowest seven bits and the rest, seven bits up. */
  lemma SplitChunk(v: nat, b: nat)
    ensures Shl(v, b) == Shl(v % 128, b) + Shl(v / 128, b + 7)
  {
    var q := v / 128;
    ShlAdd(v % 128, 128 * q, b);
    ShlShl(q, 7, b);
    Shl7At(q);
    assert 7 + b == b + 7;
  }

  lemma BitposBelow(b: nat, v: nat)
    requires v > 0 && Shl(v, b) < U64
    ensures b < 64
  {
    if b >= 64 {
      ShlOneMonotone(64, b);
      ShlWords(1);
      ShlMonotone(1, v, b);
    }
  }

  lemma VarintFromStep(s: seq<byte>, bitpos: nat, result: nat)
    requires s != [] && bitpos < 64 && result < Shl(1, bitpos) && Shl(s[0] % 128, bitpos) < U64
    ensures var r := result + Shl(s[0] % 128, bitpos);
            VarintFrom(s, bitpos, result) == if s[0] >= 128 then VarintFrom(s[1..], bitpos + 7, r) else Ok(r, s[1..])
  {
  }

  lemma {:induction false} VarintFromEnc(v: nat, bitpos: nat, result: nat, t: seq<byte>)
    requires bitpos < 64 && result < Shl(1, bitpos) && result + Shl(v, bitpos) < U64
    ensures VarintFrom(VarintEnc(v) + t, bitpos, result) == Ok(result + Shl(v, bitpos), t)
    decreases v
  {
    var s := VarintEnc(v) + t;
    SplitChunk(v, bitpos);
    VarintFromStep(s, bitpos, result);
    if v < 128 {
      assert s[1..] == t;
    } else {
      assert s[1..] == VarintEnc(v / 128) + t;
      ChunkBelow(result, v % 128, bitpos);
      BitposBelow(bitpos + 7, v / 128);
      VarintFromEnc(v / 128, bitpos + 7, result + Shl(v % 128, bitpos), t);
    }
  }

  lemma VarintRoundTrip(v: nat, t: seq<byte>)
    requires v < U64
    ensures VarintDec(VarintEnc(v) + t) == Ok(v, t)
  {
    VarintFromEnc(v, 0, 0, t);
  }

  // ---------- the 32-bit decoder refines the 64-bit one ----------

  /** The chunk at bit 28 of a 32-bit word keeps its lowest four bits. */
  lemma GatherAt28(r: nat, c: nat)
    requires r < 0x1000_0000 && c < 128
    ensures r + Trunc(Shl(c, 28), U32) == Trunc(r + Shl(c, 28), U32)
  {
    var d, q := c % 16, c / 16;
    ShlWords(c);
    ModUnique(Shl(c, 28), q, U32, 0x1000_0000 * d);
    ModUnique(r + Shl(c, 28), q, U32, r + 0x1000_0000 * d);
  }

  lemma LowBounds(r: nat, c: nat, b: nat)
    requires r < Shl(1, b) && b <= 28 && c < 128
    ensures r < 0x1000_0000 && r + Shl(c, b) < Shl(1, b + 7) <= 8 * U32
    ensures b <= 21 ==> r + Shl(c, b) < 0x1000_0000
  {
    ShlOneMonotone(b, 28);
    ShlOneMonotone(b + 7, 35);
    ShlWords(1);
    ChunkBelow(r, c, b);
    if b <= 21 { ShlOneMonotone(b + 7, 28); }
  }

  /** Below bit 32 both decoders gather the same word modulo 2^32. */
  lemma GatherLow(r: nat, c: nat, b: nat)
    requires r < Shl(1, b) && (b <= 21 || b == 28) && c < 128
    ensures r < U32 && Shl(c, b) < U64 && r + Shl(c, b) < Shl(1, b + 7)
    ensures r + Trunc(Shl(c, b), U32) == Trunc(r + Shl(c, b), U32)
  {
    LowBounds(r, c, b);
    if b == 28 { GatherAt28(r, c); }
  }

  lemma AddMultiple(r: nat, y: nat)
    ensures Trunc(r + U32 * y, U32) == Trunc(r, U32)
  {
    ModUnique(r + U32 * y, r / U32 + y, U32, r % U32);
  }

  lemma AddHigh(r: nat, x: nat, b: nat)
    requires b >= 32
    ensures Trunc(r + Shl(x, b), U32) == Trunc(r, U32)
  {
    hide Trunc, Shl;
    ShlShl(x, b - 32, 32);
    ShlWords(Shl(x, b - 32));
    AddMultiple(r, Shl(x, b - 32));
  }

  /** The bit a group of the low 32 bits starts at. */
  predicate GroupBit(b: nat) {
    b == 0 || b == 7 || b == 14 || b == 21 || b == 28
  }

  /** The bit a group from bit 35 on starts at. */
  predicate HighGroupBit(b: nat) {
    b == 35 || b == 42 || b == 49 || b == 56 || b == 63
  }

  lemma GatherBelow63(r: nat, c: nat, b: nat)
    requires r < Shl(1, b) && 35 <= b <= 56 && c < 128
    ensures Trunc(Shl(c, b), U64) == Shl(c, b) && r + Shl(c, b) < Shl(1, b + 7)
  {
    ChunkBelow(r, c, b);
    ShlOneMonotone(b + 7, 63);
    ShlWords(1);
  }

  lemma GatherAt63(c: nat)
    requires c < 128
    ensures Trunc(Shl(c, 63), U64) == Shl(c % 2, 63)
  {
    ShlWords(c);
    ShlWords(c % 2);
    ModUnique(Shl(c, 63), c / 2, U64, Shl(c % 2, 63));
  }

  /** From bit 35 the 64-bit decoder only adds multiples of 2^32; of the tenth byte only the lowest bit fits. */
  lemma GatherHigh(r: nat, c: nat, b: nat)
    requires r < Shl(1, b) && HighGroupBit(b) && c < 128
    ensures Trunc(r + Trunc(Shl(c, b), U64), U32) == Trunc(r, U32)
    ensures b < 63 ==> r + Trunc(Shl(c, b), U64) < Shl(1, b + 7)
  {
    hide Shl, Trunc;
    if b < 63 {
      GatherBelow63(r, c, b);
      AddHigh(r, c, b);
    } else {
      GatherAt63(c);
      AddHigh(r, c % 2, 63);
    }
  }

  lemma Varint32Unfold(s: seq<byte>, b: nat, r: nat)
    requires s != [] && b < 70 && Varint32From(s, b, r).Ok?
    ensures var r' := if b >= 32 then r else Gather(r, s[0] % 128, b, U32);
            Varint32From(s, b, r) == if s[0] >= 128 then Varint32From(s[1..], b + 7, r') else Ok(r', s[1..])
  {
  }

  lemma VarintUnfold(s: seq<byte>, b: nat, r: nat)
    requires s != [] && b < 64 && r < Shl(1, b)
    ensures var r' := r + Trunc(Shl(s[0] % 128, b), U64);
            VarintFrom(s, b, r) == if s[0] >= 128 then VarintFrom(s[1..], b + 7, r') else Ok(r', s[1..])
  {
  }

  /** The words both decoders have gathered agree modulo 2^32 after one more byte. */
  lemma GatherBoth(c: nat, b: nat, r: nat)
    requires (GroupBit(b) || HighGroupBit(b)) && r < Shl(1, b) && c < 128
    ensures var r' := r + Trunc(Shl(c, b), U64);
            && Trunc(r', U32) == (if b >= 32 then Trunc(r, U32) else Gather(Trunc(r, U32), c, b, U32))
            && (b < 63 ==> r' < Shl(1, b + 7))
  {
    hide Shl;
    if b <= 28 { GatherLow(r, c, b); } else { GatherHigh(r, c, b); }
  }

  lemma BothStep(s: seq<byte>, b: nat, r: nat)
    requires s != [] && (GroupBit(b) || HighGroupBit(b)) && r < Shl(1, b)
    requires Varint32From(s, b, Trunc(r, U32)).Ok?
    ensures var r' := r + Trunc(Shl(s[0] % 128, b), U64);
            && (s[0] >= 128 ==> VarintFrom(s, b, r) == VarintFrom(s[1..], b + 7, r')
                                && Varint32From(s, b, Trunc(r, U32)) == Varint32From(s[1..], b + 7, Trunc(r', U32)))
            && (s[0] < 128 ==> VarintFrom(s, b, r) == Ok(r', s[1..])
                               && Varint32From(s, b, Trunc(r, U32)) == Ok(Trunc(r', U32), s[1..]))
            && (b < 63 ==> r' < Shl(1, b + 7))
  {
    hide Shl, Trunc, VarintFrom, Varint32From;
    GatherBoth(s[0] % 128, b, r);
    Varint32Unfold(s, b, Trunc(r, U32));
    VarintUnfold(s, b, r);
  }

  lemma {:induction false} Varint32FromRefines(s: seq<byte>, k: nat, r: nat, v: nat, t: seq<byte>)
    requires 1 <= k <= 9 && r < Shl(1, 7 * k)
    requires Varint32From(s, 7 * k, Trunc(r, U32)) == Ok(v, t) && k + |s| - |t| <= 10
    ensures var p := VarintFrom(s, 7 * k, r); p.Ok? && Trunc(p.value, U32) == v && p.rest == t
    decreases |s|
  {
    hide Shl, Trunc, Gather;
    BothStep(s, 7 * k, r);
    if s[0] >= 128 { Varint32FromRefines(s[1..], k + 1, r + Trunc(Shl(s[0] % 128, 7 * k), U64), v, t); }
  }

  lemma VarintFirst(s: seq<byte>)
    requires s != []
    ensures VarintDec(s) == if s[0] >= 128 then VarintFrom(s[1..], 7, s[0] % 128) else Ok(s[0], s[1..])
  {
    VarintFromStep(s, 0, 0);
  }

  /** Any string of at most ten bytes that the 32-bit decoder accepts, the 64-bit decoder accepts too. */
  lemma Varint32Refines64(s: seq<byte>)
    requires Varint32Dec(s).Ok? && |s| - |Varint32Dec(s).rest| <= 10
    ensures var p := VarintDec(s);
            p.Ok? && p.value % U32 == Varint32Dec(s).value && p.rest == Varint32Dec(s).rest
  {
    VarintFirst(s);
    if s[0] >= 128 {
      Shl7At(1);
      var p := Varint32Dec(s);
      Varint32FromRefines(s[1..], 1, s[0] % 128, p.value, p.rest);
      TruncIsMod(VarintDec(s).value, U32);
    }
  }

  // ---------- which canonical encodings the 32-bit decoder accepts ----------

  lemma LowFits(r: nat, c: nat, b: nat)
    requires r < Shl(1, b) && b <= 21 && c < 128
    ensures r + Shl(c, b) < U32
  {
    LowBounds(r, c, b);
  }

  lemma ConsTail(x: byte, e: seq<byte>, t: seq<byte>)
    ensures ([x] + e + t)[0] == x && ([x] + e + t)[1..] == e + t
  {
  }

  lemma EncTail(v: nat, t: seq<byte>)
    ensures (VarintEnc(v) + t)[0] == (if v < 128 then v else v % 128 + 128)
    ensures (VarintEnc(v) + t)[1..] == if v < 128 then t else VarintEnc(v / 128) + t
  {
    if v >= 128 { ConsTail(v % 128 + 128, VarintEnc(v / 128), t); }
  }

  lemma GroupOf(x: nat, v: nat)
    requires x == v % 128 + 128
    ensures x % 128 == v % 128
  {
  }

  /** A canonical byte with a continuation bit, below bit 32. */
  lemma Varint32Step(v: nat, b: nat, r: nat, t: seq<byte>)
    requires v >= 128 && b < 32
    ensures Varint32From(VarintEnc(v) + t, b, r)
         == Varint32From(VarintEnc(v / 128) + t, b + 7, Gather(r, v % 128, b, U32))
  {
    var s := VarintEnc(v) + t;
    EncTail(v, t);
    GroupOf(s[0], v);
    Varint32More(s, b, r);
  }

  lemma Varint32More(s: seq<byte>, b: nat, r: nat)
    requires s != [] && s[0] >= 128 && b < 32
    ensures Varint32From(s, b, r) == Varint32From(s[1..], b + 7, Gather(r, s[0] % 128, b, U32))
  {
  }

  lemma Varint32End(s: seq<byte>, b: nat, r: nat)
    requires s != [] && s[0] < 128 && b < 32
    ensures Varint32From(s, b, r) == if b == 28 && s[0] >= 16 then Fail else Ok(Gather(r, s[0] % 128, b, U32), s[1..])
  {
  }

  /** The last byte of a canonical encoding below bit 32. */
  lemma Varint32Last(v: nat, b: nat, r: nat, t: seq<byte>)
    requires v < 128 && b < 32
    ensures Varint32From(VarintEnc(v) + t, b, r) == if b == 28 && v >= 16 then Fail else Ok(Gather(r, v, b, U32), t)
  {
    hide Shl, Varint32From, VarintEnc, Gather;
    EncTail(v, t);
    Varint32End(VarintEnc(v) + t, b, r);
  }

  /** A chunk below bit 28 of a canonical encoding: what is gathered and what remains. */
  lemma LowChunk(v: nat, b: nat, r: nat)
    requires b <= 21 && r < Shl(1, b)
    ensures Gather(r, v % 128, b, U32) == r + Shl(v % 128, b) < Shl(1, b + 7)
    ensures r + Shl(v % 128, b) + Shl(v / 128, b + 7) == r + Shl(v, b)
  {
    SplitChunk(v, b);
    GatherLow(r, v % 128, b);
    LowFits(r, v % 128, b);
  }

  lemma Varint32LastAt28(v: nat, r: nat, t: seq<byte>)
    requires r < Shl(1, 28) && r + Shl(v, 28) < U32
    ensures Varint32From(VarintEnc(v) + t, 28, r) == Ok(r + Shl(v, 28), t)
  {
    Shl28And35(v);
    Varint32Last(v, 28, r, t);
  }

  /** One byte below bit 28 of a canonical encoding: nothing of the value is lost. */
  lemma LowStep(v: nat, b: nat, r: nat, t: seq<byte>)
    requires v >= 128 && b <= 21 && r < Shl(1, b)
    ensures var r' := r + Shl(v % 128, b);
            && Varint32From(VarintEnc(v) + t, b, r) == Varint32From(VarintEnc(v / 128) + t, b + 7, r')
            && r' < Shl(1, b + 7) && r' + Shl(v / 128, b + 7) == r + Shl(v, b)
  {
    LowChunk(v, b, r);
    Varint32Step(v, b, r, t);
  }

  lemma Varint32LastLow(v: nat, b: nat, r: nat, t: seq<byte>)
    requires v < 128 && b <= 21 && r < Shl(1, b)
    ensures Varint32From(VarintEnc(v) + t, b, r) == Ok(r + Shl(v, b), t)
  {
    Varint32Last(v, b, r, t);
    GatherLow(r, v, b);
    LowFits(r, v, b);
  }

  lemma {:induction false} Varint32FromEnc(v: nat, b: nat, r: nat, t: seq<byte>)
    requires GroupBit(b) && r < Shl(1, b) && r + Shl(v, b) < U32
    ensures Varint32From(VarintEnc(v) + t, b, r) == Ok(r + Shl(v, b), t)
    decreases v
  {
    hide Shl, Varint32From, VarintEnc;
    if b == 28 {
      Varint32LastAt28(v, r, t);
    } else if v < 128 {
      Varint32LastLow(v, b, r, t);
    } else {
      LowStep(v, b, r, t);
      Varint32FromEnc(v / 128, b + 7, r + Shl(v % 128, b), t);
    }
  }

  lemma Varint32First(v: nat, t: seq<byte>)
    ensures Varint32Dec(VarintEnc(v) + t)
            == if v < 128 then Ok(v, t) else Varint32From(VarintEnc(v / 128) + t, 7, v % 128)
    ensures v % 128 < Shl(1, 7) && v % 128 + Shl(v / 128, 7) == v
  {
    EncTail(v, t);
    Shl7At(1);
    Shl7At(v / 128);
    assert (VarintEnc(v) + t)[0] % 128 == v % 128;
  }

  lemma Varint32RoundTrip(v: nat, t: seq<byte>)
    requires v < U32
    ensures Varint32Dec(VarintEnc(v) + t) == Ok(v, t)
  {
    Varint32First(v, t);
    if v >= 128 { Varint32FromEnc(v / 128, 7, v % 128, t); }
  }

  lemma Varint32HighStep(v: nat, b: nat, r: nat, t: seq<byte>)
    requires 0 < v && 35 <= b < 63
    ensures Varint32From(VarintEnc(v) + t, b, r).Fail?
            || (v >= 128 && Varint32From(VarintEnc(v) + t, b, r) == Varint32From(VarintEnc(v / 128) + t, b + 7, r))
  {
    EncTail(v, t);
  }

  /** Past bit 35 a canonical tail that ends before bit 63 is an overflow. */
  lemma {:induction false} Varint32TailRejected(v: nat, b: nat, r: nat, t: seq<byte>)
    requires 0 < v && 35 <= b && Shl(v, b) < Shl(1, 63)
    ensures Varint32From(VarintEnc(v) + t, b, r).Fail?
    decreases v
  {
    if b >= 63 { ShlOneMonotone(63, b); ShlMonotone(1, v, b); }
    Varint32HighStep(v, b, r, t);
    if v >= 128 {
      SplitChunk(v, b);
      Varint32TailRejected(v / 128, b + 7, r, t);
    }
  }

  lemma Varint32OverflowAt28(v: nat, r: nat, t: seq<byte>)
    requires v >= 16 && Shl(v, 28) < Shl(1, 63)
    ensures Varint32From(VarintEnc(v) + t, 28, r).Fail?
  {
    if v < 128 {
      Varint32Last(v, 28, r, t);
    } else {
      SplitChunk(v, 28);
      Varint32Step(v, 28, r, t);
      Varint32TailRejected(v / 128, 35, Gather(r, v % 128, 28, U32), t);
    }
  }

  lemma {:induction false} Varint32Overflow(v: nat, b: nat, r: nat, t: seq<byte>)
    requires GroupBit(b) && r < Shl(1, b) && U32 <= Shl(v, b) < Shl(1, 63)
    ensures Varint32From(VarintEnc(v) + t, b, r).Fail?
    decreases v
  {
    hide Shl, Varint32From, VarintEnc;
    if b == 28 {
      ShlWords(v);
      Varint32OverflowAt28(v, r, t);
    } else {
      HighRemains(v, b);
      if v < 128 { LowFits(0, v, b) by { ShlOneMonotone(0, b); } }
      LowStep(v, b, r, t);
      Varint32Overflow(v / 128, b + 7, r + Shl(v % 128, b), t);
    }
  }

  /** What is left above bit b + 7 of an overflowing value still overflows, as 2^32 is a multiple of 2^(b+7). */
  lemma HighRemains(v: nat, b: nat)
    requires b <= 21 && Shl(v, b) >= U32
    ensures Shl(v / 128, b + 7) >= U32
  {
    ShlWords(1);
    ShlShl(1, 25 - b, b + 7);
    assert 25 - b + (b + 7) == 32;
    var h := Shl(1, 25 - b);
    if v / 128 < h {
      ShlMonotone(v, 128 * h - 1, b);
      ShlShl(h, 7, b);
      Shl7At(h);
      ShlAdd(128 * h - 1, 1, b);
      ShlOneMonotone(0, b);
      Shl7(h, b);
    } else {
      ShlMonotone(h, v / 128, b + 7);
    }
  }

  lemma BelowAccepted(v: nat, t: seq<byte>)
    requires v < 0x8000_0000_0000_0000
    ensures Varint32Dec(VarintEnc(v) + t) == if v < U32 then Ok(v, t) else Fail
  {
    if v < U32 {
      Varint32RoundTrip(v, t);
    } else {
      Varint32First(v, t);
      ShlWords(1);
      Shl7At(v / 128);
      Varint32Overflow(v / 128, 7, v % 128, t);
    }
  }

  /** `n` groups of seven bits that are all zeros or all ones, below a final 1. */
  predicate Uniform(u: nat, n: nat) {
    if n == 0 then u == 1 else (u % 128 == 0 || u % 128 == 127) && Uniform(u / 128, n - 1)
  }

  /** The end of a ten-byte encoding: zeros are not compared with the sign, anything else must be 0xFF or 0x01. */
  lemma {:induction false} Varint32Tail(u: nat, n: nat, r: nat, t: seq<byte>)
    requires n <= 4 && Shl(1, 7 * n) <= u < Shl(1, 7 * n + 1) && r < U32
    ensures Varint32From(VarintEnc(u) + t, 63 - 7 * n, r)
         == if r >= 0x8000_0000 && Uniform(u, n) then Ok(r, t) else Fail
    decreases n
  {
    EncTail(u, t);
    if n > 0 {
      Shl7(1, 7 * n - 7);
      Shl7(1, 7 * n - 6);
      ShlOneMonotone(0, 7 * n - 7);
      Varint32Tail(u / 128, n - 1, r, t);
    }
  }

  /** What is gathered and what remains after the byte at bit 28. */
  lemma GroupAt28(q: nat, c: nat, r: nat)
    requires c < 128 && r < 0x1000_0000
    ensures var w := r + (Shl(c, 28) + Shl(q, 35)); w / 0x8_0000_0000 == q && Gather(r, c, 28, U32) == w % U32
  {
    var low := r + Shl(c, 28);
    Shl28And35(1);
    Shl28And35(c);
    Shl28And35(q);
    GatherLow(r, c, 28);
    TruncIsMod(low, U32);
    SplitAt35(low, q);
    assert r + (Shl(c, 28) + Shl(q, 35)) == low + 0x8_0000_0000 * q;
  }

  lemma Shl28And35(x: nat)
    ensures Shl(x, 28) == 0x1000_0000 * x && Shl(x, 35) == 0x8_0000_0000 * x
  {
    ShlWords(x);
  }

  lemma SplitAt35(low: nat, high: nat)
    requires low < 0x8_0000_0000
    ensures (low + 0x8_0000_0000 * high) / 0x8_0000_0000 == high
    ensures (low + 0x8_0000_0000 * high) % U32 == low % U32
  {
    ModUnique(low + 0x8_0000_0000 * high, high, 0x8_0000_0000, low);
    ModUnique(low + 0x8_0000_0000 * high, 8 * high + low / U32, U32, low % U32);
  }

  lemma HighIsLong(v: nat, b: nat, r: nat)
    requires b <= 21 && r < Shl(1, b) && r + Shl(v, b) >= 0x8000_0000_0000_0000
    ensures v >= 128
  {
    if v < 128 { LowFits(r, v, b); }
  }

  lemma HighIsLongAt28(v: nat, r: nat)
    requires r < Shl(1, 28) && r + Shl(v, 28) >= 0x8000_0000_0000_0000
    ensures v >= 128
  {
    ShlWords(1);
    ShlWords(v);
  }

  lemma Varint32LowLast(v: nat, r: nat, t: seq<byte>)
    requires r < Shl(1, 28) && r + Shl(v, 28) >= 0x8000_0000_0000_0000
    ensures var w := r + Shl(v, 28);
            Varint32From(VarintEnc(v) + t, 28, r) == Varint32From(VarintEnc(w / 0x8_0000_0000) + t, 35, w % U32)
  {
    hide Shl, Trunc, Varint32From, VarintEnc;
    SplitChunk(v, 28);
    assert Shl(1, 28) == 0x1000_0000 by { ShlWords(1); }
    GroupAt28(v / 128, v % 128, r);
    HighIsLongAt28(v, r);
    Varint32Step(v, 28, r, t);
  }

  lemma {:induction false} Varint32Low(v: nat, b: nat, r: nat, t: seq<byte>)
    requires GroupBit(b) && r < Shl(1, b) && r + Shl(v, b) >= 0x8000_0000_0000_0000
    ensures var w := r + Shl(v, b);
            Varint32From(VarintEnc(v) + t, b, r) == Varint32From(VarintEnc(w / 0x8_0000_0000) + t, 35, w % U32)
    decreases v
  {
    hide Shl, Varint32From, VarintEnc;
    if b == 28 {
      Varint32LowLast(v, r, t);
    } else {
      HighIsLong(v, b, r);
      LowStep(v, b, r, t);
      Varint32Low(v / 128, b + 7, r + Shl(v % 128, b), t);
    }
  }

  lemma TailRange(v: nat)
    requires 0x8000_0000_0000_0000 <= v < U64
    ensures Shl(1, 28) <= v / 0x8_0000_0000 < Shl(1, 29)
  {
    ShlWords(1);
  }

  lemma HighStart(v: nat, t: seq<byte>)
    requires v >= 0x8000_0000_0000_0000
    ensures Varint32Dec(VarintEnc(v) + t) == Varint32From(VarintEnc(v / 0x8_0000_0000) + t, 35, v % U32)
  {
    Varint32First(v, t);
    Varint32Low(v / 128, 7, v % 128, t);
  }

  lemma HighAccepted(v: nat, t: seq<byte>)
    requires 0x8000_0000_0000_0000 <= v < U64
    ensures Varint32Dec(VarintEnc(v) + t)
            == if v % U32 >= 0x8000_0000 && Uniform(v / 0x8_0000_0000, 4) then Ok(v % U32, t) else Fail
  {
    HighStart(v, t);
    TailRange(v);
    Varint32Tail(v / 0x8_0000_0000, 4, v % U32, t);
  }

  /**
   Of the canonical encodings of 64-bit values the 32-bit decoder accepts exactly those below 2^32 and those from 2^63
   on whose bit 31 is set and whose four groups above bit 35 are uniform. The value is the low word.
   */
  lemma Varint32AcceptsIff(v: nat, t: seq<byte>)
    requires v < U64
    ensures var p := Varint32Dec(VarintEnc(v) + t);
            && (p.Ok? <==> v < U32 || (v >= 0x8000_0000_0000_0000 && v % U32 >= 0x8000_0000
                                       && Uniform(v / 0x8_0000_0000, 4)))
            && (p.Ok? ==> p == Ok(v % U32, t))
  {
    if v < 0x8000_0000_0000_0000 { BelowAccepted(v, t); } else { HighAccepted(v, t); }
  }

  lemma UniformTails()
    ensures Uniform(0x1FFF_FFFF, 4) && Uniform(0x1000_0000, 4)
  {
    assert Uniform(1, 0) && Uniform(0xFF, 1) && Uniform(0x7FFF, 2) && Uniform(0x3F_FFFF, 3);
    assert Uniform(0x80, 1) && Uniform(0x4000, 2) && Uniform(0x20_0000, 3);
  }

  /** A negative int32 is encoded sign-extended to 64 bits; the 32-bit decoder gives its low word back. */
  lemma Varint32Negative(k: nat, t: seq<byte>)
    requires 1 <= k <= 0x8000_0000
    ensures Varint32Dec(VarintEnc(U64 - k) + t) == Ok(U32 - k, t)
  {
    var v := U64 - k;
    ModUnique(v, U32 - 1, U32, U32 - k);
    ModUnique(v, 0x1FFF_FFFF, 0x8_0000_0000, 0x8_0000_0000 - k);
    UniformTails();
    Varint32AcceptsIff(v, t);
  }

  /** But a value that is no sign extension can be accepted as well, and loses its high word. */
  lemma Varint32AcceptsMore(t: seq<byte>)
    ensures Varint32Dec(VarintEnc(0x8000_0000_8000_0000) + t) == Ok(0x8000_0000, t)
  {
    hide Varint32Dec, VarintEnc;
    var v := 0x8000_0000_8000_0000;
    UniformTails();
    HighAccepted(v, t);
  }

  // ---------- lengths ----------

  /** Seven more bits below `u'`. */
  lemma JoinChunk(d: nat, u': nat, b: nat)
    requires d < 128
    ensures Shl(d + 128 * u', b) == Shl(d, b) + Shl(u', b + 7)
    ensures |VarintEnc(d + 128 * u')| <= 1 + |VarintEnc(u')|
  {
    SplitChunk(d + 128 * u', b);
  }

  lemma {:induction false} VarintFromShape(s: seq<byte>, k: nat, r: nat, v: nat, t: seq<byte>) returns (u: nat)
    requires r < Shl(1, 7 * k) && VarintFrom(s, 7 * k, r) == Ok(v, t)
    ensures v == r + Shl(u, 7 * k) && |VarintEnc(u)| <= |s| - |t| <= 10 - k
    decreases |s|
  {
    var b := 7 * k;
    VarintUnfold(s, b, r);
    ShlWords(1);
    var d := ShlTruncated(s[0] % 128, b, 64);
    if s[0] >= 128 {
      ChunkBelow(r, d, b);
      var u' := VarintFromShape(s[1..], k + 1, r + Shl(d, b), v, t);
      JoinChunk(d, u', b);
      u := d + 128 * u';
    } else {
      u := d;
    }
  }

  /** Decoding never takes more than ten bytes, and no shorter string stands for the same value than VarintEnc's. */
  lemma VarintMinimal(s: seq<byte>)
    requires VarintDec(s).Ok?
    ensures |VarintEnc(VarintDec(s).value)| <= |s| - |VarintDec(s).rest| <= 10
  {
    var u := VarintFromShape(s, 0, 0, VarintDec(s).value, VarintDec(s).rest);
  }

  lemma {:induction false} VarintFromBelow(s: seq<byte>, b: nat, r: nat)
    requires r < Shl(1, b) && VarintFrom(s, b, r).Ok?
    ensures VarintFrom(s, b, r).value < U64
    decreases |s|
  {
    VarintUnfold(s, b, r);
    ShlWords(1);
    var d := ShlTruncated(s[0] % 128, b, 64);
    if s[0] >= 128 {
      ChunkBelow(r, d, b);
      VarintFromBelow(s[1..], b + 7, r + Shl(d, b));
    }
  }

  /** Whatever the input, the result fits the word it is stored in. */
  lemma VarintBelow(s: seq<byte>)
    requires VarintDec(s).Ok?
    ensures VarintDec(s).value < U64
  {
    VarintFromBelow(s, 0, 0);
  }

  lemma VarintLength(v: nat)
    requires v < U64
    ensures 1 <= |VarintEnc(v)| <= 10
  {
    VarintRoundTrip(v, []);
    VarintMinimal(VarintEnc(v) + []);
  }

  // ---------- more input does not change what was read ----------

  lemma {:induction false} VarintFromAppend(s: seq<byte>, b: nat, r: nat, t: seq<byte>)
    requires VarintFrom(s, b, r).Ok?
    ensures VarintFrom(s + t, b, r) == Ok(VarintFrom(s, b, r).value, VarintFrom(s, b, r).rest + t)
    decreases |s|
  {
    assert (s + t)[1..] == s[1..] + t;
    if s[0] >= 128 { VarintFromAppend(s[1..], b + 7, Gather(r, s[0] % 128, b, U64), t); }
  }

  lemma VarintAppend(s: seq<byte>, t: seq<byte>)
    requires VarintDec(s).Ok?
    ensures VarintDec(s + t) == Ok(VarintDec(s).value, VarintDec(s).rest + t)
  {
    VarintFromAppend(s, 0, 0, t);
  }

  lemma {:induction false} Varint32FromAppend(s: seq<byte>, b: nat, r: nat, t: seq<byte>)
    requires Varint32From(s, b, r).Ok?
    ensures Varint32From(s + t, b, r) == Ok(Varint32From(s, b, r).value, Varint32From(s, b, r).rest + t)
    decreases |s|
  {
    assert (s + t)[1..] == s[1..] + t;
    if s[0] >= 128 {
      var r' := if b >= 32 then r else Gather(r, s[0] % 128, b, U32);
      Varint32FromAppend(s[1..], NextBitpos(b), r', t);
    }
  }

  lemma Varint32Append(s: seq<byte>, t: seq<byte>)
    requires Varint32Dec(s).Ok?
    ensures Varint32Dec(s + t) == Ok(Varint32Dec(s).value, Varint32Dec(s).rest + t)
  {
    assert (s + t)[1..] == s[1..] + t;
    if s[0] >= 128 { Varint32FromAppend(s[1..], 7, s[0] % 128, t); }
  }

  lemma {:induction false} SkipVarintAppend(s: seq<byte>, t: seq<byte>)
    requires SkipVarint(s).Ok?
    ensures SkipVarint(s + t) == Ok((), SkipVarint(s).rest + t)
  {
    assert (s + t)[1..] == s[1..] + t;
    if s[0] >= 128 { SkipVarintAppend(s[1..], t); }
  }

  // ---------- casts and zigzag ----------

  /** The unsigned word of modulus `m` a signed value is cast to. */
  function ToUnsigned(i: int, m: int): int {
    if i < 0 then i + m else i
  }

  /** The two's-complement reading of a word of modulus `m`. */
  function ToSigned(u: int, m: int): int {
    if 2 * u >= m then u - m else u
  }

  predicate IsInt64(i: int) {
    -0x8000_0000_0000_0000 <= i < 0x8000_0000_0000_0000
  }

  /** pb_encode_svarint: a left shift, complemented when the value is negative. */
  function ZigZag(i: int): (u: int)
    requires IsInt64(i)
    ensures 0 <= u < U64
  {
    var doubled := 2 * ToUnsigned(i, U64) % U64;
    if i < 0 then U64 - 1 - doubled else doubled
  }

  /** pb_decode_svarint: a right shift, complemented when the lowest bit is set. */
  function UnZigZag(u: nat): (i: int)
    ensures u < U64 ==> IsInt64(i)
  {
    if u % 2 == 1 then ToSigned(U64 - 1 - u / 2, U64) else ToSigned(u / 2, U64)
  }

  /** Zigzag is a bijection from the 64-bit signed to the 64-bit unsigned integers, small magnitudes first. */
  lemma ZigZagBijection(i: int, u: nat)
    requires IsInt64(i) && u < U64
    ensures UnZigZag(ZigZag(i)) == i && ZigZag(UnZigZag(u)) == u
    ensures ZigZag(i) == if i < 0 then -2 * i - 1 else 2 * i
  {
  }

  // ---------- little-endian words ----------

  function LittleEndian(n: nat, v: nat): (s: seq<byte>)
    ensures |s| == n
  {
    if n == 0 then [] else [v % 256] + LittleEndian(n - 1, v / 256)
  }

  function FromLittleEndian(s: seq<byte>): nat {
    if s == [] then 0 else s[0] + 256 * FromLittleEndian(s[1..])
  }

  /** `v >> 8 * k & 0xFF`, shifting by eight bits at a time. */
  function ByteAt(v: nat, k: nat): byte {
    if k == 0 then v % 256 else ByteAt(v / 256, k - 1)
  }

  lemma {:induction false} LittleEndianAt(n: nat, v: nat, k: nat)
    requires k < n
    ensures LittleEndian(n, v)[k] == ByteAt(v, k)
  {
    if k > 0 { LittleEndianAt(n - 1, v / 256, k - 1); }
  }

  lemma {:induction false} LittleEndianRoundTrip(n: nat, v: nat)
    requires v < Shl(1, 8 * n)
    ensures FromLittleEndian(LittleEndian(n, v)) == v
  {
    if n > 0 {
      ShlByte(n - 1);
      LittleEndianRoundTrip(n - 1, v / 256);
      assert LittleEndian(n, v)[1..] == LittleEndian(n - 1, v / 256);
    }
  }

  lemma {:induction false} FromLittleEndianRoundTrip(s: seq<byte>)
    ensures LittleEndian(|s|, FromLittleEndian(s)) == s && FromLittleEndian(s) < Shl(1, 8 * |s|)
  {
    if s != [] {
      var v := FromLittleEndian(s[1..]);
      FromLittleEndianRoundTrip(s[1..]);
      ShlByte(|s| - 1);
      LowByte(s[0], v);
      assert s == [s[0]] + s[1..];
    }
  }

  lemma ShlByte(n: nat)
    ensures Shl(1, 8 * n + 8) == 256 * Shl(1, 8 * n)
  {
    Shl7(1, 8 * n);
    assert Shl(1, 8 * n + 8) == 2 * Shl(1, 8 * n + 7);
  }

  lemma LowByte(b: byte, v: nat)
    ensures (b + 256 * v) % 256 == b && (b + 256 * v) / 256 == v
  {
  }
}
