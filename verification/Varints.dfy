/**
 What the varint decoders make of any string of bytes: which they accept, where they stop and what the value is.
 */
module Varints {
  import opened Wire

  /** The first byte without a continuation bit is at `k`. */
  predicate EndsAt(s: seq<byte>, k: nat) {
    k < |s| && s[k] < 128 && forall j | 0 <= j < k :: s[j] >= 128
  }

  lemma {:induction false} SkipVarintIff(s: seq<byte>, k: nat)
    requires k < |s|
    ensures SkipVarint(s) == Ok((), s[k + 1..]) <==> EndsAt(s, k)
    decreases |s|
  {
    if k > 0 && s[0] >= 128 {
      SkipVarintIff(s[1..], k - 1);
      assert s[1..][k..] == s[k + 1..];
      assert EndsAt(s[1..], k - 1) <==> EndsAt(s, k) by { Shifted(s, k); }
    } else if s[0] >= 128 {
    } else {
      assert s[1..] == s[k + 1..] ==> k == 0;
    }
  }

  lemma Shifted(s: seq<byte>, k: nat)
    requires 0 < k < |s| && s[0] >= 128
    ensures EndsAt(s[1..], k - 1) <==> EndsAt(s, k)
  {
    if EndsAt(s[1..], k - 1) {
      forall j | 0 <= j < k ensures s[j] >= 128 { if j > 0 { assert s[j] == s[1..][j - 1]; } }
    }
    if EndsAt(s, k) {
      forall j | 0 <= j < k - 1 ensures s[1..][j] >= 128 { assert s[1..][j] == s[j + 1]; }
    }
  }

  /** The seven-bit groups up to the `k`-th byte, least significant first. */
  function Groups(s: seq<byte>, k: nat): nat
    requires k < |s|
  {
    s[0] % 128 + if k == 0 then 0 else 128 * Groups(s[1..], k - 1)
  }

  lemma LastGroup(s: seq<byte>, b: nat, r: nat)
    requires s != [] && s[0] < 128 && b < 64 && r < Shl(1, b)
    ensures VarintFrom(s, b, r) == Ok((r + Shl(s[0], b)) % U64, s[1..])
  {
    var d := ShlTruncated(s[0], b, 64);
    ShlWords(1);
    TruncIsMod(Shl(s[0], b), U64);
    var q := Shl(s[0], b) / U64;
    ModUnique(r + Shl(s[0], b), q, U64, r + Shl(s[0], b) % U64);
    VarintUnfold(s, b, r);
  }

  lemma NextGroup(s: seq<byte>, b: nat, r: nat, g: nat)
    requires s != [] && s[0] >= 128 && b <= 56 && r < Shl(1, b)
    ensures var r' := r + Shl(s[0] % 128, b);
            && r' < Shl(1, b + 7) && VarintFrom(s, b, r) == VarintFrom(s[1..], b + 7, r')
            && r' + Shl(g, b + 7) == r + Shl(s[0] % 128 + 128 * g, b)
  {
    ChunkBelow(r, s[0] % 128, b);
    ShlOneMonotone(b + 7, 63);
    ShlWords(1);
    VarintUnfold(s, b, r);
    ShlAdd(s[0] % 128, 128 * g, b);
    Shl7At(g);
    ShlShl(g, 7, b);
    assert 7 + b == b + 7;
  }

  lemma {:induction false} VarintFromGroups(s: seq<byte>, j: nat, r: nat, k: nat)
    requires j <= 9 && r < Shl(1, 7 * j) && EndsAt(s, k)
    ensures VarintFrom(s, 7 * j, r)
         == if j + k <= 9 then Ok((r + Shl(Groups(s, k), 7 * j)) % U64, s[k + 1..]) else Fail
    decreases k
  {
    hide VarintFrom, Shl;
    if k == 0 {
      LastGroup(s, 7 * j, r);
    } else if j < 9 {
      NextGroup(s, 7 * j, r, Groups(s[1..], k - 1));
      Shifted(s, k);
      assert s[1..][k..] == s[k + 1..];
      VarintFromGroups(s[1..], j + 1, r + Shl(s[0] % 128, 7 * j), k - 1);
    } else {
      VarintUnfold(s, 63, r);
      TooLong(s[1..], r + Trunc(Shl(s[0] % 128, 63), U64));
    }
  }

  lemma TooLong(s: seq<byte>, r: nat)
    ensures VarintFrom(s, 70, r).Fail?
  {
  }

  /** A varint is accepted exactly when it ends within ten bytes, and its value is its groups modulo 2^64. */
  lemma VarintOfGroups(s: seq<byte>, k: nat)
    requires EndsAt(s, k)
    ensures VarintDec(s) == if k < 10 then Ok(Groups(s, k) % 0x1_0000_0000_0000_0000, s[k + 1..]) else Fail
  {
    VarintFromGroups(s, 0, 0, k);
  }

  /** A varint without an end is not accepted. */
  lemma {:induction false} OpenVarint(s: seq<byte>, b: nat, r: nat)
    requires forall j | 0 <= j < |s| :: s[j] >= 128
    ensures VarintFrom(s, b, r).Fail?
    decreases |s|
  {
    if s != [] { OpenVarint(s[1..], b + 7, Gather(r, s[0] % 128, b, U64)); }
  }

  /** Groups of zeros are passed over by the 32-bit decoder; its bit position is a byte and comes round after 256. */
  lemma {:induction false} ZeroGroups(s: seq<byte>, n: nat, b: nat, r: nat)
    requires n <= |s| && b < 256 && r < U32 && forall j | 0 <= j < n :: s[j] == 0x80
    ensures Varint32From(s, b, r) == Varint32From(s[n..], (b + 7 * n) % 256, r)
    decreases n
  {
    hide Varint32From, NextBitpos;
    if n == 0 {
      assert s[0..] == s;
    } else {
      ZeroGroup(s, b, r);
      ZeroGroups(s[1..], n - 1, NextBitpos(b), r);
      assert s[1..][n - 1..] == s[n..];
      WrapAgain(b, n);
    }
  }

  lemma ZeroGroup(s: seq<byte>, b: nat, r: nat)
    requires s != [] && s[0] == 0x80 && b < 256 && r < U32
    ensures Varint32From(s, b, r) == Varint32From(s[1..], (b + 7) % 256, r) && NextBitpos(b) == (b + 7) % 256
  {
    ShlNothing(b);
  }

  lemma {:induction false} ShlNothing(b: nat)
    ensures Shl(0, b) == 0
  {
    if b > 0 { ShlNothing(b - 1); }
  }

  lemma WrapAgain(b: nat, n: nat)
    requires n > 0
    ensures ((b + 7) % 256 + 7 * (n - 1)) % 256 == (b + 7 * n) % 256
  {
  }
}
