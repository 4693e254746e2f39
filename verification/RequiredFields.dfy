/**
 The bitset pb_decode_noinit keeps of the required fields it has met: two words of 32 bits, of which bit `j` stands
 for the j-th required field. A word is represented by its bits.
 */
module RequiredFields {
  import opened Message
  import opened Decoding
  import opened FieldIterator

  type Word = w: seq<bool> | |w| == 32 witness seq(32, _ => false)

  const ZERO_WORD: Word := seq(32, _ => false)

  const ALL_BITS: Word := seq(32, _ => true)

  /** `allbits >> (32 - n)` */
  function LowBits(n: nat): Word {
    seq(32, k => k < n)
  }

  function RequiredTotal(fs: seq<Field>): nat {
    RequiredIndex(fs, |fs|)
  }

  predicate RequiredOf(fs: seq<Field>, i: nat, j: nat) {
    i < |fs| && fs[i].h.Required? && RequiredIndex(fs, i) == j
  }

  predicate Bit(words: seq<Word>, j: nat)
    requires j < 32 * |words|
  {
    words[j / 32][j % 32]
  }

  /** The words hold exactly the required fields in `seen` among the first 64. */
  ghost predicate BitsMatch(fs: seq<Field>, words: seq<Word>, seen: set<nat>) {
    && |words| == 2
    && (forall i :: i in seen ==> i < |fs| && fs[i].h.Required?)
    && (forall j :: 0 <= j < PB_MAX_REQUIRED_FIELDS ==>
          (Bit(words, j) <==> exists i :: i in seen && RequiredOf(fs, i, j)))
  }

  function SetBit(words: seq<Word>, j: nat): (r: seq<Word>)
    requires j < 32 * |words|
    ensures |r| == |words|
  {
    words[j / 32 := words[j / 32][j % 32 := true]]
  }

  lemma SetBitAt(words: seq<Word>, j: nat, k: nat)
    requires j < 32 * |words| && k < 32 * |words|
    ensures Bit(SetBit(words, j), k) == (k == j || Bit(words, k))
  {
  }

  lemma {:induction false} RequiredIndexMonotone(fs: seq<Field>, i: nat, k: nat)
    requires i <= k <= |fs|
    ensures RequiredIndex(fs, i) <= RequiredIndex(fs, k)
    ensures i < k && fs[i].h.Required? ==> RequiredIndex(fs, i) < RequiredIndex(fs, k)
    decreases k
  {
    if i < k { RequiredIndexMonotone(fs, i, k - 1); }
  }

  lemma RequiredOfUnique(fs: seq<Field>, i: nat, k: nat, j: nat)
    requires RequiredOf(fs, i, j) && RequiredOf(fs, k, j)
    ensures i == k && j < RequiredTotal(fs)
  {
    RequiredIndexMonotone(fs, i, |fs|);
    if i < k { RequiredIndexMonotone(fs, i, k); } else { RequiredIndexMonotone(fs, k, i); }
  }

  lemma {:induction false} RequiredOfExists(fs: seq<Field>, n: nat, j: nat) returns (i: nat)
    requires n <= |fs| && j < RequiredIndex(fs, n)
    ensures RequiredOf(fs, i, j)
  {
    if j < RequiredIndex(fs, n - 1) { i := RequiredOfExists(fs, n - 1, j); } else { i := n - 1; }
  }

  lemma MarkBit(fs: seq<Field>, words: seq<Word>, seen: set<nat>, i: nat)
    requires BitsMatch(fs, words, seen) && i < |fs| && fs[i].h.Required?
    ensures var j := RequiredIndex(fs, i);
            BitsMatch(fs, if j < PB_MAX_REQUIRED_FIELDS then SetBit(words, j) else words, seen + {i})
  {
    var j := RequiredIndex(fs, i);
    assert RequiredOf(fs, i, j);
    var words' := if j < PB_MAX_REQUIRED_FIELDS then SetBit(words, j) else words;
    forall k | 0 <= k < PB_MAX_REQUIRED_FIELDS
      ensures Bit(words', k) <==> exists x :: x in seen + {i} && RequiredOf(fs, x, k)
    {
      if j < PB_MAX_REQUIRED_FIELDS { SetBitAt(words, j, k); }
      if Bit(words, k) {
        var x :| x in seen && RequiredOf(fs, x, k);
        assert x in seen + {i};
      } else if k == j {
        assert i in seen + {i};
      }
    }
  }

  /** Set the bit of the field the iterator stands on, when it is a required one among the first 64. */
  method MarkSeen(iter: FieldIter, fieldsSeen: array<Word>, ghost seen: set<nat>)
    requires iter.Valid() && iter.fields != [] && fieldsSeen.Length == 2 && BitsMatch(iter.fields, fieldsSeen[..], seen)
    modifies fieldsSeen
    ensures BitsMatch(iter.fields, fieldsSeen[..], seen + Mark(iter.fields, iter.pos))
  {
    if iter.fields[iter.pos].h.Required? {
      MarkBit(iter.fields, fieldsSeen[..], seen, iter.pos);
      var j := iter.requiredFieldIndex;
      if j < PB_MAX_REQUIRED_FIELDS {
        ghost var words := fieldsSeen[..];
        fieldsSeen[j / 32] := fieldsSeen[j / 32][j % 32 := true];
        assert fieldsSeen[..] == SetBit(words, j);
      }
    } else {
      assert seen + Mark(iter.fields, iter.pos) == seen;
    }
  }

  /** Every tracked required field was seen exactly when the low bits are all set. */
  lemma AllRequiredIffBits(fs: seq<Field>, words: seq<Word>, seen: set<nat>)
    requires BitsMatch(fs, words, seen)
    ensures AllRequired(fs, seen)
            <==> forall j :: 0 <= j < PB_MAX_REQUIRED_FIELDS && j < RequiredTotal(fs) ==> Bit(words, j)
    ensures forall j :: RequiredTotal(fs) <= j < PB_MAX_REQUIRED_FIELDS ==> !Bit(words, j)
  {
    forall j | 0 <= j < PB_MAX_REQUIRED_FIELDS && j < RequiredTotal(fs)
      ensures AllRequired(fs, seen) ==> Bit(words, j)
    {
      var i := RequiredOfExists(fs, |fs|, j);
    }
    forall i | 0 <= i < |fs| && fs[i].h.Required? && RequiredIndex(fs, i) < PB_MAX_REQUIRED_FIELDS
      ensures Bit(words, RequiredIndex(fs, i)) ==> i in seen
      ensures RequiredIndex(fs, i) < RequiredTotal(fs)
    {
      var j := RequiredIndex(fs, i);
      RequiredOfUnique(fs, i, i, j);
      if Bit(words, j) {
        var x :| x in seen && RequiredOf(fs, x, j);
        RequiredOfUnique(fs, i, x, j);
      }
    }
    forall j | RequiredTotal(fs) <= j < PB_MAX_REQUIRED_FIELDS ensures !Bit(words, j) {
      if x :| x in seen && RequiredOf(fs, x, j) { RequiredOfUnique(fs, x, x, j); }
    }
  }

  /** The end of pb_decode_noinit: count the required fields and compare whole words, then the remaining bits. */
  method CheckRequired(iter: FieldIter, fieldsSeen: array<Word>, ghost seen: set<nat>) returns (ok: bool)
    requires iter.Valid() && fieldsSeen.Length == 2
    requires iter.fields != [] ==> BitsMatch(iter.fields, fieldsSeen[..], seen)
    modifies iter
    ensures ok <==> AllRequired(iter.fields, seen)
  {
    ghost var fs := iter.fields;
    var count := 0;
    var lastRequired := true;  // the type of the terminator entry
    var more := iter.fields != [];
    while more
      invariant iter.Valid()
      invariant if more then iter.fields != [] else
        fs != [] ==> count == RequiredIndex(fs, |fs| - 1) && lastRequired == fs[|fs| - 1].h.Required?
      invariant fs == [] ==> count == 0
      decreases more, |fs| - iter.pos
    {
      count := iter.requiredFieldIndex;
      lastRequired := iter.fields[iter.pos].h.Required?;
      more := iter.Next();
    }
    if lastRequired && iter.fields != [] { count := count + 1; }
    assert count == RequiredTotal(fs);
    if count > PB_MAX_REQUIRED_FIELDS { count := PB_MAX_REQUIRED_FIELDS; }
    if count == 0 {
      forall i | 0 <= i < |fs| ensures !fs[i].h.Required? { RequiredIndexMonotone(fs, i, |fs|); }
      return true;
    }
    AllRequiredIffBits(fs, fieldsSeen[..], seen);
    ok := WordsFull(fieldsSeen[..], count);
  }

  /** Bits 0 to count - 1 are set, those after them being clear. */
  method WordsFull(words: seq<Word>, count: nat) returns (ok: bool)
    requires |words| == 2 && count <= 64 && forall j :: count <= j < 64 ==> !Bit(words, j)
    ensures ok <==> forall j :: 0 <= j < count ==> Bit(words, j)
  {
    var i := 0;
    while i < count / 32
      invariant i <= count / 32
      invariant forall j :: 0 <= j < 32 * i ==> Bit(words, j)
    {
      if words[i] != ALL_BITS {
        var k :| 0 <= k < 32 && !words[i][k];
        assert !Bit(words, 32 * i + k);
        return false;
      }
      i := i + 1;
    }
    if count % 32 != 0 {
      if words[count / 32] != LowBits(count % 32) {
        ghost var k :| 0 <= k < 32 && words[count / 32][k] != (k < count % 32);
        assert Bit(words, 32 * (count / 32) + k) == words[count / 32][k];
        return false;
      }
      forall j | 32 * (count / 32) <= j < count ensures Bit(words, j) { assert j / 32 == count / 32; }
    }
    return true;
  }
}
