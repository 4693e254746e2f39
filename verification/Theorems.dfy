/**
 The round trip, what concatenated encodings decode to, and the exact condition on strings.
 */
module Theorems {
  import opened Wire
  import opened Message
  import opened Encoding
  import opened Decoding
  import opened Merging
  import opened RoundTrip

  // ---------- the normalised struct ----------

  function NormVal(f: Field, v: Val): Val
    decreases f, 0
  {
    if f.l.LSub? && v.VMsg? && |v.slots| == |f.l.fields| then VMsg(Normalise(f.l.fields, v.slots)) else NormScalar(f, v)
  }

  function NormItems(f: Field, items: seq<Val>): (r: seq<Val>)
    ensures |r| == |items|
    decreases f, 1, |items|
  {
    if items == [] then [] else [NormVal(f, items[0])] + NormItems(f, items[1..])
  }

  /**
   Slot `k` once the fields before the `i`-th have been read back: strings end at their terminator, payloads that
   are not set are the defaults, and a oneof whose tag names no member is unset.
   */
  function NormSlot(fs: seq<Field>, m: seq<Slot>, i: nat, k: nat): Slot
    requires |m| == |fs| && k < |fs| && i <= |fs|
    decreases fs, 2
  {
    var f := fs[k];
    match m[k]
    case SUnion(which, v) =>
      var j := FindTag(fs, which);
      if j < i && Cell(fs, j) == k && fs[j].h.Oneof? then SUnion(which, NormVal(fs[j], v)) else DefaultSlot(fs, k)
    case SVal(v) => if k < i && !f.h.Oneof? then SVal(NormVal(f, v)) else DefaultSlot(fs, k)
    case SOpt(has, v) => if k < i && has && !f.h.Oneof? then SOpt(true, NormVal(f, v)) else DefaultSlot(fs, k)
    case SRep(items) => if k < i && !f.h.Oneof? then SRep(NormItems(f, items)) else DefaultSlot(fs, k)
    case SPad => DefaultSlot(fs, k)
  }

  function NormUpTo(fs: seq<Field>, m: seq<Slot>, i: nat): (r: seq<Slot>)
    requires |m| == |fs| && i <= |fs|
    ensures |r| == |fs|
    decreases fs, 3
  {
    seq(|fs|, k requires 0 <= k < |fs| => NormSlot(fs, m, i, k))
  }

  /** The struct as it is after a round trip. */
  function Normalise(fs: seq<Field>, m: seq<Slot>): (r: seq<Slot>)
    requires |m| == |fs|
    ensures |r| == |fs|
    decreases fs, 4
  {
    NormUpTo(fs, m, |fs|)
  }

  // ---------- merging into defaults normalises ----------

  lemma {:induction false} MergeZero(f: Field, v: Val)
    requires FieldOk(f) && ValOk(f, v)
    ensures MergeVal(f, Zero(f), v) == Some(NormVal(f, v))
    ensures MergeVal(f, DefaultVal(f), v) == Some(NormVal(f, v))
    decreases f, 0
  {
    if f.l.LSub? { MergeDefaultsFrom(f.l.fields, v.slots, 0); }
  }

  lemma {:induction false} MergeZeroItems(f: Field, acc: seq<Val>, items: seq<Val>)
    requires FieldOk(f) && forall k :: 0 <= k < |items| ==> ValOk(f, items[k])
    ensures MergeItems(f, acc, items) == Some(acc + NormItems(f, items))
    decreases f, 1, |items|
  {
    if items == [] {
      assert acc + [] == acc;
    } else {
      var v := NormVal(f, items[0]);
      MergeZero(f, items[0]);
      MergeZeroItems(f, acc + [v], items[1..]);
      assert acc + [v] + NormItems(f, items[1..]) == acc + ([v] + NormItems(f, items[1..]));
    }
  }

  /** A singular field the encoder passes over as zero is at its default. */
  lemma {:induction false} IsDefaultNorm(f: Field, s: Slot)
    requires FieldOk(f) && f.h.Singular? && FieldSlotOk(f, s) && IsDefault(f, s)
    ensures NormVal(f, s.v) == DefaultVal(f)
    decreases f, 0
  {
    match f.l
    case LSub(fields) => IsDefaultMsgNorm(fields, s.v.slots);
    case LFixedBytes => assert s.v.bs == Zero(f).bs;
    case LString => assert s.v.bs[..StrLen(s.v.bs)] == [];
    case _ =>
  }

  lemma {:induction false} IsDefaultMsgNorm(fs: seq<Field>, m: seq<Slot>)
    requires FieldsOk(fs) && MsgOk(fs, m) && IsDefaultMsg(fs, m)
    ensures Normalise(fs, m) == Defaults(fs)
    decreases fs, 1
  {
    forall k | 0 <= k < |fs| ensures NormSlot(fs, m, |fs|, k) == DefaultSlot(fs, k) {
      SlotFits(fs, m, k);
      CellRoot(fs, k);
      assert SlotOk(fs, k, m[k]);
      assert IsDefault(fs[k], m[Cell(fs, k)]);
      if fs[k].h.Singular? {
        IsDefaultNorm(fs[k], m[k]);
      } else if m[k].SUnion? {
        assert Cell(fs, k) == k;
        TagNonzero(fs);
      }
    }
  }

  /** A scalar field is left out exactly when reading it back would give its default; fixed-length bytes never are. */
  lemma OmittedIffDefault(f: Field, s: Slot)
    requires FieldOk(f) && f.h.Singular? && FieldSlotOk(f, s) && !f.l.LSub?
    ensures EncField(f, s) == NOTHING <==> IsDefault(f, s)
    ensures !f.l.LFixedBytes? ==> (IsDefault(f, s) <==> NormVal(f, s.v) == DefaultVal(f))
    ensures f.l.LFixedBytes? ==> (IsDefault(f, s) <==> f.dataSize == 0)
  {
    EncValOk(f, s.v);
    match f.l
    case LString =>
      assert s.v.bs[..StrLen(s.v.bs)] == [] <==> StrLen(s.v.bs) == 0;
    case _ =>
  }

  lemma TagNonzero(fs: seq<Field>)
    requires FieldsOk(fs)
    ensures FindTag(fs, 0) == |fs|
  {
    var j := FindTag(fs, 0);
    assert j == |fs| || FieldOk(fs[j]);
  }

  /** Merging the `i`-th field moves the normalised prefix on by one. */
  lemma {:induction false} MergeDefaultsStep(fs: seq<Field>, m: seq<Slot>, i: nat)
    requires |m| == |fs| && i < |fs| && FieldsOk(fs) && MsgOk(fs, m)
    ensures var c := Cell(fs, i);
            MergeSlot(fs[i], NormUpTo(fs, m, i)[c], m[c]) == Some(NormSlot(fs, m, i + 1, c))
    decreases fs, 2
  {
    var f, c := fs[i], Cell(fs, i);
    var s := m[c];
    SlotFits(fs, m, i);
    CellRoot(fs, i);
    if f.h.Repeated? {
      MergeZeroItems(f, [], s.items);
      assert [] + NormItems(f, s.items) == NormItems(f, s.items);
    } else if f.h.Oneof? {
      if s.which == f.tag {
        FindTagAt(fs, i);
        MergeZero(f, s.v);
      }
    } else {
      MergeZero(f, s.v);
      if f.h.Singular? && IsDefault(f, s) { IsDefaultNorm(f, s); }
    }
  }

  /** Merging the `i`-th field leaves the other slots as they are. */
  lemma NormFrame(fs: seq<Field>, m: seq<Slot>, i: nat, k: nat)
    requires |m| == |fs| && i < |fs| && k < |fs| && k != Cell(fs, i)
    ensures NormSlot(fs, m, i + 1, k) == NormSlot(fs, m, i, k)
  {
    CellRoot(fs, i);
  }

  lemma {:induction false} MergeDefaultsFrom(fs: seq<Field>, m: seq<Slot>, i: nat)
    requires |m| == |fs| && i <= |fs| && FieldsOk(fs) && MsgOk(fs, m)
    ensures MergeFrom(fs, NormUpTo(fs, m, i), m, i) == Some(Normalise(fs, m))
    ensures NormUpTo(fs, m, 0) == Defaults(fs)
    decreases fs, 3, |fs| - i
  {
    if i < |fs| {
      var c := Cell(fs, i);
      MergeDefaultsStep(fs, m, i);
      forall k | 0 <= k < |fs| && k != c ensures NormUpTo(fs, m, i + 1)[k] == NormUpTo(fs, m, i)[k] {
        NormFrame(fs, m, i, k);
      }
      assert NormUpTo(fs, m, i)[c := NormSlot(fs, m, i + 1, c)] == NormUpTo(fs, m, i + 1);
      MergeDefaultsFrom(fs, m, i + 1);
    }
    assert NormUpTo(fs, m, 0) == Defaults(fs);
  }

  // ---------- the theorems ----------

  /**
   Decoding the encoding of a struct over another one is their merge: it succeeds exactly when no array outgrows its
   storage, and leaves nothing unread.
   */
  lemma DecodeIntoMerges(fs: seq<Field>, m: seq<Slot>, base: seq<Slot>)
    requires |m| == |base| == |fs| && FieldsOk(fs) && MsgOk(fs, m) && SmallMsg(fs, m)
    ensures Encode(fs, m).ok
    ensures DecInto(fs, Encode(fs, m).bytes, base)
            == match Merge(fs, base, m) case None => Fail case Some(r) => Ok(r, [])
  {
    LoopRoundTrip(fs, m, 0, base, [], {});
    assert Encode(fs, m).bytes + [] == Encode(fs, m).bytes;
    assert AllRequired(fs, {} + RequiredFrom(fs, 0));
  }

  /** The round trip: pb_decode of what pb_encode wrote succeeds and gives the normalised struct back. */
  lemma EncodeDecode(fs: seq<Field>, m: seq<Slot>)
    requires |m| == |fs| && FieldsOk(fs) && MsgOk(fs, m) && SmallMsg(fs, m)
    ensures Encode(fs, m).ok && Decode(fs, Encode(fs, m).bytes) == Ok(Normalise(fs, m), [])
  {
    DecodeIntoMerges(fs, m, Defaults(fs));
    MergeDefaultsFrom(fs, m, 0);
  }

  /** Concatenated encodings decode to the merge of the structs, the later one winning. */
  lemma ConcatenatedEncodingsMerge(fs: seq<Field>, m1: seq<Slot>, m2: seq<Slot>)
    requires |m1| == |m2| == |fs| && FieldsOk(fs)
    requires MsgOk(fs, m1) && SmallMsg(fs, m1) && MsgOk(fs, m2) && SmallMsg(fs, m2)
    ensures Decode(fs, Encode(fs, m1).bytes + Encode(fs, m2).bytes)
            == match Merge(fs, Normalise(fs, m1), m2) case None => Fail case Some(r) => Ok(r, [])
  {
    var e2 := Encode(fs, m2).bytes;
    MergeDefaultsFrom(fs, m1, 0);
    LoopRoundTrip(fs, m1, 0, Defaults(fs), e2, {});
    LoopRoundTrip(fs, m2, 0, Normalise(fs, m1), [], {} + RequiredFrom(fs, 0));
    assert e2 + [] == e2;
    assert AllRequired(fs, {} + RequiredFrom(fs, 0) + RequiredFrom(fs, 0));
  }

  // ---------- what a merge does to each slot ----------

  lemma {:induction false} MergeFrame(fs: seq<Field>, m0: seq<Slot>, m1: seq<Slot>, i: nat, c: nat)
    requires |m0| == |m1| == |fs| && i <= |fs| && c < |fs| && MergeFrom(fs, m0, m1, i).Some?
    requires forall j :: i <= j < |fs| && Cell(fs, j) == c ==> MergeSlot(fs[j], m0[c], m1[c]) == Some(m0[c])
    ensures MergeFrom(fs, m0, m1, i).value[c] == m0[c]
    decreases |fs| - i
  {
    if i < |fs| {
      var d := Cell(fs, i);
      MergeFrame(fs, m0[d := MergeSlot(fs[i], m0[d], m1[d]).value], m1, i + 1, c);
    }
  }

  lemma {:induction false} MergeOwnSlot(fs: seq<Field>, m0: seq<Slot>, m1: seq<Slot>, i: nat, k: nat)
    requires |m0| == |m1| == |fs| && i <= k < |fs| && !fs[k].h.Oneof? && MergeFrom(fs, m0, m1, i).Some?
    ensures MergeSlot(fs[k], m0[k], m1[k]) == Some(MergeFrom(fs, m0, m1, i).value[k])
    decreases k - i
  {
    var d := Cell(fs, i);
    var m := m0[d := MergeSlot(fs[i], m0[d], m1[d]).value];
    CellRoot(fs, i);
    CellRoot(fs, k);
    if i < k {
      MergeOwnSlot(fs, m, m1, i + 1, k);
    } else {
      forall j | i + 1 <= j < |fs| && Cell(fs, j) == k ensures false { CellRoot(fs, j); }
      MergeFrame(fs, m, m1, i + 1, k);
    }
  }

  /**
   The merge law of one field: a required field takes the later value, an optional one when the later is set, an array
   is the two in a row; a submessage is the merge of the two. Other fields play no part in it.
   */
  lemma MergeLaw(fs: seq<Field>, m0: seq<Slot>, m1: seq<Slot>, k: nat)
    requires k < |fs| == |m0| == |m1| && FieldsOk(fs) && Merge(fs, m0, m1).Some?
    requires !fs[k].h.Oneof? && FieldSlotOk(fs[k], m0[k]) && FieldSlotOk(fs[k], m1[k])
    ensures var f, r := fs[k], Merge(fs, m0, m1).value[k];
            match f.h
            case Required => r.SVal? && Some(r.v) == MergeVal(f, m0[k].v, m1[k].v)
            case Singular =>
              if IsDefault(f, m1[k]) then r == m0[k] else r.SVal? && Some(r.v) == MergeVal(f, m0[k].v, m1[k].v)
            case Optional =>
              if !m1[k].has then r == m0[k] else r.SOpt? && r.has && Some(r.v) == MergeVal(f, m0[k].v, m1[k].v)
            case Repeated(n) => r == SRep(m0[k].items + NormItems(f, m1[k].items)) && |r.items| <= n
            case Oneof => true
    ensures !fs[k].l.LSub? && fs[k].h.Required?
            ==> Merge(fs, m0, m1).value[k] == SVal(NormScalar(fs[k], m1[k].v))
  {
    MergeOwnSlot(fs, m0, m1, 0, k);
    assert FieldOk(fs[k]);
    if fs[k].h.Repeated? {
      MergeZeroItems(fs[k], m0[k].items, m1[k].items);
      assert m0[k].items + [] == m0[k].items;
    }
  }

  lemma {:induction false} MergeUnion(fs: seq<Field>, m0: seq<Slot>, m1: seq<Slot>, i: nat, j: nat)
    requires |m0| == |m1| == |fs| && i <= |fs| && j < |fs| && fs[j].h.Oneof? && DistinctTags(fs)
    requires m1[Cell(fs, j)].SUnion? && m1[Cell(fs, j)].which == fs[j].tag && MergeFrom(fs, m0, m1, i).Some?
    ensures var c := Cell(fs, j);
            Some(MergeFrom(fs, m0, m1, i).value[c])
            == if i <= j then WrapUnion(fs[j].tag, MergeVal(fs[j], Zero(fs[j]), m1[c].v)) else Some(m0[c])
    decreases |fs| - i
  {
    if i < |fs| {
      var c, d := Cell(fs, j), Cell(fs, i);
      CellRoot(fs, i);
      CellRoot(fs, j);
      MergeUnion(fs, m0[d := MergeSlot(fs[i], m0[d], m1[d]).value], m1, i + 1, j);
      if i < j { assert fs[i].tag != fs[j].tag; } else if j < i { assert fs[j].tag != fs[i].tag; }
    }
  }

  /** The merge law of a oneof: the later selection replaces the earlier one as a whole, submessage or not. */
  lemma MergeLawOneof(fs: seq<Field>, m0: seq<Slot>, m1: seq<Slot>, j: nat)
    requires j < |fs| && FieldsOk(fs) && MsgOk(fs, m0) && MsgOk(fs, m1) && Merge(fs, m0, m1).Some?
    requires fs[j].h.Oneof? && m1[Cell(fs, j)].SUnion? && m1[Cell(fs, j)].which == fs[j].tag
    ensures Merge(fs, m0, m1).value[Cell(fs, j)] == SUnion(fs[j].tag, NormVal(fs[j], m1[Cell(fs, j)].v))
  {
    SlotFits(fs, m1, j);
    MergeUnion(fs, m0, m1, 0, j);
    MergeZero(fs[j], m1[Cell(fs, j)].v);
  }

  // ---------- when a merge exists ----------

  /** The arrays of `v` fit behind those of `v0`, at every level of submessages merged into one another. */
  predicate ValFits(f: Field, v0: Val, v: Val)
    decreases f, 0
  {
    f.l.LSub? && v0.VMsg? && v.VMsg? ==> ArraysFit(f.l.fields, v0.slots, v.slots)
  }

  predicate SlotFitsBehind(f: Field, s0: Slot, s: Slot)
    decreases f, 1
  {
    match s
    case SVal(v) => (f.h.Singular? && IsDefault(f, s)) || (s0.SVal? ==> ValFits(f, s0.v, v))
    case SOpt(has, v) => has && s0.SOpt? ==> ValFits(f, s0.v, v)
    case SRep(items) => items != [] && s0.SRep? && f.h.Repeated? ==> |s0.items| + |items| <= f.h.arraySize
    case _ => true
  }

  predicate ArraysFit(fs: seq<Field>, m0: seq<Slot>, m: seq<Slot>)
    decreases fs, 2
  {
    |m0| == |m| == |fs| ==> forall i :: 0 <= i < |fs| ==> SlotFitsBehind(fs[i], m0[i], m[i])
  }

  lemma {:induction false} MergeValIff(f: Field, v0: Val, v: Val)
    requires FieldOk(f) && ValOk(f, v0) && ValOk(f, v)
    ensures MergeVal(f, v0, v).Some? <==> ValFits(f, v0, v)
    decreases f, 0
  {
    if f.l.LSub? {
      UnionSlots(f.l.fields, v0.slots);
      MergeFromIff(f.l.fields, v0.slots, v0.slots, v.slots, 0);
    }
  }

  lemma {:induction false} MergeSlotIff(f: Field, s0: Slot, s: Slot)
    requires FieldOk(f) && FieldSlotOk(f, s0) && FieldSlotOk(f, s)
    ensures MergeSlot(f, s0, s).Some? <==> SlotFitsBehind(f, s0, s)
    decreases f, 1
  {
    match f.h
    case Repeated(n) => MergeZeroItems(f, s0.items, s.items);
    case Oneof => if s.which == f.tag { MergeZero(f, s.v); }
    case _ => MergeValIff(f, s0.v, s.v);
  }

  predicate UnionsInPlace(fs: seq<Field>, m: seq<Slot>) {
    |m| == |fs| && forall k :: 0 <= k < |fs| && fs[k].h.Oneof? && !Joined(fs, k) ==> m[k].SUnion?
  }

  lemma UnionSlots(fs: seq<Field>, m: seq<Slot>)
    requires MsgOk(fs, m)
    ensures UnionsInPlace(fs, m)
  {
    forall k | 0 <= k < |fs| && fs[k].h.Oneof? && !Joined(fs, k) ensures m[k].SUnion? { assert SlotOk(fs, k, m[k]); }
  }

  /** `acc` is `m0` with the fields before the `i`-th merged. */
  lemma {:induction false} MergeFromIff(fs: seq<Field>, m0: seq<Slot>, acc: seq<Slot>, m: seq<Slot>, i: nat)
    requires FieldsOk(fs) && MsgOk(fs, m0) && MsgOk(fs, m) && |acc| == |fs| && i <= |fs|
    requires forall k :: i <= k < |fs| && !fs[k].h.Oneof? ==> acc[k] == m0[k]
    requires UnionsInPlace(fs, acc)
    ensures MergeFrom(fs, acc, m, i).Some? <==> forall k :: i <= k < |fs| ==> SlotFitsBehind(fs[k], m0[k], m[k])
    decreases fs, 2, |fs| - i
  {
    if i < |fs| {
      var c := Cell(fs, i);
      CellRoot(fs, i);
      SlotFits(fs, m, i);
      SlotFits(fs, m0, i);
      if fs[i].h.Oneof? {
        assert SlotOk(fs, i, m[i]) && SlotOk(fs, c, m0[c]);
        if m[c].which == fs[i].tag { MergeZero(fs[i], m[c].v); }
      } else {
        MergeSlotIff(fs[i], m0[i], m[i]);
      }
      var merged := MergeSlot(fs[i], acc[c], m[c]);
      if merged.Some? { MergeFromIff(fs, m0, acc[c := merged.value], m, i + 1); }
    }
  }

  /** Decoding an encoding over a conforming struct fails for one reason only: an array that would overflow. */
  lemma DecodeSucceedsIffArraysFit(fs: seq<Field>, m: seq<Slot>, base: seq<Slot>)
    requires FieldsOk(fs) && MsgOk(fs, m) && SmallMsg(fs, m) && MsgOk(fs, base)
    ensures DecInto(fs, Encode(fs, m).bytes, base).Ok? <==> ArraysFit(fs, base, m)
  {
    DecodeIntoMerges(fs, m, base);
    UnionSlots(fs, base);
    MergeFromIff(fs, base, base, m, 0);
  }

  // ---------- strings ----------

  /**
   Any string in its buffer is encoded; it can be read back exactly when it is terminated inside the buffer, because
   the decoder needs room for the terminator as well.
   */
  lemma StringReadBackIffTerminated(f: Field, bs: seq<byte>, t: seq<byte>)
    requires FieldOk(f) && f.l.LString? && |bs| <= f.dataSize
    ensures EncScalar(f, VBytes(bs)).ok
    ensures DecScalar(f, EncScalar(f, VBytes(bs)).bytes + t).Ok? <==> StrLen(bs) < f.dataSize
    ensures StrLen(bs) < f.dataSize
            ==> DecScalar(f, EncScalar(f, VBytes(bs)).bytes + t) == Ok(VBytes(bs[..StrLen(bs)]), t)
  {
    var content := bs[..StrLen(bs)];
    PrefixedRoundTrip(content, t);
    assert (content + t)[..|content|] == content && (content + t)[|content|..] == t;
  }
}
