/**
 Decoding undoes encoding. The main lemma is stated for any struct decoded into and any bytes that follow: the
 decoder reads an encoding as the merge of the encoded struct, and carries on with what follows.
 */
module RoundTrip {
  import opened Wire
  import opened Message
  import opened Encoding
  import opened Decoding
  import opened Merging

  // ---------- lengths fit the 32-bit prefix the decoder reads ----------

  /** How many bytes follow the length prefix of a length-delimited value. */
  function PayloadLen(f: Field, v: Val): nat {
    if v.VBytes? then if f.l.LString? then StrLen(v.bs) else |v.bs|
    else if v.VMsg? && f.l.LSub? && |v.slots| == |f.l.fields| then |Encode(f.l.fields, v.slots).bytes|
    else 0
  }

  predicate SmallVal(f: Field, v: Val) {
    PayloadLen(f, v) < U32
  }

  /** Every length the encoder writes for this slot, at the top level, is below 2^32. */
  predicate SmallSlot(f: Field, s: Slot) {
    match s
    case SVal(v) => !(f.h.Singular? && IsDefault(f, s)) ==> SmallVal(f, v)
    case SOpt(has, v) => has ==> SmallVal(f, v)
    case SRep(items) =>
      if f.Packable() then |EncPacked(f, items).bytes| < U32 else forall k :: 0 <= k < |items| ==> SmallVal(f, items[k])
    case SUnion(which, v) => which == f.tag ==> SmallVal(f, v)
    case SPad => true
  }

  predicate SmallMsg(fs: seq<Field>, m: seq<Slot>)
    requires |m| == |fs|
  {
    forall i :: 0 <= i < |fs| ==> SmallSlot(fs[i], m[Cell(fs, i)])
  }

  // ---------- tags and scalars ----------

  lemma TagRoundTrip(wireType: nat, tag: nat, t: seq<byte>)
    requires wireType < 8 && 0 < tag < MAX_TAG
    ensures DecTag(EncTag(wireType, tag) + t) == TagOk(tag, wireType, t)
  {
    Varint32RoundTrip(8 * tag + wireType, t);
  }

  lemma PrefixedRoundTrip(bs: seq<byte>, t: seq<byte>)
    requires |bs| < U32
    ensures Varint32Dec(Prefixed(bs) + t) == Ok(|bs|, bs + t)
    ensures DecPrefixed(Prefixed(bs) + t) == Ok(bs, t)
  {
    assert Prefixed(bs) + t == VarintEnc(|bs|) + (bs + t);
    Varint32RoundTrip(|bs|, bs + t);
  }

  lemma SignedRoundTrip(i: int, size: nat)
    requires IntSize(size) && InSigned(i, size)
    ensures IsInt64(i) && 0 <= ToUnsigned(i, U64) < U64
    ensures VarintValue(ToUnsigned(i, U64), size) == i && StoreSigned(i, size) == i
  {
    if size == 8 { } else if size == 4 { } else if size == 2 { } else { }
  }

  lemma VarintFieldRoundTrip(f: Field, v: Val, t: seq<byte>)
    requires FieldOk(f) && ValOk(f, v) && (f.l.LVarint? || f.l.LSVarint? || f.l.LUVarint?)
    ensures EncScalar(f, v).ok && DecScalar(f, EncScalar(f, v).bytes + t) == Ok(v, t)
  {
    hide VarintEnc, VarintDec, ZigZag, UnZigZag;
    if f.l.LUVarint? {
      VarintRoundTrip(v.i, t);
    } else {
      SignedRoundTrip(v.i, f.dataSize);
      if f.l.LVarint? {
        VarintRoundTrip(ToUnsigned(v.i, U64), t);
      } else {
        VarintRoundTrip(ZigZag(v.i), t);
        ZigZagBijection(v.i, 0);
      }
    }
  }

  lemma BoolRoundTrip(f: Field, v: Val, t: seq<byte>)
    requires f.l.LBool? && ValOk(f, v)
    ensures EncScalar(f, v).ok && DecScalar(f, EncScalar(f, v).bytes + t) == Ok(v, t)
  {
    Varint32RoundTrip(if v.b then 1 else 0, t);
  }

  lemma FixedRoundTrip(f: Field, v: Val, t: seq<byte>)
    requires (f.l.LFixed32? || f.l.LFixed64?) && ValOk(f, v)
    ensures EncScalar(f, v).ok && DecScalar(f, EncScalar(f, v).bytes + t) == Ok(v, t)
  {
    var n := if f.l.LFixed32? then 4 else 8;
    var bs := LittleEndian(n, v.i);
    ShlWords(1);
    LittleEndianRoundTrip(n, v.i);
    assert (bs + t)[..n] == bs && (bs + t)[n..] == t;
  }

  lemma BytesRoundTrip(f: Field, v: Val, t: seq<byte>)
    requires (f.l.LBytes? || f.l.LString? || f.l.LFixedBytes?) && FieldOk(f) && ValOk(f, v) && SmallVal(f, v)
    ensures EncScalar(f, v).ok && DecScalar(f, EncScalar(f, v).bytes + t) == Ok(NormScalar(f, v), t)
  {
    var bs := if f.l.LString? then v.bs[..StrLen(v.bs)] else v.bs;
    PrefixedRoundTrip(bs, t);
    assert (bs + t)[..|bs|] == bs && (bs + t)[|bs|..] == t;
    if f.l.LFixedBytes? && bs == [] { assert Zero(f).bs == bs && bs + t == t; }
  }

  lemma ScalarRoundTrip(f: Field, v: Val, t: seq<byte>)
    requires !f.l.LSub? && FieldOk(f) && ValOk(f, v) && SmallVal(f, v)
    ensures EncScalar(f, v).ok && DecScalar(f, EncScalar(f, v).bytes + t) == Ok(NormScalar(f, v), t)
  {
    match f.l
    case LBool => BoolRoundTrip(f, v, t);
    case LVarint | LUVarint | LSVarint => VarintFieldRoundTrip(f, v, t);
    case LFixed32 | LFixed64 => FixedRoundTrip(f, v, t);
    case LBytes | LString | LFixedBytes => BytesRoundTrip(f, v, t);
  }

  // ---------- packed arrays ----------

  lemma PackableValue(f: Field, v: Val)
    requires f.Packable() && FieldOk(f) && ValOk(f, v)
    ensures SmallVal(f, v) && NormScalar(f, v) == v && |EncScalar(f, v).bytes| > 0
  {
    ScalarRoundTrip(f, v, []);
  }

  lemma {:induction false} PackedRoundTrip(f: Field, items: seq<Val>, acc: seq<Val>, n: nat)
    requires f.Packable() && FieldOk(f) && forall k :: 0 <= k < |items| ==> ValOk(f, items[k])
    ensures EncPacked(f, items).ok
    ensures DecPacked(f, EncPacked(f, items).bytes, acc, n)
            == if items != [] && |acc| + |items| > n then Fail else Ok(acc + items, [])
    decreases |items|
  {
    hide EncScalar, DecScalar, ValOk, SmallVal, FieldOk;
    if items != [] {
      var v, rest := items[0], items[1..];
      PackableValue(f, v);
      ScalarRoundTrip(f, v, EncPacked(f, rest).bytes);
      PackedRoundTrip(f, rest, acc + [v], n);
      assert acc + [v] + rest == acc + items;
    } else {
      assert acc + items == acc;
    }
  }

  lemma {:induction false} MergePacked(f: Field, acc: seq<Val>, items: seq<Val>)
    requires f.Packable() && FieldOk(f) && forall k :: 0 <= k < |items| ==> ValOk(f, items[k])
    ensures MergeItems(f, acc, items) == Some(acc + items)
    decreases |items|
  {
    if items != [] {
      PackableValue(f, items[0]);
      MergePacked(f, acc + [items[0]], items[1..]);
      assert acc + [items[0]] + items[1..] == acc + items;
    } else {
      assert acc + items == acc;
    }
  }

  // ---------- one record of the field loop ----------

  /** The loop reads a record of the `i`-th field into that field's slot, wherever the iterator stands. */
  lemma RecordStep(fs: seq<Field>, i: nat, wireType: nat, p: seq<byte>, acc: seq<Slot>, seen: set<nat>)
    requires |acc| == |fs| && i < |fs| && FieldsOk(fs) && wireType < 8
    ensures DecLoop(fs, EncTag(wireType, fs[i].tag) + p, acc, seen)
            == match DecField(fs[i], wireType, p, acc[Cell(fs, i)])
               case Fail => LoopFail
               case Ok(slot, rest) => DecLoop(fs, rest, acc[Cell(fs, i) := slot], seen + Mark(fs, i))
  {
    assert FieldOk(fs[i]);
    TagRoundTrip(wireType, fs[i].tag, p);
    FindTagAt(fs, i);
  }

  // ---------- the view of one field on its slot ----------

  /** A slot holds what its field `f` needs; a oneof does so when `f` is the selected member. */
  predicate FieldSlotOk(f: Field, s: Slot) {
    match f.h
    case Optional => s.SOpt? && ValOk(f, s.v)
    case Repeated(n) => s.SRep? && |s.items| <= n && forall k :: 0 <= k < |s.items| ==> ValOk(f, s.items[k])
    case Oneof => s.SUnion? && (s.which == f.tag ==> ValOk(f, s.v))
    case _ => s.SVal? && ValOk(f, s.v)
  }

  lemma {:induction false} CellRoot(fs: seq<Field>, i: nat)
    requires i < |fs|
    ensures var c := Cell(fs, i);
            !Joined(fs, c) && Cell(fs, c) == c && (fs[i].h.Oneof? <==> fs[c].h.Oneof?) && (!fs[i].h.Oneof? ==> c == i)
    decreases i
  {
    if Joined(fs, i) { CellRoot(fs, i - 1); }
  }

  lemma SlotFits(fs: seq<Field>, m: seq<Slot>, i: nat)
    requires i < |fs| && FieldsOk(fs) && MsgOk(fs, m)
    ensures FieldOk(fs[i]) && FieldSlotOk(fs[i], m[Cell(fs, i)])
  {
    var c := Cell(fs, i);
    CellRoot(fs, i);
    assert SlotOk(fs, c, m[c]);
  }

  // ---------- values, fields and structs ----------

  ghost predicate ReadsAs(p: Parse<Val>, merged: Option<Val>, t: seq<byte>) {
    match merged
    case None => p.Fail?
    case Some(v) => p == Ok(v, t)
  }

  /** What is left to do after the merge of one or more fields. */
  ghost function Continue(fs: seq<Field>, merged: Option<seq<Slot>>, t: seq<byte>, seen: set<nat>): LoopOut
    requires merged.Some? ==> |merged.value| == |fs|
  {
    match merged
    case None => LoopFail
    case Some(m) => DecLoop(fs, t, m, seen)
  }

  function RequiredFrom(fs: seq<Field>, i: nat): set<nat> {
    set j | i <= j < |fs| && fs[j].h.Required?
  }

  /** A value read over any base is the merge of the two; a submessage sees only the bytes its length covers. */
  lemma {:induction false} ValRoundTrip(f: Field, v: Val, base: Val, t: seq<byte>)
    requires FieldOk(f) && ValOk(f, v) && SmallVal(f, v)
    ensures EncVal(f, v).ok
    ensures ReadsAs(DecVal(f, EncVal(f, v).bytes + t, base), MergeVal(f, base, v), t)
    decreases f, 0
  {
    if !f.l.LSub? {
      ScalarRoundTrip(f, v, t);
    } else {
      var fields := f.l.fields;
      var inner := EncFrom(fields, v.slots, 0).bytes;
      SmallInside(fields, v.slots);
      PrefixedRoundTrip(inner, t);
      assert inner + [] == inner;
      if base.VMsg? && |base.slots| == |fields| {
        LoopRoundTrip(fields, v.slots, 0, base.slots, [], {});
        assert AllRequired(fields, {} + RequiredFrom(fields, 0));
      } else {
        LoopRoundTrip(fields, v.slots, 0, v.slots, [], {});
      }
    }
  }

  /** A tagged value is one record. */
  lemma {:induction false} TaggedRoundTrip(fs: seq<Field>, i: nat, v: Val, acc: seq<Slot>, t: seq<byte>, seen: set<nat>)
    requires |acc| == |fs| && i < |fs| && FieldsOk(fs) && ValOk(fs[i], v) && SmallVal(fs[i], v)
    ensures EncVal(fs[i], v).ok
    ensures DecLoop(fs, TagFor(fs[i]) + EncVal(fs[i], v).bytes + t, acc, seen)
            == match DecField(fs[i], WireType(fs[i].l), EncVal(fs[i], v).bytes + t, acc[Cell(fs, i)])
               case Fail => LoopFail
               case Ok(slot, rest) => DecLoop(fs, rest, acc[Cell(fs, i) := slot], seen + Mark(fs, i))
    decreases fs, 0
  {
    hide DecLoop, DecField, EncTag;
    var e := EncVal(fs[i], v).bytes;
    assert FieldOk(fs[i]);
    ValRoundTrip(fs[i], v, v, t);
    assert TagFor(fs[i]) + e + t == TagFor(fs[i]) + (e + t);
    RecordStep(fs, i, WireType(fs[i].l), e + t, acc, seen);
  }

  /** A slot the encoder passes over. */
  predicate Silent(f: Field, s: Slot) {
    match s
    case SVal(_) => f.h.Singular? && IsDefault(f, s)
    case SOpt(has, _) => !has
    case SRep(items) => items == []
    case SUnion(which, _) => which != f.tag
    case SPad => false
  }

  /** What is left to do once one field has been merged. */
  ghost function FieldDone(fs: seq<Field>, i: nat, merged: Option<Slot>, acc: seq<Slot>, t: seq<byte>, seen: set<nat>)
    : LoopOut
    requires |acc| == |fs| && i < |fs|
  {
    match merged
    case None => LoopFail
    case Some(s) => DecLoop(fs, t, acc[Cell(fs, i) := s], seen + Mark(fs, i))
  }

  /** Required, singular, optional and oneof fields that are emitted: one record. */
  lemma {:induction false} SingleRoundTrip(fs: seq<Field>, i: nat, s: Slot, acc: seq<Slot>, t: seq<byte>,
                                           seen: set<nat>)
    requires |acc| == |fs| && i < |fs| && FieldsOk(fs) && FieldSlotOk(fs[i], s) && SmallSlot(fs[i], s)
    requires !fs[i].h.Repeated?
    requires s.SOpt? ==> s.has
    requires s.SUnion? ==> s.which == fs[i].tag
    requires !(fs[i].h.Singular? && IsDefault(fs[i], s))
    ensures EncVal(fs[i], s.v).ok
    ensures
      DecLoop(fs, TagFor(fs[i]) + EncVal(fs[i], s.v).bytes + t, acc, seen)
      == FieldDone(fs, i, MergeSlot(fs[i], acc[Cell(fs, i)], s), acc, t, seen)
    decreases fs, 1
  {
    var f := fs[i];
    var s0 := acc[Cell(fs, i)];
    assert FieldOk(f);
    TaggedRoundTrip(fs, i, s.v, acc, t, seen);
    if f.h.Oneof? {
      ValRoundTrip(f, s.v, Zero(f), t);
    } else if s0.SVal? || s0.SOpt? {
      ValRoundTrip(f, s.v, s0.v, t);
    }
  }

  lemma PackedArrayRoundTrip(fs: seq<Field>, i: nat, items: seq<Val>, acc: seq<Slot>, t: seq<byte>, seen: set<nat>)
    requires |acc| == |fs| && i < |fs| && FieldsOk(fs)
    requires FieldSlotOk(fs[i], SRep(items)) && SmallSlot(fs[i], SRep(items))
    requires fs[i].h.Repeated? && fs[i].Packable() && items != []
    ensures EncField(fs[i], SRep(items)).ok
    ensures DecLoop(fs, EncField(fs[i], SRep(items)).bytes + t, acc, seen)
            == FieldDone(fs, i, MergeSlot(fs[i], acc[Cell(fs, i)], SRep(items)), acc, t, seen)
  {
    var f, n := fs[i], fs[i].h.arraySize;
    var s0 := acc[Cell(fs, i)];
    assert FieldOk(f);
    var body := EncPacked(f, items).bytes;
    PackedRoundTrip(f, items, if s0.SRep? then s0.items else [], n);
    MergePacked(f, if s0.SRep? then s0.items else [], items);
    PrefixedRoundTrip(body, t);
    assert EncTag(WT_STRING, f.tag) + Prefixed(body) + t == EncTag(WT_STRING, f.tag) + (Prefixed(body) + t);
    RecordStep(fs, i, WT_STRING, Prefixed(body) + t, acc, seen);
  }

  /** One tagged array entry, appended to what the slot holds. */
  lemma {:induction false} EntryRoundTrip(fs: seq<Field>, i: nat, v: Val, a: seq<Val>, acc: seq<Slot>,
                                          t: seq<byte>, seen: set<nat>)
    requires |acc| == |fs| && i < |fs| && FieldsOk(fs) && fs[i].h.Repeated? && !fs[i].Packable()
    requires ValOk(fs[i], v) && SmallVal(fs[i], v) && acc[Cell(fs, i)] == SRep(a)
    ensures EncVal(fs[i], v).ok
    ensures DecLoop(fs, TagFor(fs[i]) + EncVal(fs[i], v).bytes + t, acc, seen)
            == if |a| >= fs[i].h.arraySize then LoopFail
               else match MergeVal(fs[i], Zero(fs[i]), v)
                    case None => LoopFail
                    case Some(v') => DecLoop(fs, t, acc[Cell(fs, i) := SRep(a + [v'])], seen)
    decreases fs, 1, 0
  {
    assert FieldOk(fs[i]);
    TaggedRoundTrip(fs, i, v, acc, t, seen);
    ValRoundTrip(fs[i], v, Zero(fs[i]), t);
    assert seen + Mark(fs, i) == seen;
  }

  lemma UnpackedFirst(f: Field, items: seq<Val>, t: seq<byte>)
    requires items != [] && EncVal(f, items[0]).ok
    ensures EncUnpacked(f, items).bytes + t
         == TagFor(f) + EncVal(f, items[0]).bytes + (EncUnpacked(f, items[1..]).bytes + t)
    ensures EncUnpacked(f, items).ok == EncUnpacked(f, items[1..]).ok
  {
  }

  lemma {:induction false} UnpackedRoundTrip(fs: seq<Field>, i: nat, items: seq<Val>, a: seq<Val>, acc: seq<Slot>,
                                             t: seq<byte>, seen: set<nat>)
    requires |acc| == |fs| && i < |fs| && FieldsOk(fs) && fs[i].h.Repeated? && !fs[i].Packable()
    requires forall k :: 0 <= k < |items| ==> ValOk(fs[i], items[k]) && SmallVal(fs[i], items[k])
    requires acc[Cell(fs, i)] == SRep(a)
    ensures EncUnpacked(fs[i], items).ok
    ensures DecLoop(fs, EncUnpacked(fs[i], items).bytes + t, acc, seen)
            == if items != [] && |a| + |items| > fs[i].h.arraySize then LoopFail
               else FieldDone(fs, i, WrapRep(MergeItems(fs[i], a, items)), acc, t, seen)
    decreases fs, 1, |items|
  {
    var f, c := fs[i], Cell(fs, i);
    assert seen + Mark(fs, i) == seen;
    if items == [] {
      assert acc[c := acc[c]] == acc && [] + t == t;
    } else {
      var v, rest := items[0], EncUnpacked(f, items[1..]).bytes;
      EntryRoundTrip(fs, i, v, a, acc, rest + t, seen);
      UnpackedFirst(f, items, t);
      var merged := MergeVal(f, Zero(f), v);
      if merged.None? {
        UnpackedRoundTrip(fs, i, items[1..], a, acc, t, seen);
      } else {
        UnpackedRoundTrip(fs, i, items[1..], a + [merged.value], acc[c := SRep(a + [merged.value])], t, seen);
        var a' := a + [merged.value];
        UpdateTwice(fs, i, WrapRep(MergeItems(f, a', items[1..])), acc, SRep(a'), t, seen);
      }
    }
  }

  lemma UpdateTwice(fs: seq<Field>, i: nat, merged: Option<Slot>, acc: seq<Slot>, s: Slot, t: seq<byte>, seen: set<nat>)
    requires |acc| == |fs| && i < |fs|
    ensures FieldDone(fs, i, merged, acc[Cell(fs, i) := s], t, seen) == FieldDone(fs, i, merged, acc, t, seen)
  {
    var c := Cell(fs, i);
    if merged.Some? { assert acc[c := s][c := merged.value] == acc[c := merged.value]; }
  }

  lemma {:induction false} FieldRoundTrip(fs: seq<Field>, i: nat, s: Slot, acc: seq<Slot>, t: seq<byte>, seen: set<nat>)
    requires |acc| == |fs| && i < |fs| && FieldsOk(fs) && FieldSlotOk(fs[i], s) && SmallSlot(fs[i], s)
    ensures EncField(fs[i], s).ok
    ensures DecLoop(fs, EncField(fs[i], s).bytes + t, acc, seen)
            == FieldDone(fs, i, MergeSlot(fs[i], acc[Cell(fs, i)], s), acc, t, seen)
    decreases fs, 2
  {
    var f, c := fs[i], Cell(fs, i);
    if Silent(f, s) {
      assert [] + t == t && acc[c := acc[c]] == acc && seen + Mark(fs, i) == seen;
    } else if !f.h.Repeated? {
      SingleRoundTrip(fs, i, s, acc, t, seen);
    } else if f.Packable() {
      PackedArrayRoundTrip(fs, i, s.items, acc, t, seen);
    } else {
      ArrayRoundTrip(fs, i, s.items, acc, t, seen);
    }
  }

  lemma {:induction false} ArrayRoundTrip(fs: seq<Field>, i: nat, items: seq<Val>, acc: seq<Slot>, t: seq<byte>,
                                          seen: set<nat>)
    requires |acc| == |fs| && i < |fs| && FieldsOk(fs)
    requires FieldSlotOk(fs[i], SRep(items)) && SmallSlot(fs[i], SRep(items))
    requires fs[i].h.Repeated? && !fs[i].Packable() && items != []
    ensures EncField(fs[i], SRep(items)).ok
    ensures DecLoop(fs, EncField(fs[i], SRep(items)).bytes + t, acc, seen)
            == FieldDone(fs, i, MergeSlot(fs[i], acc[Cell(fs, i)], SRep(items)), acc, t, seen)
    decreases fs, 1, |items| + 1
  {
    var s0 := acc[Cell(fs, i)];
    if s0.SRep? {
      UnpackedRoundTrip(fs, i, items, s0.items, acc, t, seen);
    } else {
      UnpackedRoundTrip(fs, i, items, [], acc[Cell(fs, i) := SRep([])], t, seen);
      EncValFirst(fs[i], items);
      EntryElsewhere(fs, i, items, acc, t, seen);
    }
  }

  lemma EncValFirst(f: Field, items: seq<Val>)
    requires items != [] && EncUnpacked(f, items).ok
    ensures EncVal(f, items[0]).ok
  {
  }

  lemma EntryElsewhere(fs: seq<Field>, i: nat, items: seq<Val>, acc: seq<Slot>, t: seq<byte>, seen: set<nat>)
    requires |acc| == |fs| && i < |fs| && FieldsOk(fs) && fs[i].h.Repeated? && !acc[Cell(fs, i)].SRep? && items != []
    requires EncVal(fs[i], items[0]).ok
    ensures DecLoop(fs, EncUnpacked(fs[i], items).bytes + t, acc, seen).LoopFail?
  {
    var e, rest := EncVal(fs[i], items[0]).bytes, EncUnpacked(fs[i], items[1..]).bytes;
    assert EncUnpacked(fs[i], items).bytes + t == TagFor(fs[i]) + (e + (rest + t));
    RecordStep(fs, i, WireType(fs[i].l), e + (rest + t), acc, seen);
  }

  lemma {:induction false} LoopStep(fs: seq<Field>, m: seq<Slot>, i: nat, acc: seq<Slot>, t: seq<byte>, seen: set<nat>)
    requires |acc| == |m| == |fs| && i < |fs| && FieldsOk(fs) && MsgOk(fs, m) && SmallMsg(fs, m)
    ensures EncField(fs[i], m[Cell(fs, i)]).ok
    ensures DecLoop(fs, EncFrom(fs, m, i).bytes + t, acc, seen)
            == FieldDone(fs, i, MergeSlot(fs[i], acc[Cell(fs, i)], m[Cell(fs, i)]), acc,
                         EncFrom(fs, m, i + 1).bytes + t, seen)
    decreases fs, 3
  {
    var s := m[Cell(fs, i)];
    var rest := EncFrom(fs, m, i + 1).bytes;
    SlotFits(fs, m, i);
    FieldRoundTrip(fs, i, s, acc, rest + t, seen);
    EncFromSplit(fs, m, i, t);
  }

  lemma EncFromSplit(fs: seq<Field>, m: seq<Slot>, i: nat, t: seq<byte>)
    requires |m| == |fs| && i < |fs| && EncField(fs[i], m[Cell(fs, i)]).ok
    ensures EncFrom(fs, m, i).bytes + t == EncField(fs[i], m[Cell(fs, i)]).bytes + (EncFrom(fs, m, i + 1).bytes + t)
  {
    Associate(EncField(fs[i], m[Cell(fs, i)]).bytes, EncFrom(fs, m, i + 1).bytes, t);
  }

  lemma Associate(a: seq<byte>, b: seq<byte>, c: seq<byte>)
    ensures a + b + c == a + (b + c)
  {
  }

  /** The field loop reads an encoding as a merge, having met every required field, and goes on with what follows. */
  lemma {:induction false} LoopRoundTrip(fs: seq<Field>, m: seq<Slot>, i: nat, acc: seq<Slot>, t: seq<byte>,
                                         seen: set<nat>)
    requires |acc| == |m| == |fs| && i <= |fs| && FieldsOk(fs) && MsgOk(fs, m) && SmallMsg(fs, m)
    ensures EncFrom(fs, m, i).ok
    ensures DecLoop(fs, EncFrom(fs, m, i).bytes + t, acc, seen)
            == Continue(fs, MergeFrom(fs, acc, m, i), t, seen + RequiredFrom(fs, i))
    decreases fs, 4, |fs| - i
  {
    SeenStep(fs, i, seen);
    if i == |fs| {
      assert [] + t == t;
    } else {
      var c := Cell(fs, i);
      LoopStep(fs, m, i, acc, t, seen);
      var merged := MergeSlot(fs[i], acc[c], m[c]);
      var acc' := if merged.None? then acc else acc[c := merged.value];
      LoopRoundTrip(fs, m, i + 1, acc', t, seen + Mark(fs, i));
    }
  }

  lemma SeenStep(fs: seq<Field>, i: nat, seen: set<nat>)
    requires i <= |fs|
    ensures i == |fs| ==> seen + RequiredFrom(fs, i) == seen
    ensures i < |fs| ==> seen + Mark(fs, i) + RequiredFrom(fs, i + 1) == seen + RequiredFrom(fs, i)
  {
  }

  // ---------- conforming structs encode; short encodings have short parts ----------

  lemma {:induction false} EncValOk(f: Field, v: Val)
    requires FieldOk(f) && ValOk(f, v)
    ensures EncVal(f, v).ok && |EncVal(f, v).bytes| >= PayloadLen(f, v)
    decreases f, 0
  {
    match f.l
    case LSub(fields) => EncFromOk(fields, v.slots, 0);
    case LVarint => SignedRoundTrip(v.i, f.dataSize);
    case LSVarint => SignedRoundTrip(v.i, f.dataSize);
    case _ =>
  }

  lemma {:induction false} EncUnpackedOk(f: Field, items: seq<Val>)
    requires FieldOk(f) && forall k :: 0 <= k < |items| ==> ValOk(f, items[k])
    ensures EncUnpacked(f, items).ok
    ensures forall k :: 0 <= k < |items| ==> PayloadLen(f, items[k]) <= |EncUnpacked(f, items).bytes|
    decreases f, 1, |items|
  {
    if items != [] {
      EncValOk(f, items[0]);
      EncUnpackedOk(f, items[1..]);
      forall k | 0 <= k < |items| ensures PayloadLen(f, items[k]) <= |EncUnpacked(f, items).bytes| {
        if k > 0 { assert items[k] == items[1..][k - 1]; }
      }
    }
  }

  lemma {:induction false} EncFieldOk(f: Field, s: Slot)
    requires FieldOk(f) && FieldSlotOk(f, s)
    ensures EncField(f, s).ok
    ensures |EncField(f, s).bytes| < U32 ==> SmallSlot(f, s)
    decreases f, 2
  {
    if f.h.Repeated? {
      if f.Packable() {
        PackedRoundTrip(f, s.items, [], 0);
      } else {
        EncUnpackedOk(f, s.items);
      }
    } else if !f.h.Oneof? || s.which == f.tag {
      EncValOk(f, s.v);
    }
  }

  lemma {:induction false} EncFromOk(fs: seq<Field>, m: seq<Slot>, i: nat)
    requires |m| == |fs| && i <= |fs| && FieldsOk(fs) && MsgOk(fs, m)
    ensures EncFrom(fs, m, i).ok
    ensures forall j :: i <= j < |fs| ==> |EncField(fs[j], m[Cell(fs, j)]).bytes| <= |EncFrom(fs, m, i).bytes|
    decreases fs, 3, |fs| - i
  {
    if i < |fs| {
      SlotFits(fs, m, i);
      EncFieldOk(fs[i], m[Cell(fs, i)]);
      EncFromOk(fs, m, i + 1);
    }
  }

  /** An encoding shorter than 2^32 bytes has no part that is longer. */
  lemma SmallInside(fs: seq<Field>, m: seq<Slot>)
    requires |m| == |fs| && FieldsOk(fs) && MsgOk(fs, m) && |Encode(fs, m).bytes| < U32
    ensures SmallMsg(fs, m)
  {
    EncFromOk(fs, m, 0);
    forall i | 0 <= i < |fs| ensures SmallSlot(fs[i], m[Cell(fs, i)]) {
      SlotFits(fs, m, i);
      EncFieldOk(fs[i], m[Cell(fs, i)]);
    }
  }
}
