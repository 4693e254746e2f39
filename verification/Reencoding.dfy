/**
 Encoding is stable: a struct that came out of the decoder, whatever the input, is encoded to the same bytes before
 and after its round trip, so that one more round trip changes nothing any more.
 */
module Reencoding {
  import opened Wire
  import opened Message
  import opened Encoding
  import opened Decoding
  import opened Merging
  import opened RoundTrip
  import opened Theorems
  import opened Robustness

  // ---------- oneofs with a known tag ----------

  predicate TagsKnownVal(f: Field, v: Val)
    decreases f, 0
  {
    f.l.LSub? && v.VMsg? && |v.slots| == |f.l.fields| ==> TagsKnown(f.l.fields, v.slots)
  }

  predicate TagsKnownSlot(fs: seq<Field>, k: nat, s: Slot)
    requires k < |fs|
    decreases fs, 0
  {
    match s
    case SUnion(which, v) =>
      var j := FindTag(fs, which);
      which == 0 || (j < |fs| && Cell(fs, j) == k && fs[j].h.Oneof? && TagsKnownVal(fs[j], v))
    case SVal(v) => TagsKnownVal(fs[k], v)
    case SOpt(_, v) => TagsKnownVal(fs[k], v)
    case SRep(items) => forall n :: 0 <= n < |items| ==> TagsKnownVal(fs[k], items[n])
    case SPad => true
  }

  /** Every oneof of the struct, at every depth, is unset or selects one of its members. */
  predicate TagsKnown(fs: seq<Field>, m: seq<Slot>)
    decreases fs, 1
  {
    |m| == |fs| && forall k :: 0 <= k < |fs| ==> TagsKnownSlot(fs, k, m[k])
  }

  // ---------- the decoder sets no other tags ----------

  lemma {:induction false} ZeroKnown(f: Field)
    ensures TagsKnownVal(f, Zero(f)) && TagsKnownVal(f, DefaultVal(f))
    decreases f, 0
  {
    if f.l.LSub? { DefaultsKnown(f.l.fields); }
  }

  lemma {:induction false} DefaultsKnown(fs: seq<Field>)
    ensures TagsKnown(fs, Defaults(fs))
    decreases fs, 1
  {
    forall k | 0 <= k < |fs| ensures TagsKnownSlot(fs, k, DefaultSlot(fs, k)) { ZeroKnown(fs[k]); }
  }

  lemma {:induction false} DecValKnown(f: Field, s: seq<byte>, base: Val)
    requires FieldOk(f) && TagsKnownVal(f, base) && DecVal(f, s, base).Ok?
    ensures TagsKnownVal(f, DecVal(f, s, base).value)
    decreases f, 0
  {
    if f.l.LSub? { DecLoopKnown(f.l.fields, DecPrefixed(s).value, base.slots, {}); }
  }

  /** What a slot holds of the field `f`, as far as it can be decoded into. */
  predicate HoldsKnown(f: Field, s: Slot) {
    match s
    case SVal(v) => TagsKnownVal(f, v)
    case SOpt(_, v) => TagsKnownVal(f, v)
    case SRep(items) => forall n :: 0 <= n < |items| ==> TagsKnownVal(f, items[n])
    case SUnion(which, v) => which == f.tag ==> TagsKnownVal(f, v)
    case SPad => true
  }

  lemma {:induction false} DecFieldKnown(f: Field, wireType: nat, s: seq<byte>, slot: Slot)
    requires FieldOk(f) && DecField(f, wireType, s, slot).Ok? && (f.h.Oneof? || HoldsKnown(f, slot))
    ensures HoldsKnown(f, DecField(f, wireType, s, slot).value)
    ensures f.h.Oneof? <==> DecField(f, wireType, s, slot).value.SUnion?
    ensures f.h.Oneof? ==> DecField(f, wireType, s, slot).value.which == f.tag
    decreases f, 1
  {
    match f.h
    case Repeated(n) =>
      if !(wireType == WT_STRING && f.Packable()) {
        ZeroKnown(f);
        DecValKnown(f, s, Zero(f));
      }
    case Oneof => ZeroKnown(f); DecValKnown(f, s, Zero(f));
    case _ => DecValKnown(f, s, slot.v);
  }

  /** Storing a decoded slot at the cell of field `i` keeps every tag known. */
  lemma StoreKnown(fs: seq<Field>, i: nat, m: seq<Slot>, slot: Slot)
    requires i < |fs| && DistinctTags(fs) && TagsKnown(fs, m) && HoldsKnown(fs[i], slot)
    requires (fs[i].h.Oneof? <==> slot.SUnion?) && (fs[i].h.Oneof? ==> slot.which == fs[i].tag)
    ensures TagsKnown(fs, m[Cell(fs, i) := slot])
  {
    var c := Cell(fs, i);
    CellRoot(fs, i);
    FindTagAt(fs, i);
    var m' := m[c := slot];
    forall k | 0 <= k < |fs| ensures TagsKnownSlot(fs, k, m'[k]) { assert TagsKnownSlot(fs, k, m[k]); }
  }

  lemma SlotKnown(fs: seq<Field>, m: seq<Slot>, i: nat)
    requires i < |fs| && FieldsOk(fs) && TagsKnown(fs, m)
    ensures FieldOk(fs[i]) && (fs[i].h.Oneof? || HoldsKnown(fs[i], m[Cell(fs, i)]))
  {
    var c := Cell(fs, i);
    CellRoot(fs, i);
    assert TagsKnownSlot(fs, c, m[c]) && FieldOk(fs[i]);
    if m[c].SUnion? && FindTag(fs, m[c].which) < |fs| { CellRoot(fs, FindTag(fs, m[c].which)); }
  }

  lemma {:induction false} DecLoopKnown(fs: seq<Field>, s: seq<byte>, m: seq<Slot>, seen: set<nat>)
    requires FieldsOk(fs) && TagsKnown(fs, m) && DecLoop(fs, s, m, seen).LoopDone?
    ensures TagsKnown(fs, DecLoop(fs, s, m, seen).m)
    decreases fs, 2, |s|
  {
    if s != [] {
      match DecTag(s)
      case TagFail =>
      case TagEnd(_) =>
      case TagOk(tag, wireType, p) =>
        var i := FindTag(fs, tag);
        if fs == [] && tag == 0 {
          DecLoopKnown(fs, Varint32Dec(p).rest, m, seen);
        } else if i == |fs| {
          DecLoopKnown(fs, SkipField(p, wireType).rest, m, seen);
        } else {
          var c := Cell(fs, i);
          SlotKnown(fs, m, i);
          var r := DecField(fs[i], wireType, p, m[c]);
          DecFieldKnown(fs[i], wireType, p, m[c]);
          StoreKnown(fs, i, m, r.value);
          DecLoopKnown(fs, r.rest, m[c := r.value], seen + Mark(fs, i));
        }
    }
  }

  // ---------- when normalising changes the encoding ----------

  /** The tag selects a member of the oneof in slot `c`. */
  predicate Selects(fs: seq<Field>, which: nat, c: nat) {
    var j := FindTag(fs, which);
    j < |fs| && Cell(fs, j) == c && fs[j].h.Oneof?
  }

  predicate BlankVal(f: Field, v: Val)
    requires f.l.LSub?
    decreases f, 0
  {
    v.VMsg? && BlankMsg(f.l.fields, v.slots)
  }

  predicate BlankSlot(fs: seq<Field>, i: nat, s: Slot)
    requires i < |fs|
    decreases fs, 0
  {
    match fs[i].h
    case Oneof => s.SUnion? && !Selects(fs, s.which, Cell(fs, i))
    case Singular =>
      if fs[i].l.LSub? then s.SVal? && BlankVal(fs[i], s.v) else IsDefault(fs[i], s)
    case _ => IsDefault(fs[i], s)
  }

  /** Nothing is set but, perhaps, oneofs to a tag that is no member's. */
  predicate BlankMsg(fs: seq<Field>, m: seq<Slot>)
    decreases fs, 1
  {
    |m| == |fs| && forall i :: 0 <= i < |fs| ==> BlankSlot(fs, i, m[Cell(fs, i)])
  }

  predicate SettledVal(f: Field, v: Val)
    decreases f, 0
  {
    f.l.LSub? && v.VMsg? ==> Settled(f.l.fields, v.slots)
  }

  predicate SettledSlot(f: Field, s: Slot)
    decreases f, 1
  {
    match f.h
    case Required => s.SVal? ==> SettledVal(f, s.v)
    case Singular =>
      s.SVal? && f.l.LSub? && s.v.VMsg? ==>
        IsDefaultMsg(f.l.fields, s.v.slots) || (!BlankVal(f, s.v) && SettledVal(f, s.v))
    case Optional => s.SOpt? && s.has ==> SettledVal(f, s.v)
    case Repeated(_) => s.SRep? ==> forall k :: 0 <= k < |s.items| ==> SettledVal(f, s.items[k])
    case Oneof => s.SUnion? && s.which == f.tag ==> SettledVal(f, s.v)
  }

  /** No singular submessage that is encoded is blank except for oneofs with a tag that is no member's. */
  predicate Settled(fs: seq<Field>, m: seq<Slot>)
    decreases fs, 2
  {
    |m| == |fs| && forall i :: 0 <= i < |fs| ==> SettledSlot(fs[i], m[Cell(fs, i)])
  }

  lemma TrimmedTwice(bs: seq<byte>)
    ensures var t := bs[..StrLen(bs)]; t[..StrLen(t)] == t && (t == [] <==> bs == [] || bs[0] == 0)
    ensures bs[..StrLen(bs)] != [] ==> bs[..StrLen(bs)][0] != 0
  {
    var t := bs[..StrLen(bs)];
    assert forall k | 0 <= k < |t| :: t[k] != 0;
    assert StrLen(t) == |t|;
  }

  lemma {:induction false} BlankValIff(f: Field, v: Val)
    requires FieldOk(f) && f.l.LSub? && ValOk(f, v) && |v.slots| == |f.l.fields|
    ensures IsDefaultMsg(f.l.fields, Normalise(f.l.fields, v.slots)) <==> BlankVal(f, v)
    decreases f, 0
  {
    BlankIff(f.l.fields, v.slots);
  }

  /** The proto3 test for zero on the normal form. */
  lemma {:induction false} DefaultNormIff(fs: seq<Field>, i: nat, s: Slot)
    requires i < |fs| && FieldOk(fs[i]) && fs[i].h.Singular? && FieldSlotOk(fs[i], s)
    ensures IsDefault(fs[i], SVal(NormVal(fs[i], s.v))) <==> BlankSlot(fs, i, s)
    decreases fs, 0
  {
    match fs[i].l
    case LSub(fields) =>
      assert MsgOk(fields, s.v.slots);
      BlankValIff(fs[i], s.v);
    case LString => TrimmedTwice(s.v.bs);
    case _ =>
  }

  lemma {:induction false} BlankSlotIff(fs: seq<Field>, m: seq<Slot>, i: nat)
    requires i < |fs| && FieldsOk(fs) && MsgOk(fs, m)
    ensures IsDefault(fs[i], Normalise(fs, m)[Cell(fs, i)]) <==> BlankSlot(fs, i, m[Cell(fs, i)])
    decreases fs, 1
  {
    var f, c := fs[i], Cell(fs, i);
    SlotFits(fs, m, i);
    CellRoot(fs, i);
    assert Normalise(fs, m)[c] == NormSlot(fs, m, |fs|, c);
    TagNonzero(fs);
    if f.h.Singular? { DefaultNormIff(fs, i, m[c]); }
  }

  lemma {:induction false} BlankIff(fs: seq<Field>, m: seq<Slot>)
    requires FieldsOk(fs) && MsgOk(fs, m)
    ensures IsDefaultMsg(fs, Normalise(fs, m)) <==> BlankMsg(fs, m)
    decreases fs, 2
  {
    forall i | 0 <= i < |fs|
      ensures IsDefault(fs[i], Normalise(fs, m)[Cell(fs, i)]) <==> BlankSlot(fs, i, m[Cell(fs, i)])
    {
      BlankSlotIff(fs, m, i);
    }
  }

  /** The output `a` is the output `b`, or, when not settled, a shorter one. */
  predicate Shrinks(a: Out, b: Out, settled: bool) {
    a.ok && b.ok && if settled then a == b else |a.bytes| < |b.bytes|
  }

  lemma ThenShrinks(a1: Out, b1: Out, s1: bool, a2: Out, b2: Out, s2: bool)
    requires Shrinks(a1, b1, s1) && Shrinks(a2, b2, s2)
    ensures Shrinks(Then(a1, a2), Then(b1, b2), s1 && s2)
  {
  }

  lemma {:induction false} LongerVarint(a: nat, b: nat)
    requires a <= b
    ensures |VarintEnc(a)| <= |VarintEnc(b)|
    decreases b
  {
    if b >= 128 {
      assert a / 128 <= b / 128;
      LongerVarint(a / 128, b / 128);
    }
  }

  lemma PrefixedShrinks(a: Out, b: Out, settled: bool)
    requires Shrinks(a, b, settled)
    ensures Shrinks(Emit(Prefixed(a.bytes)), Emit(Prefixed(b.bytes)), settled)
  {
    LongerVarint(|a.bytes|, |b.bytes|);
  }

  lemma {:induction false} ValShrinks(f: Field, v: Val)
    requires FieldOk(f) && ValOk(f, v)
    ensures Shrinks(EncVal(f, NormVal(f, v)), EncVal(f, v), SettledVal(f, v))
    decreases f, 0
  {
    hide Prefixed, Shrinks;
    if f.l.LSub? {
      var fields := f.l.fields;
      FromShrinks(fields, v.slots, 0);
      assert SettledFrom(fields, v.slots, 0) <==> Settled(fields, v.slots);
      var a, b := EncFrom(fields, Normalise(fields, v.slots), 0), EncFrom(fields, v.slots, 0);
      PrefixedShrinks(a, b, Settled(fields, v.slots));
      SubEncoding(f, v.slots);
      SubEncoding(f, Normalise(fields, v.slots));
      ShrinksOk(a, b, Settled(fields, v.slots));
    } else {
      ScalarSettled(f, v);
    }
  }

  lemma ShrinksOk(a: Out, b: Out, settled: bool)
    requires Shrinks(a, b, settled)
    ensures a.ok && b.ok
  {
  }

  lemma SubEncoding(f: Field, m: seq<Slot>)
    requires f.l.LSub? && |m| == |f.l.fields| && EncFrom(f.l.fields, m, 0).ok
    ensures EncVal(f, VMsg(m)) == Emit(Prefixed(EncFrom(f.l.fields, m, 0).bytes))
  {
  }

  lemma ScalarSettled(f: Field, v: Val)
    requires FieldOk(f) && ValOk(f, v) && !f.l.LSub?
    ensures Shrinks(EncVal(f, NormVal(f, v)), EncVal(f, v), true) && SettledVal(f, v)
  {
    EncValOk(f, v);
    if f.l.LString? { TrimmedTwice(v.bs); }
  }

  lemma {:induction false} ItemsShrink(f: Field, items: seq<Val>)
    requires FieldOk(f) && forall k :: 0 <= k < |items| ==> ValOk(f, items[k])
    ensures Shrinks(EncUnpacked(f, NormItems(f, items)), EncUnpacked(f, items),
                    forall k :: 0 <= k < |items| ==> SettledVal(f, items[k]))
    decreases f, 1, |items|
  {
    if items != [] {
      var rest := items[1..];
      ValShrinks(f, items[0]);
      ItemsShrink(f, rest);
      var n := NormItems(f, items);
      assert n[1..] == NormItems(f, rest);
      SplitAll(f, items);
    }
  }

  lemma SplitAll(f: Field, items: seq<Val>)
    requires items != []
    ensures (forall k :: 0 <= k < |items| ==> SettledVal(f, items[k]))
      <==> SettledVal(f, items[0]) && forall k :: 0 <= k < |items[1..]| ==> SettledVal(f, items[1..][k])
  {
    if SettledVal(f, items[0]) && forall k :: 0 <= k < |items[1..]| ==> SettledVal(f, items[1..][k]) {
      forall k | 0 <= k < |items| ensures SettledVal(f, items[k]) {
        if k > 0 { assert items[k] == items[1..][k - 1]; }
      }
    }
  }

  lemma {:induction false} PackedNorm(f: Field, items: seq<Val>)
    requires f.Packable() && FieldOk(f) && forall k :: 0 <= k < |items| ==> ValOk(f, items[k])
    ensures NormItems(f, items) == items
  {
    if items != [] { PackedNorm(f, items[1..]); }
  }

  lemma {:induction false} DefaultIsBlankVal(f: Field, v: Val)
    requires FieldOk(f) && f.l.LSub? && v.VMsg? && IsDefaultMsg(f.l.fields, v.slots)
    ensures BlankVal(f, v)
    decreases f, 0
  {
    DefaultIsBlank(f.l.fields, v.slots);
  }

  lemma {:induction false} DefaultIsBlank(fs: seq<Field>, m: seq<Slot>)
    requires FieldsOk(fs) && IsDefaultMsg(fs, m)
    ensures BlankMsg(fs, m)
    decreases fs, 0
  {
    TagNonzero(fs);
    forall i | 0 <= i < |fs| ensures BlankSlot(fs, i, m[Cell(fs, i)]) {
      assert IsDefault(fs[i], m[Cell(fs, i)]) && FieldOk(fs[i]);
      if fs[i].h.Singular? && fs[i].l.LSub? { DefaultIsBlankVal(fs[i], m[Cell(fs, i)].v); }
    }
  }

  lemma SameShrinks(a: Out)
    requires a.ok
    ensures Shrinks(a, a, true)
  {
  }

  /** A singular field that is blank is left out in normal form. */
  lemma {:induction false} SingularShrinks(fs: seq<Field>, i: nat, s: Slot)
    requires i < |fs| && FieldOk(fs[i]) && fs[i].h.Singular? && FieldSlotOk(fs[i], s)
    ensures Shrinks(EncField(fs[i], SVal(NormVal(fs[i], s.v))), EncField(fs[i], s), SettledSlot(fs[i], s))
    decreases fs, 0
  {
    hide Normalise;
    var f := fs[i];
    DefaultNormIff(fs, i, s);
    ValShrinks(f, s.v);
    if IsDefault(f, s) {
      if f.l.LSub? { DefaultIsBlankVal(f, s.v); }
      SameShrinks(NOTHING);
    } else if !BlankSlot(fs, i, s) {
      SameShrinks(Emit(TagFor(f)));
      ThenShrinks(Emit(TagFor(f)), Emit(TagFor(f)), true, EncVal(f, NormVal(f, s.v)), EncVal(f, s.v),
                  SettledVal(f, s.v));
    }
  }

  lemma {:induction false} TaggedShrinks(f: Field, v: Val)
    requires FieldOk(f) && ValOk(f, v)
    ensures Shrinks(Then(Emit(TagFor(f)), EncVal(f, NormVal(f, v))), Then(Emit(TagFor(f)), EncVal(f, v)),
                    SettledVal(f, v))
    decreases f, 1
  {
    ValShrinks(f, v);
    SameShrinks(Emit(TagFor(f)));
    ThenShrinks(Emit(TagFor(f)), Emit(TagFor(f)), true, EncVal(f, NormVal(f, v)), EncVal(f, v), SettledVal(f, v));
  }

  lemma {:induction false} ArrayShrinks(f: Field, items: seq<Val>, n: nat)
    requires FieldOk(f) && |items| <= n && forall k :: 0 <= k < |items| ==> ValOk(f, items[k])
    requires EncArray(f, items, n).ok
    ensures Shrinks(EncArray(f, NormItems(f, items), n), EncArray(f, items, n),
                    forall k :: 0 <= k < |items| ==> SettledVal(f, items[k]))
    decreases f, 2
  {
    if f.Packable() {
      PackedNorm(f, items);
      SameShrinks(EncArray(f, items, n));
    } else {
      ItemsShrink(f, items);
    }
  }

  /** The output of one field. */
  lemma {:induction false} FieldShrinks(fs: seq<Field>, m: seq<Slot>, i: nat)
    requires i < |fs| && FieldsOk(fs) && MsgOk(fs, m)
    ensures Shrinks(EncField(fs[i], Normalise(fs, m)[Cell(fs, i)]), EncField(fs[i], m[Cell(fs, i)]),
                    SettledSlot(fs[i], m[Cell(fs, i)]))
    decreases fs, 3
  {
    hide Shrinks;
    var f, c := fs[i], Cell(fs, i);
    SlotFits(fs, m, i);
    CellRoot(fs, i);
    EncFieldOk(f, m[c]);
    assert Normalise(fs, m)[c] == NormSlot(fs, m, |fs|, c);
    SameShrinks(NOTHING);
    match f.h
    case Required => TaggedShrinks(f, m[c].v);
    case Singular => SingularShrinks(fs, i, m[c]);
    case Optional => TaggedShrinks(f, m[c].v);
    case Repeated(n) => ArrayShrinks(f, m[c].items, n);
    case Oneof =>
      if m[c].which == f.tag {
        FindTagAt(fs, i);
        TaggedShrinks(f, m[c].v);
      }
  }

  predicate SettledFrom(fs: seq<Field>, m: seq<Slot>, i: nat)
    requires |m| == |fs|
  {
    forall j :: i <= j < |fs| ==> SettledSlot(fs[j], m[Cell(fs, j)])
  }

  lemma {:induction false} FromShrinks(fs: seq<Field>, m: seq<Slot>, i: nat)
    requires i <= |fs| && FieldsOk(fs) && MsgOk(fs, m)
    ensures Shrinks(EncFrom(fs, Normalise(fs, m), i), EncFrom(fs, m, i), SettledFrom(fs, m, i))
    decreases fs, 4, |fs| - i
  {
    if i < |fs| {
      FieldShrinks(fs, m, i);
      FromShrinks(fs, m, i + 1);
      assert SettledFrom(fs, m, i) <==> SettledSlot(fs[i], m[Cell(fs, i)]) && SettledFrom(fs, m, i + 1);
    }
  }

  /**
   Normalising a conforming struct keeps its encoding exactly when no encoded singular submessage is blank but for tags
   that are no member's; otherwise the encoding gets shorter.
   */
  lemma NormaliseKeepsEncodingIff(fs: seq<Field>, m: seq<Slot>)
    requires FieldsOk(fs) && MsgOk(fs, m)
    ensures Encode(fs, Normalise(fs, m)) == Encode(fs, m) <==> Settled(fs, m)
    ensures |Encode(fs, Normalise(fs, m)).bytes| <= |Encode(fs, m).bytes|
  {
    FromShrinks(fs, m, 0);
    assert SettledFrom(fs, m, 0) <==> Settled(fs, m);
  }

  /** A proto3 submessage field whose submessage is one oneof with one integer member of tag 1. */
  function Choice(): Field {
    Field(1, Singular, LSub([Field(1, Oneof, LVarint, 4, 0, 0, VInt(0))]), 4, 0, 0, VInt(0))
  }

  /** The oneof is set to a tag that is no member's: the submessage is encoded, and no longer after a round trip. */
  lemma UnknownTagDropped(which: nat, v: Val)
    requires which > 1
    ensures var m := [SVal(VMsg([SUnion(which, v)]))];
            && FieldsOk([Choice()]) && MsgOk([Choice()], m)
            && |Encode([Choice()], Normalise([Choice()], m)).bytes| < |Encode([Choice()], m).bytes|
  {
    var m := [SVal(VMsg([SUnion(which, v)]))];
    var inner, slots := Choice().l.fields, [SUnion(which, v)];
    assert FieldOk(inner[0]) && FieldOk(Choice());
    assert SlotOk(inner, 0, slots[0]) && MsgOk(inner, slots);
    assert ValOk(Choice(), VMsg(slots)) && SlotOk([Choice()], 0, m[0]);
    assert FindTag(inner, which) == 1;
    assert BlankSlot(inner, 0, slots[Cell(inner, 0)]) && BlankMsg(inner, slots);
    assert !IsDefault(inner[0], slots[Cell(inner, 0)]) && !IsDefaultMsg(inner, slots);
    assert BlankVal(Choice(), VMsg(slots)) && !SettledSlot(Choice(), m[Cell([Choice()], 0)]);
    FromShrinks([Choice()], m, 0);
  }

  // ---------- what the decoder accepts is settled ----------

  lemma {:induction false} KnownValSettled(f: Field, v: Val)
    requires FieldOk(f) && ValOk(f, v) && TagsKnownVal(f, v)
    ensures SettledVal(f, v) && (f.l.LSub? && BlankVal(f, v) ==> IsDefaultMsg(f.l.fields, v.slots))
    decreases f, 0
  {
    if f.l.LSub? { KnownSettled(f.l.fields, v.slots); }
  }

  lemma {:induction false} KnownSlotSettled(fs: seq<Field>, m: seq<Slot>, i: nat)
    requires i < |fs| && FieldsOk(fs) && MsgOk(fs, m) && TagsKnown(fs, m)
    ensures SettledSlot(fs[i], m[Cell(fs, i)])
    ensures BlankSlot(fs, i, m[Cell(fs, i)]) ==> IsDefault(fs[i], m[Cell(fs, i)])
    decreases fs, 0
  {
    var f, c := fs[i], Cell(fs, i);
    SlotFits(fs, m, i);
    SlotKnown(fs, m, i);
    CellRoot(fs, i);
    match f.h
    case Repeated(_) =>
      forall k | 0 <= k < |m[c].items| ensures SettledVal(f, m[c].items[k]) { KnownValSettled(f, m[c].items[k]); }
    case Oneof =>
      assert TagsKnownSlot(fs, c, m[c]);
      FindTagAt(fs, i);
      if m[c].which == f.tag { KnownValSettled(f, m[c].v); }
    case _ => KnownValSettled(f, m[c].v);
  }

  lemma {:induction false} KnownSettled(fs: seq<Field>, m: seq<Slot>)
    requires FieldsOk(fs) && MsgOk(fs, m) && TagsKnown(fs, m)
    ensures Settled(fs, m) && (BlankMsg(fs, m) ==> IsDefaultMsg(fs, m))
    decreases fs, 1
  {
    forall i | 0 <= i < |fs|
      ensures SettledSlot(fs[i], m[Cell(fs, i)])
      ensures BlankSlot(fs, i, m[Cell(fs, i)]) ==> IsDefault(fs[i], m[Cell(fs, i)])
    {
      KnownSlotSettled(fs, m, i);
    }
  }

  /** Re-encoding is stable: what an accepted struct encodes to is, once decoded again, encoded to the same bytes. */
  lemma ReencodeStable(fs: seq<Field>, s: seq<byte>)
    requires FieldsOk(fs) && Decode(fs, s).Ok? && SmallMsg(fs, Decode(fs, s).value)
    ensures var m := Decode(fs, s).value;
            var again := Decode(fs, Encode(fs, m).bytes);
            TagsKnown(fs, m) && Encode(fs, m).ok && again.Ok? && Encode(fs, again.value) == Encode(fs, m)
  {
    var m := Decode(fs, s).value;
    DecodeConforms(fs, s);
    DefaultsKnown(fs);
    DecLoopKnown(fs, s, Defaults(fs), {});
    KnownSettled(fs, m);
    NormaliseKeepsEncodingIff(fs, m);
    EncodeDecode(fs, m);
  }
}
