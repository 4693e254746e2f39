/**
 What holds of decoding for any input: a successful decode leaves a conforming struct, decoding is a fold over
 records, the order of records of different fields does not matter, and unknown fields do not either.
 */
module Robustness {
  import opened Wire
  import opened Message
  import opened Encoding
  import opened Decoding
  import opened RoundTrip
  import opened Theorems

  // ---------- decoding conforms ----------

  lemma StoredSignedFits(i: int, size: nat)
    requires IntSize(size) && StoreSigned(i, size) == i
    ensures InSigned(i, size)
  {
    var m := Modulus(size);
    assert 0 <= i % m < m;
  }

  lemma DecScalarOk(f: Field, s: seq<byte>)
    requires FieldOk(f) && DecScalar(f, s).Ok?
    ensures ValOk(f, DecScalar(f, s).value)
  {
    match f.l
    case LVarint => VarintBelow(s); StoredSignedFits(DecScalar(f, s).value.i, f.dataSize);
    case LUVarint => VarintBelow(s);
    case LSVarint => VarintBelow(s); StoredSignedFits(DecScalar(f, s).value.i, f.dataSize);
    case LFixed32 => ShlWords(1); FromLittleEndianRoundTrip(s[..4]);
    case LFixed64 => ShlWords(1); FromLittleEndianRoundTrip(s[..8]);
    case _ =>
  }

  lemma {:induction false} DecPackedOk(f: Field, s: seq<byte>, items: seq<Val>, n: nat)
    requires FieldOk(f) && |items| <= n && DecPacked(f, s, items, n).Ok?
    requires forall k :: 0 <= k < |items| ==> ValOk(f, items[k])
    ensures var r := DecPacked(f, s, items, n).value; |r| <= n && forall k :: 0 <= k < |r| ==> ValOk(f, r[k])
    decreases n - |items|
  {
    if s != [] {
      DecScalarOk(f, s);
      var p := DecScalar(f, s);
      DecPackedOk(f, p.rest, items + [p.value], n);
    }
  }

  lemma {:induction false} DecValOk(f: Field, s: seq<byte>, base: Val)
    requires FieldOk(f) && ValOk(f, base) && DecVal(f, s, base).Ok?
    ensures ValOk(f, DecVal(f, s, base).value)
    decreases f, 0
  {
    if f.l.LSub? {
      DecLoopOk(f.l.fields, DecPrefixed(s).value, base.slots, {});
    } else {
      DecScalarOk(f, s);
    }
  }

  lemma {:induction false} DecFieldOk(f: Field, wireType: nat, s: seq<byte>, slot: Slot)
    requires FieldOk(f) && DecField(f, wireType, s, slot).Ok? && (f.h.Oneof? || FieldSlotOk(f, slot))
    ensures FieldSlotOk(f, DecField(f, wireType, s, slot).value)
    ensures f.h.Oneof? ==> DecField(f, wireType, s, slot).value.which == f.tag
    decreases f, 1
  {
    match f.h
    case Repeated(n) =>
      if wireType == WT_STRING && f.Packable() {
        DecPackedOk(f, DecPrefixed(s).value, slot.items, n);
      } else {
        ZeroOk(f);
        DecValOk(f, s, Zero(f));
      }
    case Oneof => ZeroOk(f); DecValOk(f, s, Zero(f));
    case _ => DecValOk(f, s, slot.v);
  }

  /** Storing a well-formed slot at the cell of field `i` keeps the struct conforming. */
  lemma StoreOk(fs: seq<Field>, i: nat, m: seq<Slot>, slot: Slot)
    requires i < |fs| && FieldsOk(fs) && MsgOk(fs, m) && FieldSlotOk(fs[i], slot)
    requires fs[i].h.Oneof? ==> slot.which == fs[i].tag
    ensures MsgOk(fs, m[Cell(fs, i) := slot])
  {
    var c := Cell(fs, i);
    CellRoot(fs, i);
    var m' := m[c := slot];
    forall k | 0 <= k < |fs| ensures SlotOk(fs, k, m'[k]) {
      assert SlotOk(fs, k, m[k]);
      if k == c && fs[i].h.Oneof? {
        forall j | 0 <= j < |fs| && fs[j].tag == slot.which ensures j == i { FindTagAt(fs, j); FindTagAt(fs, i); }
      }
    }
  }

  lemma {:induction false} DecLoopOk(fs: seq<Field>, s: seq<byte>, m: seq<Slot>, seen: set<nat>)
    requires FieldsOk(fs) && MsgOk(fs, m) && DecLoop(fs, s, m, seen).LoopDone?
    ensures MsgOk(fs, DecLoop(fs, s, m, seen).m)
    decreases fs, 2, |s|
  {
    if s != [] {
      match DecTag(s)
      case TagFail =>
      case TagEnd(_) =>
      case TagOk(tag, wireType, p) =>
        var i := FindTag(fs, tag);
        if fs == [] && tag == 0 {
          DecLoopOk(fs, Varint32Dec(p).rest, m, seen);
        } else if i == |fs| {
          DecLoopOk(fs, SkipField(p, wireType).rest, m, seen);
        } else {
          var c := Cell(fs, i);
          SlotFits(fs, m, i);
          var r := DecField(fs[i], wireType, p, m[c]);
          DecFieldOk(fs[i], wireType, p, m[c]);
          StoreOk(fs, i, m, r.value);
          DecLoopOk(fs, r.rest, m[c := r.value], seen + Mark(fs, i));
        }
    }
  }

  /**
   Whatever the input, a struct pb_decode accepts conforms to its descriptor: integers in the range of their
   variables, arrays within their size, strings terminated inside their buffers, at every level of nesting.
   */
  lemma DecodeConforms(fs: seq<Field>, s: seq<byte>)
    requires FieldsOk(fs) && Decode(fs, s).Ok?
    ensures MsgOk(fs, Decode(fs, s).value)
  {
    DefaultsOk(fs);
    DecLoopOk(fs, s, Defaults(fs), {});
  }

  /** Re-encoding an accepted struct and decoding it again gives it back normalised. */
  lemma ReencodeAccepted(fs: seq<Field>, s: seq<byte>)
    requires FieldsOk(fs) && Decode(fs, s).Ok? && SmallMsg(fs, Decode(fs, s).value)
    ensures var m := Decode(fs, s).value;
            Encode(fs, m).ok && Decode(fs, Encode(fs, m).bytes) == Ok(Normalise(fs, m), [])
  {
    DecodeConforms(fs, s);
    EncodeDecode(fs, Decode(fs, s).value);
  }

  // ---------- more input does not change what was read ----------

  lemma TakeAppend(s: seq<byte>, t: seq<byte>, n: nat)
    requires n <= |s|
    ensures (s + t)[..n] == s[..n] && (s + t)[n..] == s[n..] + t
  {
  }

  lemma DecTagAppend(s: seq<byte>, t: seq<byte>)
    requires !DecTag(s).TagFail?
    ensures DecTag(s + t) == DecTag(s).(rest := DecTag(s).rest + t)
  {
    Varint32Append(s, t);
  }

  lemma DecPrefixedAppend(s: seq<byte>, t: seq<byte>)
    requires DecPrefixed(s).Ok?
    ensures DecPrefixed(s + t) == Ok(DecPrefixed(s).value, DecPrefixed(s).rest + t)
  {
    Varint32Append(s, t);
    TakeAppend(Varint32Dec(s).rest, t, Varint32Dec(s).value);
  }

  lemma SkipFieldAppend(s: seq<byte>, wireType: nat, t: seq<byte>)
    requires SkipField(s, wireType).Ok?
    ensures SkipField(s + t, wireType) == Ok((), SkipField(s, wireType).rest + t)
  {
    if wireType == WT_VARINT { SkipVarintAppend(s, t); }
    else if wireType == WT_64BIT { TakeAppend(s, t, 8); }
    else if wireType == WT_STRING { DecPrefixedAppend(s, t); }
    else { TakeAppend(s, t, 4); }
  }

  lemma DecScalarAppend(f: Field, s: seq<byte>, t: seq<byte>)
    requires DecScalar(f, s).Ok?
    ensures DecScalar(f, s + t) == Ok(DecScalar(f, s).value, DecScalar(f, s).rest + t)
  {
    match f.l
    case LBool => Varint32Append(s, t);
    case LVarint | LUVarint | LSVarint => VarintAppend(s, t);
    case LFixed32 => TakeAppend(s, t, 4);
    case LFixed64 => TakeAppend(s, t, 8);
    case LBytes | LString | LFixedBytes =>
      Varint32Append(s, t);
      if Varint32Dec(s).value <= |Varint32Dec(s).rest| { TakeAppend(Varint32Dec(s).rest, t, Varint32Dec(s).value); }
  }

  lemma DecValAppend(f: Field, s: seq<byte>, base: Val, t: seq<byte>)
    requires DecVal(f, s, base).Ok?
    ensures DecVal(f, s + t, base) == Ok(DecVal(f, s, base).value, DecVal(f, s, base).rest + t)
  {
    if f.l.LSub? { DecPrefixedAppend(s, t); } else { DecScalarAppend(f, s, t); }
  }

  lemma DecFieldAppend(f: Field, wireType: nat, s: seq<byte>, slot: Slot, t: seq<byte>)
    requires DecField(f, wireType, s, slot).Ok?
    ensures DecField(f, wireType, s + t, slot)
            == Ok(DecField(f, wireType, s, slot).value, DecField(f, wireType, s, slot).rest + t)
  {
    match f.h
    case Repeated(_) =>
      if wireType == WT_STRING && f.Packable() { DecPrefixedAppend(s, t); } else { DecValAppend(f, s, Zero(f), t); }
    case Oneof => DecValAppend(f, s, Zero(f), t);
    case _ => DecValAppend(f, s, slot.v, t);
  }

  // ---------- the field loop is a fold over records ----------

  ghost function AddSeen(r: LoopOut, seen: set<nat>): LoopOut {
    match r
    case LoopFail => LoopFail
    case LoopDone(m, own, stopped, rest) => LoopDone(m, seen + own, stopped, rest)
  }

  /** The fields met before do not influence the loop. */
  lemma {:induction false} SeenApart(fs: seq<Field>, s: seq<byte>, m: seq<Slot>, seen: set<nat>, own: set<nat>)
    requires |m| == |fs|
    ensures DecLoop(fs, s, m, seen + own) == AddSeen(DecLoop(fs, s, m, own), seen)
    decreases |s|
  {
    if s != [] {
      match DecTag(s)
      case TagFail =>
      case TagEnd(_) =>
      case TagOk(tag, wireType, p) =>
        var i := FindTag(fs, tag);
        if fs == [] && tag == 0 {
          if Varint32Dec(p).Ok? { SeenApart(fs, Varint32Dec(p).rest, m, seen, own); }
        } else if i == |fs| {
          if SkipField(p, wireType).Ok? { SeenApart(fs, SkipField(p, wireType).rest, m, seen, own); }
        } else {
          var r := DecField(fs[i], wireType, p, m[Cell(fs, i)]);
          if r.Ok? {
            SeenApart(fs, r.rest, m[Cell(fs, i) := r.value], seen, own + Mark(fs, i));
            assert seen + own + Mark(fs, i) == seen + (own + Mark(fs, i));
          }
        }
    }
  }

  /** Bytes after complete records are read as if they had come alone; a zero terminator hides them. */
  lemma {:induction false} LoopAppend(fs: seq<Field>, a: seq<byte>, m: seq<Slot>, seen: set<nat>, b: seq<byte>)
    requires |m| == |fs| && DecLoop(fs, a, m, seen).LoopDone?
    ensures var r := DecLoop(fs, a, m, seen);
            DecLoop(fs, a + b, m, seen) == if r.stopped then r.(rest := r.rest + b) else DecLoop(fs, b, r.m, r.seen)
    decreases |a|
  {
    if a == [] {
      assert [] + b == b;
    } else {
      DecTagAppend(a, b);
      match DecTag(a)
      case TagEnd(_) =>
      case TagOk(tag, wireType, p) =>
        var i := FindTag(fs, tag);
        if fs == [] && tag == 0 {
          Varint32Append(p, b);
          LoopAppend(fs, Varint32Dec(p).rest, m, seen, b);
        } else if i == |fs| {
          SkipFieldAppend(p, wireType, b);
          LoopAppend(fs, SkipField(p, wireType).rest, m, seen, b);
        } else {
          var r := DecField(fs[i], wireType, p, m[Cell(fs, i)]);
          DecFieldAppend(fs[i], wireType, p, m[Cell(fs, i)], b);
          LoopAppend(fs, r.rest, m[Cell(fs, i) := r.value], seen + Mark(fs, i), b);
        }
    }
  }

  /**
   Concatenation is merge, for arbitrary input: when `a` is complete records without a terminator, decoding a + b is
   decoding `b` over the struct `a` left, with the required fields of both counted together.
   */
  lemma DecodeConcatenation(fs: seq<Field>, a: seq<byte>, b: seq<byte>, m: seq<Slot>)
    requires |m| == |fs| && DecLoop(fs, a, m, {}).LoopDone? && !DecLoop(fs, a, m, {}).stopped
    ensures var ra := DecLoop(fs, a, m, {});
            DecInto(fs, a + b, m)
            == match DecLoop(fs, b, ra.m, {})
               case LoopFail => Fail
               case LoopDone(m', seen, _, rest) => if AllRequired(fs, ra.seen + seen) then Ok(m', rest) else Fail
    ensures DecInto(fs, a, m).Ok? && DecInto(fs, b, DecInto(fs, a, m).value).Ok?
            ==> DecInto(fs, a + b, m) == DecInto(fs, b, DecInto(fs, a, m).value)
  {
    var ra := DecLoop(fs, a, m, {});
    LoopAppend(fs, a, m, {}, b);
    SeenApart(fs, b, ra.m, ra.seen, {});
    assert ra.seen + {} == ra.seen;
  }

  /** Two payloads of one submessage, read one after the other, are read like the two in a row. */
  lemma PayloadsJoin(f: Field, a: seq<byte>, b: seq<byte>, base: Val, t: seq<byte>)
    requires f.l.LSub? && base.VMsg? && |base.slots| == |f.l.fields| && |a| + |b| < U32
    requires var r := DecLoop(f.l.fields, a, base.slots, {}); r.LoopDone? && !r.stopped
    requires var first := DecInto(f.l.fields, a, base.slots); first.Ok? && DecInto(f.l.fields, b, first.value).Ok?
    ensures var middle := VMsg(DecInto(f.l.fields, a, base.slots).value);
            && DecVal(f, Prefixed(a) + t, base) == Ok(middle, t)
            && DecVal(f, Prefixed(b) + t, middle) == DecVal(f, Prefixed(a + b) + t, base)
            && DecVal(f, Prefixed(b) + t, middle).Ok? && DecVal(f, Prefixed(b) + t, middle).rest == t
  {
    PrefixedRoundTrip(a, t);
    PrefixedRoundTrip(b, t);
    PrefixedRoundTrip(a + b, t);
    DecodeConcatenation(f.l.fields, a, b, base.slots);
  }

  /** A length-delimited record of a submessage field. */
  function SubRecord(f: Field, payload: seq<byte>): seq<byte> {
    TagFor(f) + Prefixed(payload)
  }

  /** A field with one value of its own, and the slot for it. */
  predicate Ordinary(f: Field, s: Slot) {
    if f.h.Optional? then s.SOpt? else (f.h.Required? || f.h.Singular?) && s.SVal?
  }

  /** The submessage such a field holds. */
  function Inner(s: Slot): Val {
    match s
    case SVal(v) => v
    case SOpt(_, v) => v
    case _ => VMsg([])
  }

  /**
   Submessages merge recursively, for arbitrary payloads: two records of one submessage field do what one record with
   both payloads in a row does.
   */
  lemma SubmessagesMerge(fs: seq<Field>, i: nat, a: seq<byte>, b: seq<byte>, t: seq<byte>, m: seq<Slot>,
                         seen: set<nat>)
    requires |m| == |fs| && i < |fs| && FieldsOk(fs) && fs[i].l.LSub? && |a| + |b| < U32
    requires Ordinary(fs[i], m[i])
    requires Inner(m[i]).VMsg? && |Inner(m[i]).slots| == |fs[i].l.fields|
    requires var r := DecLoop(fs[i].l.fields, a, Inner(m[i]).slots, {}); r.LoopDone? && !r.stopped
    requires var first := DecInto(fs[i].l.fields, a, Inner(m[i]).slots);
             first.Ok? && DecInto(fs[i].l.fields, b, first.value).Ok?
    ensures DecLoop(fs, SubRecord(fs[i], a) + (SubRecord(fs[i], b) + t), m, seen)
         == DecLoop(fs, SubRecord(fs[i], a + b) + t, m, seen)
  {
    var f, base := fs[i], Inner(m[i]);
    var middle := VMsg(DecInto(f.l.fields, a, base.slots).value);
    PayloadsJoin(f, a, b, base, SubRecord(f, b) + t);
    PayloadsJoin(f, a, b, base, t);
    SubStep(fs, i, a, SubRecord(f, b) + t, m, middle, seen);
    var m' := m[i := if f.h.Optional? then SOpt(true, middle) else SVal(middle)];
    var last := DecVal(f, Prefixed(b) + t, middle).value;
    SubStep(fs, i, b, t, m', last, seen + Mark(fs, i));
    SubStep(fs, i, a + b, t, m, last, seen);
    assert seen + Mark(fs, i) + Mark(fs, i) == seen + Mark(fs, i);
    assert m'[i := if f.h.Optional? then SOpt(true, last) else SVal(last)]
        == m[i := if f.h.Optional? then SOpt(true, last) else SVal(last)];
  }

  lemma SubStep(fs: seq<Field>, i: nat, payload: seq<byte>, t: seq<byte>, m: seq<Slot>, v: Val, seen: set<nat>)
    requires |m| == |fs| && i < |fs| && FieldsOk(fs) && fs[i].l.LSub?
    requires Ordinary(fs[i], m[i])
    requires DecVal(fs[i], Prefixed(payload) + t, Inner(m[i])) == Ok(v, t)
    ensures DecLoop(fs, SubRecord(fs[i], payload) + t, m, seen)
         == DecLoop(fs, t, m[i := if fs[i].h.Optional? then SOpt(true, v) else SVal(v)], seen + Mark(fs, i))
  {
    assert SubRecord(fs[i], payload) + t == TagFor(fs[i]) + (Prefixed(payload) + t);
    RecordStep(fs, i, WireType(fs[i].l), Prefixed(payload) + t, m, seen);
  }

  // ---------- the wire type of a record ----------

  /** The field reads these bytes alike behind the two wire types. */
  predicate ReadsAlike(f: Field, w1: nat, w2: nat, s: seq<byte>, slot: Slot) {
    DecField(f, w1, s, slot) == DecField(f, w2, s, slot)
  }

  /** The wire type of a record makes a difference for packable arrays alone: length-delimited or not. */
  lemma WireTypeIgnoredIff(f: Field)
    ensures (forall w1, w2, s, slot :: ReadsAlike(f, w1, w2, s, slot)) <==> !(f.h.Repeated? && f.Packable())
  {
    if f.h.Repeated? && f.Packable() {
      EmptyPacked(f);
      assert !ReadsAlike(f, WT_STRING, WT_VARINT, [0], SRep([]));
    } else {
      forall w1, w2, s, slot ensures ReadsAlike(f, w1, w2, s, slot) { }
    }
  }

  /** One zero byte is an empty packed body, and at most one entry otherwise. */
  lemma EmptyPacked(f: Field)
    requires f.h.Repeated? && f.Packable()
    ensures DecField(f, WT_STRING, [0], SRep([])) == Ok(SRep([]), [])
    ensures DecField(f, WT_VARINT, [0], SRep([])) != Ok(SRep([]), [])
  {
    Varint32RoundTrip(0, []);
    assert VarintEnc(0) + [] == [0];
    assert DecPrefixed([0]) == Ok([], []);
  }

  /** In a message, too, the wire type of a record of any other field may be replaced. */
  lemma RecordWireTypeIgnored(fs: seq<Field>, i: nat, w1: nat, w2: nat, p: seq<byte>, m: seq<Slot>, seen: set<nat>)
    requires |m| == |fs| && i < |fs| && FieldsOk(fs) && w1 < 8 && w2 < 8
    requires !(fs[i].h.Repeated? && fs[i].Packable())
    ensures DecLoop(fs, EncTag(w1, fs[i].tag) + p, m, seen) == DecLoop(fs, EncTag(w2, fs[i].tag) + p, m, seen)
  {
    RecordStep(fs, i, w1, p, m, seen);
    RecordStep(fs, i, w2, p, m, seen);
    WireTypeIgnoredIff(fs[i]);
    assert ReadsAlike(fs[i], w1, w2, p, m[Cell(fs, i)]);
  }

  /** A proto3 int32 field */
  function Int32Field(tag: nat): Field {
    Field(tag, Singular, LVarint, 4, 0, 0, VInt(0))
  }

  lemma Int32Reads(tag: nat, wireType: nat)
    ensures DecField(Int32Field(tag), wireType, [5], SVal(VInt(0))) == Ok(SVal(VInt(5)), [])
  {
    VarintRoundTrip(5, []);
    assert VarintEnc(5) + [] == [5];
  }

  /**
   A record that says 64-bit and holds one byte: a program that knows its field as an integer accepts it, and one that
   does not know it finds the message cut off.
   */
  lemma MismatchAccepted(tag: nat, other: nat)
    requires 0 < tag < 32 && 0 < other < 32 && tag != other
    ensures var s := EncTag(WT_64BIT, tag) + [5];
            && FieldsOk([Int32Field(tag)]) && Decode([Int32Field(tag)], s) == Ok([SVal(VInt(5))], [])
            && FieldsOk([Int32Field(other)]) && Decode([Int32Field(other)], s).Fail?
  {
    var known, unknown := [Int32Field(tag)], [Int32Field(other)];
    assert FieldOk(known[0]) && FieldOk(unknown[0]);
    Int32Reads(tag, WT_64BIT);
    assert Defaults(known)[0] == SVal(VInt(0)) by { assert DefaultVal(known[0]) == known[0].dflt; }
    RecordStep(known, 0, WT_64BIT, [5], Defaults(known), {});
    assert Defaults(known)[0 := SVal(VInt(5))] == [SVal(VInt(5))];
    TagRoundTrip(WT_64BIT, tag, [5]);
    assert FindTag(unknown, tag) == 1;
    assert SkipField([5], WT_64BIT).Fail?;
    assert DecLoop(unknown, EncTag(WT_64BIT, tag) + [5], Defaults(unknown), {}) == LoopFail;
  }

  // ---------- order of records, unknown fields ----------

  /** `r` is one complete record of the `i`-th field, accepted over `slot` and leaving `slot'` in its place. */
  ghost predicate FieldRecord(fs: seq<Field>, r: seq<byte>, i: nat, slot: Slot, slot': Slot) {
    && i < |fs| && DecTag(r).TagOk? && FindTag(fs, DecTag(r).tag) == i
    && DecField(fs[i], DecTag(r).wireType, DecTag(r).rest, slot) == Ok(slot', [])
  }

  /** `r` is one complete record of a field the descriptor does not have. */
  ghost predicate UnknownRecord(fs: seq<Field>, r: seq<byte>) {
    && DecTag(r).TagOk? && FindTag(fs, DecTag(r).tag) == |fs| && !(fs == [] && DecTag(r).tag == 0)
    && SkipField(DecTag(r).rest, DecTag(r).wireType) == Ok((), [])
  }

  lemma ReadRecord(fs: seq<Field>, r: seq<byte>, i: nat, slot': Slot, t: seq<byte>, m: seq<Slot>, seen: set<nat>)
    requires |m| == |fs| && i < |fs| && FieldRecord(fs, r, i, m[Cell(fs, i)], slot')
    ensures DecLoop(fs, r + t, m, seen) == DecLoop(fs, t, m[Cell(fs, i) := slot'], seen + Mark(fs, i))
  {
    DecTagAppend(r, t);
    DecFieldAppend(fs[i], DecTag(r).wireType, DecTag(r).rest, m[Cell(fs, i)], t);
    assert [] + t == t;
  }

  /** Two accepted records of fields that share no storage may come in either order. */
  lemma SwapRecords(fs: seq<Field>, r1: seq<byte>, i: nat, slot1: Slot, r2: seq<byte>, j: nat, slot2: Slot,
                    t: seq<byte>, m: seq<Slot>, seen: set<nat>)
    requires |m| == |fs| && i < |fs| && j < |fs| && Cell(fs, i) != Cell(fs, j)
    requires FieldRecord(fs, r1, i, m[Cell(fs, i)], slot1) && FieldRecord(fs, r2, j, m[Cell(fs, j)], slot2)
    ensures DecLoop(fs, r1 + (r2 + t), m, seen) == DecLoop(fs, r2 + (r1 + t), m, seen)
  {
    var c, d := Cell(fs, i), Cell(fs, j);
    ReadRecord(fs, r1, i, slot1, r2 + t, m, seen);
    ReadRecord(fs, r2, j, slot2, t, m[c := slot1], seen + Mark(fs, i));
    ReadRecord(fs, r2, j, slot2, r1 + t, m, seen);
    ReadRecord(fs, r1, i, slot1, t, m[d := slot2], seen + Mark(fs, j));
    assert m[c := slot1][d := slot2] == m[d := slot2][c := slot1];
    assert seen + Mark(fs, i) + Mark(fs, j) == seen + Mark(fs, j) + Mark(fs, i);
  }

  lemma SkipUnknown(fs: seq<Field>, u: seq<byte>, t: seq<byte>, m: seq<Slot>, seen: set<nat>)
    requires |m| == |fs| && UnknownRecord(fs, u)
    ensures DecLoop(fs, u + t, m, seen) == DecLoop(fs, t, m, seen)
  {
    DecTagAppend(u, t);
    SkipFieldAppend(DecTag(u).rest, DecTag(u).wireType, t);
    assert [] + t == t;
  }

  lemma IntoFollowsLoop(fs: seq<Field>, s1: seq<byte>, s2: seq<byte>, m: seq<Slot>)
    requires |m| == |fs|
    requires var p1, p2 := DecLoop(fs, s1, m, {}), DecLoop(fs, s2, m, {});
             (p1.LoopDone? <==> p2.LoopDone?) && (p1.LoopDone? ==> p1.m == p2.m && p1.seen == p2.seen)
    ensures DecInto(fs, s1, m).Ok? <==> DecInto(fs, s2, m).Ok?
    ensures DecInto(fs, s1, m).Ok? ==> DecInto(fs, s1, m).value == DecInto(fs, s2, m).value
  {
  }

  /** Anywhere between records of a message, swapping two of them changes neither the verdict nor the struct. */
  lemma DecodeOrderIndependent(fs: seq<Field>, a: seq<byte>, r1: seq<byte>, i: nat, slot1: Slot,
                               r2: seq<byte>, j: nat, slot2: Slot, t: seq<byte>, m: seq<Slot>)
    requires |m| == |fs| && DecLoop(fs, a, m, {}).LoopDone? && i < |fs| && j < |fs| && Cell(fs, i) != Cell(fs, j)
    requires var at := DecLoop(fs, a, m, {}).m;
             FieldRecord(fs, r1, i, at[Cell(fs, i)], slot1) && FieldRecord(fs, r2, j, at[Cell(fs, j)], slot2)
    ensures DecInto(fs, a + (r1 + (r2 + t)), m).Ok? <==> DecInto(fs, a + (r2 + (r1 + t)), m).Ok?
    ensures DecInto(fs, a + (r1 + (r2 + t)), m).Ok?
            ==> DecInto(fs, a + (r1 + (r2 + t)), m).value == DecInto(fs, a + (r2 + (r1 + t)), m).value
  {
    var at := DecLoop(fs, a, m, {});
    LoopAppend(fs, a, m, {}, r1 + (r2 + t));
    LoopAppend(fs, a, m, {}, r2 + (r1 + t));
    SwapRecords(fs, r1, i, slot1, r2, j, slot2, t, at.m, at.seen);
    IntoFollowsLoop(fs, a + (r1 + (r2 + t)), a + (r2 + (r1 + t)), m);
  }

  /** A record of an unknown field may be dropped from, or inserted at, any record boundary. */
  lemma DecodeIgnoresUnknown(fs: seq<Field>, a: seq<byte>, u: seq<byte>, t: seq<byte>, m: seq<Slot>)
    requires |m| == |fs| && DecLoop(fs, a, m, {}).LoopDone? && UnknownRecord(fs, u)
    ensures DecInto(fs, a + (u + t), m).Ok? <==> DecInto(fs, a + t, m).Ok?
    ensures DecInto(fs, a + t, m).Ok? ==> DecInto(fs, a + (u + t), m).value == DecInto(fs, a + t, m).value
  {
    var at := DecLoop(fs, a, m, {});
    LoopAppend(fs, a, m, {}, u + t);
    LoopAppend(fs, a, m, {}, t);
    SkipUnknown(fs, u, t, at.m, at.seen);
    IntoFollowsLoop(fs, a + (u + t), a + t, m);
  }

  // ---------- tag 0 over an empty descriptor ----------

  lemma EmptyLoop(t: seq<byte>, seen: set<nat>)
    ensures DecLoop([], t, [], seen).LoopDone? <==> DecInto([], t, []).Ok?
  {
    SeenApart([], t, [], seen, {});
    assert seen + {} == seen;
  }

  /** A complete record of tag 0; the terminator of an empty descriptor matches it, and reads it as a bool. */
  predicate ZeroRecord(u: seq<byte>) {
    DecTag(u).TagOk? && DecTag(u).tag == 0 && SkipField(DecTag(u).rest, DecTag(u).wireType) == Ok((), [])
  }

  /** What follows the bool is complete records again. */
  predicate ReadsThrough(u: seq<byte>)
    requires ZeroRecord(u)
  {
    match Varint32Dec(DecTag(u).rest)
    case Fail => false
    case Ok(_, left) => var r := DecLoop([], left, [], {}); r.LoopDone? && !r.stopped
  }

  lemma ZeroRecordLoop(u: seq<byte>, t: seq<byte>)
    requires ZeroRecord(u)
    ensures var p := Varint32Dec(DecTag(u).rest);
            p.Ok? ==> DecLoop([], u + t, [], {}) == DecLoop([], p.rest + t, [], {})
  {
    DecTagAppend(u, t);
    if Varint32Dec(DecTag(u).rest).Ok? { Varint32Append(DecTag(u).rest, t); }
  }

  /** Over an empty descriptor such a record is ignored, whatever follows, exactly when it reads through. */
  lemma ZeroRecordIgnoredIff(u: seq<byte>)
    requires ZeroRecord(u)
    ensures (forall t :: DecInto([], u + t, []).Ok? <==> DecInto([], t, []).Ok?) <==> ReadsThrough(u)
  {
    var p := Varint32Dec(DecTag(u).rest);
    assert u + [] == u;
    if ReadsThrough(u) {
      var r := DecLoop([], p.rest, [], {});
      forall t ensures DecInto([], u + t, []).Ok? <==> DecInto([], t, []).Ok? {
        ZeroRecordLoop(u, t);
        LoopAppend([], p.rest, [], {}, t);
        EmptyLoop(t, r.seen);
      }
    } else if p.Ok? && DecLoop([], p.rest, [], {}).LoopDone? {
      ZeroRecordLoop(u, [8]);
      LoopAppend([], p.rest, [], {}, [8]);
      OpenRecordFails();
    } else {
      if p.Ok? { ZeroRecordLoop(u, []); assert p.rest + [] == p.rest; }
      assert DecInto([], u + [], []).Fail? && DecInto([], [], []).Ok?;
    }
  }

  /** A tag without a value. */
  lemma OpenRecordFails()
    ensures DecInto([], [8], []).Fail?
  {
    assert [8][1..] == [];
  }

  /** Four bytes of 0xFF behind tag 0: ignored where the tag is unknown, an error where it meets the terminator. */
  lemma ZeroRecordDiffers(fs: seq<Field>, m: seq<Slot>)
    requires |m| == |fs| > 0 && FindTag(fs, 0) == |fs| && AllRequired(fs, {})
    ensures var u := [5, 0xFF, 0xFF, 0xFF, 0xFF];
            ZeroRecord(u) && DecInto(fs, u, m) == Ok(m, []) && DecInto([], u, []).Fail?
  {
    var u: seq<byte> := [5, 0xFF, 0xFF, 0xFF, 0xFF];
    assert u[1..] == [0xFF, 0xFF, 0xFF, 0xFF] && u[1..][4..] == [];
    assert DecTag(u) == TagOk(0, 5, u[1..]);
    SkipUnknown(fs, u, [], m, {});
    assert u + [] == u;
    UnendedVarint();
  }

  lemma UnendedVarint()
    ensures Varint32Dec([0xFF, 0xFF, 0xFF, 0xFF]).Fail?
  {
    var s: seq<byte> := [0xFF, 0xFF, 0xFF, 0xFF];
    var three: seq<byte>, two: seq<byte>, one: seq<byte> := s[1..], s[2..], s[3..];
    assert three[1..] == two && two[1..] == one && one[1..] == [];
    NoMore([], 28, Gather(Gather(Gather(0x7F, 0x7F, 7, U32), 0x7F, 14, U32), 0x7F, 21, U32));
  }

  lemma NoMore(s: seq<byte>, b: nat, r: nat)
    requires s == []
    ensures Varint32From(s, b, r).Fail?
  {
  }

  // ---------- skipping ----------

  lemma {:induction false} SkipVarintEnc(v: nat, t: seq<byte>)
    ensures SkipVarint(VarintEnc(v) + t) == Ok((), t)
    decreases v
  {
    EncTail(v, t);
    if v >= 128 { SkipVarintEnc(v / 128, t); }
  }

  /** Skipping by wire type passes over exactly what the encoder writes for a value of any field. */
  lemma SkipEncoded(f: Field, v: Val, t: seq<byte>)
    requires FieldOk(f) && ValOk(f, v) && SmallVal(f, v)
    ensures EncVal(f, v).ok && SkipField(EncVal(f, v).bytes + t, WireType(f.l)) == Ok((), t)
  {
    EncValOk(f, v);
    var bs := EncVal(f, v).bytes;
    match f.l
    case LBool => SkipVarintEnc(if v.b then 1 else 0, t);
    case LVarint => SkipVarintEnc(ToUnsigned(v.i, U64), t);
    case LUVarint => SkipVarintEnc(v.i, t);
    case LSVarint => SkipVarintEnc(ZigZag(v.i), t);
    case LFixed32 => assert (bs + t)[4..] == t;
    case LFixed64 => assert (bs + t)[8..] == t;
    case LBytes => PrefixedRoundTrip(v.bs, t);
    case LString => PrefixedRoundTrip(v.bs[..StrLen(v.bs)], t);
    case LFixedBytes => PrefixedRoundTrip(v.bs, t);
    case LSub(fields) => PrefixedRoundTrip(Encode(fields, v.slots).bytes, t);
  }

  /** What one program encodes for a field another program does not know is a record the other one ignores. */
  lemma EncodedFieldIsUnknown(fs: seq<Field>, f: Field, v: Val)
    requires FieldOk(f) && ValOk(f, v) && SmallVal(f, v) && FindTag(fs, f.tag) == |fs|
    ensures UnknownRecord(fs, TagFor(f) + EncVal(f, v).bytes)
  {
    var bs := EncVal(f, v).bytes;
    TagRoundTrip(WireType(f.l), f.tag, bs);
    SkipEncoded(f, v, []);
    assert bs + [] == bs;
  }

  // ---------- required fields ----------

  /** The tags of the records the field loop reads, in order. */
  ghost function RecordTags(fs: seq<Field>, s: seq<byte>, m: seq<Slot>): seq<nat>
    requires |m| == |fs|
    decreases |s|
  {
    if s == [] then []
    else
      match DecTag(s)
      case TagFail => []
      case TagEnd(_) => []
      case TagOk(tag, wireType, p) =>
        var i := FindTag(fs, tag);
        if fs == [] && tag == 0 then
          (match Varint32Dec(p) case Fail => [] case Ok(_, rest) => [tag] + RecordTags(fs, rest, m))
        else if i == |fs| then
          (match SkipField(p, wireType) case Fail => [] case Ok(_, rest) => [tag] + RecordTags(fs, rest, m))
        else
          match DecField(fs[i], wireType, p, m[Cell(fs, i)])
          case Fail => []
          case Ok(slot, rest) => [tag] + RecordTags(fs, rest, m[Cell(fs, i) := slot])
  }

  ghost function RequiredIn(fs: seq<Field>, tags: seq<nat>): set<nat> {
    set i | 0 <= i < |fs| && fs[i].h.Required? && fs[i].tag in tags
  }

  lemma RequiredInCons(fs: seq<Field>, tag: nat, tags: seq<nat>)
    requires DistinctTags(fs)
    ensures var i := FindTag(fs, tag);
            RequiredIn(fs, [tag] + tags) == (if i < |fs| then Mark(fs, i) else {}) + RequiredIn(fs, tags)
  {
    forall k | 0 <= k < |fs| && fs[k].tag == tag ensures k == FindTag(fs, tag) { FindTagAt(fs, k); }
  }

  lemma {:induction false} SeenIsRequiredIn(fs: seq<Field>, s: seq<byte>, m: seq<Slot>, seen: set<nat>)
    requires |m| == |fs| && DistinctTags(fs) && DecLoop(fs, s, m, seen).LoopDone?
    ensures DecLoop(fs, s, m, seen).seen == seen + RequiredIn(fs, RecordTags(fs, s, m))
    decreases |s|
  {
    if s != [] && DecTag(s).TagOk? {
      var tag, p := DecTag(s).tag, DecTag(s).rest;
      var i := FindTag(fs, tag);
      RequiredInCons(fs, tag, RecordTags(fs, s, m)[1..]);
      if fs == [] && tag == 0 {
        SeenIsRequiredIn(fs, Varint32Dec(p).rest, m, seen);
      } else if i == |fs| {
        SeenIsRequiredIn(fs, SkipField(p, DecTag(s).wireType).rest, m, seen);
      } else {
        var r := DecField(fs[i], DecTag(s).wireType, p, m[Cell(fs, i)]);
        SeenIsRequiredIn(fs, r.rest, m[Cell(fs, i) := r.value], seen + Mark(fs, i));
      }
    }
  }

  /** The required fields in front of the `i`-th field */
  ghost function RequiredBefore(fs: seq<Field>, i: nat): set<nat>
    requires i <= |fs|
  {
    set k: nat | k < i && fs[k].h.Required?
  }

  lemma {:induction false} RequiredIndexCounts(fs: seq<Field>, i: nat)
    requires i <= |fs|
    ensures RequiredIndex(fs, i) == |RequiredBefore(fs, i)|
  {
    if i > 0 {
      RequiredIndexCounts(fs, i - 1);
      var before := RequiredBefore(fs, i - 1);
      assert RequiredBefore(fs, i) == if fs[i - 1].h.Required? then before + {i - 1} else before;
    }
  }

  /** Once the loop has ended, decoding succeeds exactly when each of the first 64 required fields occurred. */
  lemma RequiredFieldsExact(fs: seq<Field>, s: seq<byte>, m: seq<Slot>)
    requires |m| == |fs| && DistinctTags(fs) && DecLoop(fs, s, m, {}).LoopDone?
    ensures DecInto(fs, s, m).Ok?
            <==> forall i :: 0 <= i < |fs| && fs[i].h.Required? && |RequiredBefore(fs, i)| < 64
                             ==> fs[i].tag in RecordTags(fs, s, m)
  {
    SeenIsRequiredIn(fs, s, m, {});
    forall i | 0 <= i < |fs| ensures RequiredIndex(fs, i) == |RequiredBefore(fs, i)| { RequiredIndexCounts(fs, i); }
  }
}
