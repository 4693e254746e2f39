/**
 What an encoded message looks like on the wire, said without the encoder: a sequence of records, each a key, eight
 times the tag plus 0, 1, 2 or 5, and a payload. pb_encode writes exactly the records of the struct, in descriptor
 order, and a reader that knows no descriptor reads them back.
 */
module WireFormat {
  import opened Wire
  import opened Message
  import opened Encoding
  import opened Decoding
  import opened RoundTrip

  datatype Payload = Varint(u: nat) | Word64(u: nat) | Block(bs: seq<byte>) | Word32(u: nat)

  datatype Record = Record(tag: nat, payload: Payload)

  // ---------- writing and reading records ----------

  function Body(p: Payload): seq<byte> {
    match p
    case Varint(u) => VarintEnc(u)
    case Word64(u) => LittleEndian(8, u)
    case Block(bs) => VarintEnc(|bs|) + bs
    case Word32(u) => LittleEndian(4, u)
  }

  function Number(p: Payload): nat {
    match p
    case Varint(_) => 0
    case Word64(_) => 1
    case Block(_) => 2
    case Word32(_) => 5
  }

  function Write(r: Record): (s: seq<byte>)
    ensures |s| > 0
  {
    VarintEnc(8 * r.tag + Number(r.payload)) + Body(r.payload)
  }

  function WriteAll(rs: seq<Record>): seq<byte> {
    if rs == [] then [] else Write(rs[0]) + WriteAll(rs[1..])
  }

  predicate PayloadOk(p: Payload) {
    match p
    case Varint(u) => u < 0x1_0000_0000_0000_0000
    case Word64(u) => u < 0x1_0000_0000_0000_0000
    case Block(bs) => |bs| < 0x1_0000_0000_0000_0000
    case Word32(u) => u < 0x1_0000_0000
  }

  predicate RecordsOk(rs: seq<Record>) {
    forall k | 0 <= k < |rs| :: rs[k].tag < 0x2000_0000 && PayloadOk(rs[k].payload)
  }

  function ReadBody(number: nat, s: seq<byte>): (p: Parse<Payload>)
    ensures p.Ok? ==> |p.rest| <= |s|
  {
    if number == 0 then (match VarintDec(s) case Fail => Fail case Ok(u, rest) => Ok(Varint(u), rest))
    else if number == 1 && |s| >= 8 then Ok(Word64(FromLittleEndian(s[..8])), s[8..])
    else if number == 2 then
      (match VarintDec(s)
       case Fail => Fail
       case Ok(n, rest) => if |rest| < n then Fail else Ok(Block(rest[..n]), rest[n..]))
    else if number == 5 && |s| >= 4 then Ok(Word32(FromLittleEndian(s[..4])), s[4..])
    else Fail
  }

  /** A reader that knows the format and no descriptor. */
  function ReadAll(s: seq<byte>): Option<seq<Record>>
    decreases |s|
  {
    if s == [] then Some([])
    else
      match VarintDec(s)
      case Fail => None
      case Ok(key, rest) =>
        match ReadBody(key % 8, rest)
        case Fail => None
        case Ok(p, left) =>
          match ReadAll(left)
          case None => None
          case Some(rs) => Some([Record(key / 8, p)] + rs)
  }

  lemma ReadBodyOf(p: Payload, t: seq<byte>)
    requires PayloadOk(p)
    ensures ReadBody(Number(p), Body(p) + t) == Ok(p, t)
  {
    match p
    case Varint(u) => VarintRoundTrip(u, t);
    case Word64(u) =>
      ShlWords(1);
      LittleEndianRoundTrip(8, u);
      assert (LittleEndian(8, u) + t)[..8] == LittleEndian(8, u) && (LittleEndian(8, u) + t)[8..] == t;
    case Block(bs) =>
      VarintRoundTrip(|bs|, bs + t);
      assert Body(p) + t == VarintEnc(|bs|) + (bs + t);
      assert (bs + t)[..|bs|] == bs && (bs + t)[|bs|..] == t;
    case Word32(u) =>
      ShlWords(1);
      LittleEndianRoundTrip(4, u);
      assert (LittleEndian(4, u) + t)[..4] == LittleEndian(4, u) && (LittleEndian(4, u) + t)[4..] == t;
  }

  lemma NumberSmall(p: Payload)
    ensures Number(p) < 8
  {
  }

  /** Records are read back as they were written. */
  lemma {:induction false} ReadAllOf(rs: seq<Record>)
    requires RecordsOk(rs)
    ensures ReadAll(WriteAll(rs)) == Some(rs)
    decreases |rs|
  {
    hide VarintEnc, VarintDec, Body, ReadBody, Number, PayloadOk;
    if rs != [] {
      NumberSmall(rs[0].payload);
      var r, more := rs[0], WriteAll(rs[1..]);
      var key := 8 * r.tag + Number(r.payload);
      VarintRoundTrip(key, Body(r.payload) + more);
      assert WriteAll(rs) == VarintEnc(key) + (Body(r.payload) + more);
      ReadBodyOf(r.payload, more);
      ReadAllOf(rs[1..]);
      assert [r] + rs[1..] == rs;
    }
  }

  lemma {:induction false} WriteConcat(a: seq<Record>, b: seq<Record>)
    ensures WriteAll(a + b) == WriteAll(a) + WriteAll(b)
  {
    if a == [] {
      assert a + b == b;
    } else {
      assert (a + b)[1..] == a[1..] + b;
      WriteConcat(a[1..], b);
      assert Write(a[0]) + (WriteAll(a[1..]) + WriteAll(b)) == Write(a[0]) + WriteAll(a[1..]) + WriteAll(b);
    }
  }

  lemma WriteOne(r: Record)
    ensures WriteAll([r]) == Write(r)
  {
    assert [r][1..] == [];
  }

  // ---------- the records of a struct ----------

  /** Nothing in the field but zero, empty and unset; only such a proto3 field is left out. */
  predicate Unset(f: Field, s: Slot)
    requires FieldSlotOk(f, s)
    decreases f, 1
  {
    match f.h
    case Required => false
    case Optional => !s.has
    case Repeated(_) => |s.items| == 0
    case Oneof => s.which == 0
    case Singular => UnsetVal(f, s.v)
  }

  predicate UnsetVal(f: Field, v: Val)
    requires ValOk(f, v)
    decreases f, 0
  {
    match f.l
    case LBool => !v.b
    case LBytes => |v.bs| == 0
    case LString => |v.bs| == 0 || v.bs[0] == 0
    case LFixedBytes => |v.bs| == 0
    case LSub(fields) => UnsetMsg(fields, v.slots)
    case _ => v.i == 0
  }

  predicate UnsetMsg(fs: seq<Field>, m: seq<Slot>)
    decreases fs, 2
  {
    |m| == |fs| && forall i :: 0 <= i < |fs| ==> FieldSlotOk(fs[i], m[Cell(fs, i)]) && Unset(fs[i], m[Cell(fs, i)])
  }

  /** Signed integers go out as 64-bit two's complement words, whatever the size of their variable. */
  function ValPayload(f: Field, v: Val): Payload
    requires FieldOk(f) && ValOk(f, v)
    decreases f, 0
  {
    match f.l
    case LBool => Varint(if v.b then 1 else 0)
    case LVarint => Varint(if v.i < 0 then v.i + 0x1_0000_0000_0000_0000 else v.i)
    case LUVarint => Varint(v.i)
    case LSVarint => Varint(if v.i < 0 then -2 * v.i - 1 else 2 * v.i)
    case LFixed32 => Word32(v.i)
    case LFixed64 => Word64(v.i)
    case LBytes => Block(v.bs)
    case LString => Block(v.bs[..StrLen(v.bs)])
    case LSub(fields) => Block(WriteAll(RecordsFrom(fields, v.slots, 0)))
    case LFixedBytes => Block(v.bs)
  }

  function Bodies(f: Field, items: seq<Val>): seq<byte>
    requires FieldOk(f) && forall k :: 0 <= k < |items| ==> ValOk(f, items[k])
    decreases f, 1, |items|
  {
    if items == [] then [] else Body(ValPayload(f, items[0])) + Bodies(f, items[1..])
  }

  function ItemRecords(f: Field, items: seq<Val>): seq<Record>
    requires FieldOk(f) && forall k :: 0 <= k < |items| ==> ValOk(f, items[k])
    decreases f, 1, |items|
  {
    if items == [] then [] else [Record(f.tag, ValPayload(f, items[0]))] + ItemRecords(f, items[1..])
  }

  /** An array of numbers is one length-delimited record, any other array one record an entry. */
  function FieldRecords(f: Field, s: Slot): seq<Record>
    requires FieldOk(f) && FieldSlotOk(f, s)
    decreases f, 2
  {
    match f.h
    case Required => [Record(f.tag, ValPayload(f, s.v))]
    case Singular => if Unset(f, s) then [] else [Record(f.tag, ValPayload(f, s.v))]
    case Optional => if s.has then [Record(f.tag, ValPayload(f, s.v))] else []
    case Repeated(_) =>
      if |s.items| == 0 then []
      else if f.l.LBytes? || f.l.LString? || f.l.LSub? || f.l.LFixedBytes? then ItemRecords(f, s.items)
      else [Record(f.tag, Block(Bodies(f, s.items)))]
    case Oneof => if s.which == f.tag then [Record(f.tag, ValPayload(f, s.v))] else []
  }

  /** The records of the fields from the `i`-th on, in descriptor order. */
  function RecordsFrom(fs: seq<Field>, m: seq<Slot>, i: nat): seq<Record>
    requires i <= |fs| && FieldsOk(fs) && MsgOk(fs, m)
    decreases fs, 3, |fs| - i
  {
    if i == |fs| then []
    else
      SlotFits(fs, m, i);
      FieldRecords(fs[i], m[Cell(fs, i)]) + RecordsFrom(fs, m, i + 1)
  }

  function Records(fs: seq<Field>, m: seq<Slot>): seq<Record>
    requires FieldsOk(fs) && MsgOk(fs, m)
  {
    RecordsFrom(fs, m, 0)
  }

  // ---------- the encoder writes these records ----------

  lemma {:induction false} UnsetIffDefault(f: Field, s: Slot)
    requires FieldOk(f) && FieldSlotOk(f, s)
    ensures Unset(f, s) <==> IsDefault(f, s)
    decreases f, 1
  {
    if f.h.Singular? { UnsetValIffDefault(f, s.v); }
  }

  lemma {:induction false} UnsetValIffDefault(f: Field, v: Val)
    requires FieldOk(f) && ValOk(f, v) && f.h.Singular?
    ensures UnsetVal(f, v) <==> IsDefault(f, SVal(v))
    decreases f, 0
  {
    if f.l.LSub? { UnsetMsgIffDefault(f.l.fields, v.slots); }
  }

  lemma {:induction false} UnsetMsgIffDefault(fs: seq<Field>, m: seq<Slot>)
    requires FieldsOk(fs) && MsgOk(fs, m)
    ensures UnsetMsg(fs, m) <==> IsDefaultMsg(fs, m)
    decreases fs, 2
  {
    forall i | 0 <= i < |fs|
      ensures FieldSlotOk(fs[i], m[Cell(fs, i)])
      ensures Unset(fs[i], m[Cell(fs, i)]) <==> IsDefault(fs[i], m[Cell(fs, i)])
    {
      SlotFits(fs, m, i);
      UnsetIffDefault(fs[i], m[Cell(fs, i)]);
    }
  }

  lemma SignedWord(i: int, size: nat)
    requires IntSize(size) && InSigned(i, size)
    ensures IsInt64(i) && ToUnsigned(i, U64) == (if i < 0 then i + 0x1_0000_0000_0000_0000 else i)
  {
    SignedRoundTrip(i, size);
  }

  lemma {:induction false} ValWrites(f: Field, v: Val)
    requires FieldOk(f) && ValOk(f, v)
    ensures EncVal(f, v) == Emit(Body(ValPayload(f, v))) && WireType(f.l) == Number(ValPayload(f, v))
    decreases f, 0
  {
    hide VarintEnc, LittleEndian;
    match f.l
    case LVarint => SignedWord(v.i, f.dataSize);
    case LSVarint => SignedWord(v.i, f.dataSize);
    case LSub(fields) => FromWrites(fields, v.slots, 0);
    case _ =>
  }

  lemma {:induction false} BodiesWrite(f: Field, items: seq<Val>)
    requires FieldOk(f) && f.Packable() && forall k :: 0 <= k < |items| ==> ValOk(f, items[k])
    ensures EncPacked(f, items) == Emit(Bodies(f, items))
    decreases f, 1, |items|
  {
    if items != [] {
      ValWrites(f, items[0]);
      BodiesWrite(f, items[1..]);
    }
  }

  lemma {:induction false} TaggedWrites(f: Field, v: Val)
    requires FieldOk(f) && ValOk(f, v)
    ensures Then(Emit(TagFor(f)), EncVal(f, v)) == Emit(Write(Record(f.tag, ValPayload(f, v))))
    ensures WriteAll([Record(f.tag, ValPayload(f, v))]) == Write(Record(f.tag, ValPayload(f, v)))
    decreases f, 1
  {
    hide ValPayload, EncVal, VarintEnc;
    ValWrites(f, v);
    WriteOne(Record(f.tag, ValPayload(f, v)));
  }

  lemma {:induction false} ItemsWrite(f: Field, items: seq<Val>)
    requires FieldOk(f) && forall k :: 0 <= k < |items| ==> ValOk(f, items[k])
    ensures EncUnpacked(f, items) == Emit(WriteAll(ItemRecords(f, items)))
    decreases f, 2, |items|
  {
    if items != [] {
      TaggedWrites(f, items[0]);
      ItemsWrite(f, items[1..]);
      WriteConcat([Record(f.tag, ValPayload(f, items[0]))], ItemRecords(f, items[1..]));
    }
  }

  lemma {:induction false} ArrayWrites(f: Field, items: seq<Val>, n: nat)
    requires FieldOk(f) && 0 < |items| <= n && forall k :: 0 <= k < |items| ==> ValOk(f, items[k])
    ensures EncArray(f, items, n) == Emit(WriteAll(
      if f.l.LBytes? || f.l.LString? || f.l.LSub? || f.l.LFixedBytes? then ItemRecords(f, items)
      else [Record(f.tag, Block(Bodies(f, items)))]))
    decreases f, 3
  {
    if f.Packable() {
      BodiesWrite(f, items);
      WriteOne(Record(f.tag, Block(Bodies(f, items))));
    } else {
      ItemsWrite(f, items);
    }
  }

  lemma {:induction false} FieldWrites(f: Field, s: Slot)
    requires FieldOk(f) && FieldSlotOk(f, s)
    ensures EncField(f, s) == Emit(WriteAll(FieldRecords(f, s)))
    decreases f, 4
  {
    hide Write, WriteAll;
    assert WriteAll([]) == [] by { NoRecords(); }
    match f.h
    case Required => TaggedWrites(f, s.v);
    case Singular => UnsetIffDefault(f, s); TaggedWrites(f, s.v);
    case Optional => if s.has { TaggedWrites(f, s.v); }
    case Repeated(n) => if s.items != [] { ArrayWrites(f, s.items, n); }
    case Oneof => if s.which == f.tag { TaggedWrites(f, s.v); }
  }

  lemma NoRecords()
    ensures WriteAll([]) == []
  {
  }

  lemma {:induction false} FromWrites(fs: seq<Field>, m: seq<Slot>, i: nat)
    requires |m| == |fs| && i <= |fs| && FieldsOk(fs) && MsgOk(fs, m)
    ensures EncFrom(fs, m, i) == Emit(WriteAll(RecordsFrom(fs, m, i)))
    decreases fs, 5, |fs| - i
  {
    if i < |fs| {
      SlotFits(fs, m, i);
      FieldWrites(fs[i], m[Cell(fs, i)]);
      FromWrites(fs, m, i + 1);
      WriteConcat(FieldRecords(fs[i], m[Cell(fs, i)]), RecordsFrom(fs, m, i + 1));
    }
  }

  /** pb_encode writes the records of the struct, and nothing else. */
  lemma EncodeWritesRecords(fs: seq<Field>, m: seq<Slot>)
    requires |m| == |fs| && FieldsOk(fs) && MsgOk(fs, m)
    ensures Encode(fs, m).ok && Encode(fs, m).bytes == WriteAll(Records(fs, m))
  {
    FromWrites(fs, m, 0);
  }

  // ---------- and a reader without the descriptor finds them ----------

  /** Tags and numbers are in range; blocks are as long as they are. */
  predicate NumbersOk(rs: seq<Record>) {
    forall k | 0 <= k < |rs| :: rs[k].tag < 0x2000_0000 && (rs[k].payload.Block? || PayloadOk(rs[k].payload))
  }

  lemma ValNumberOk(f: Field, v: Val)
    requires FieldOk(f) && ValOk(f, v)
    ensures NumbersOk([Record(f.tag, ValPayload(f, v))])
  {
    hide WriteAll, RecordsFrom;
  }

  lemma NumbersOkConcat(a: seq<Record>, b: seq<Record>)
    requires NumbersOk(a) && NumbersOk(b)
    ensures NumbersOk(a + b)
  {
  }

  lemma {:induction false} ItemNumbersOk(f: Field, items: seq<Val>)
    requires FieldOk(f) && forall k :: 0 <= k < |items| ==> ValOk(f, items[k])
    ensures NumbersOk(ItemRecords(f, items))
  {
    if items != [] {
      ValNumberOk(f, items[0]);
      ItemNumbersOk(f, items[1..]);
    }
  }

  lemma {:induction false} FromNumbersOk(fs: seq<Field>, m: seq<Slot>, i: nat)
    requires i <= |fs| && FieldsOk(fs) && MsgOk(fs, m)
    ensures NumbersOk(RecordsFrom(fs, m, i))
    decreases |fs| - i
  {
    if i < |fs| {
      SlotFits(fs, m, i);
      var f, s := fs[i], m[Cell(fs, i)];
      if s.SRep? { ItemNumbersOk(f, s.items); } else if f.h.Oneof? ==> s.which == f.tag { ValNumberOk(f, s.v); }
      FromNumbersOk(fs, m, i + 1);
      NumbersOkConcat(FieldRecords(f, s), RecordsFrom(fs, m, i + 1));
    }
  }

  lemma {:induction false} BlocksInside(rs: seq<Record>)
    requires NumbersOk(rs) && |WriteAll(rs)| < U64
    ensures RecordsOk(rs)
  {
    if rs != [] { BlocksInside(rs[1..]); }
  }

  /** Reading an encoded message by its keys alone gives the records of the struct. */
  lemma EncodedRecords(fs: seq<Field>, m: seq<Slot>)
    requires |m| == |fs| && FieldsOk(fs) && MsgOk(fs, m) && |Encode(fs, m).bytes| < U64
    ensures Encode(fs, m).ok && ReadAll(Encode(fs, m).bytes) == Some(Records(fs, m))
  {
    EncodeWritesRecords(fs, m);
    FromNumbersOk(fs, m, 0);
    BlocksInside(Records(fs, m));
    ReadAllOf(Records(fs, m));
  }

  // ---------- the bytes of numbers ----------

  /** The `k`-th group of seven bits of a number. */
  function Septet(v: nat, k: nat): nat {
    if k == 0 then v % 128 else Septet(v / 128, k - 1)
  }

  /** The groups come least significant first, and all bytes but the last have their top bit set. */
  lemma {:induction false} VarintAt(v: nat, k: nat)
    requires k < |VarintEnc(v)|
    ensures VarintEnc(v)[k] == Septet(v, k) + (if k < |VarintEnc(v)| - 1 then 128 else 0)
    decreases k
  {
    if k > 0 { VarintAt(v / 128, k - 1); }
  }

  lemma {:induction false} LongVarint(v: nat, k: nat)
    requires v >= Shl(1, 7 * k)
    ensures |VarintEnc(v)| > k
    decreases k
  {
    if k > 0 {
      Shl7(1, 7 * (k - 1));
      ShlOneMonotone(0, 7 * (k - 1));
      LongVarint(v / 128, k - 1);
    }
  }

  /** Words from 2^63 on, and so all negative integers, take ten bytes. */
  lemma TenBytes(u: nat)
    requires 0x8000_0000_0000_0000 <= u < U64
    ensures |VarintEnc(u)| == 10
  {
    ShlWords(1);
    LongVarint(u, 9);
    VarintLength(u);
  }

  /** A message of one required field. */
  lemma OneFieldMessage(f: Field, v: Val)
    requires FieldsOk([f]) && f.h.Required? && ValOk(f, v)
    ensures MsgOk([f], [SVal(v)]) && Encode([f], [SVal(v)]) == Emit(Write(Record(f.tag, ValPayload(f, v))))
  {
    assert SlotOk([f], 0, [SVal(v)][0]);
    assert FieldOk([f][0]);
    EncodeWritesRecords([f], [SVal(v)]);
    var one := [Record(f.tag, ValPayload(f, v))];
    assert FieldRecords(f, SVal(v)) == one;
    assert RecordsFrom([f], [SVal(v)], 0) == FieldRecords(f, SVal(v)) + RecordsFrom([f], [SVal(v)], 1);
    assert Records([f], [SVal(v)]) == one;
    WriteOne(Record(f.tag, ValPayload(f, v)));
  }

  /**
   A signed integer of whatever size is followed by nothing but the varint of its 64-bit two's complement word, which
   takes ten bytes when it is negative.
   */
  lemma SignedOnTheWire(f: Field, i: int) returns (word: seq<byte>)
    requires FieldsOk([f]) && f.h.Required? && f.l.LVarint? && InSigned(i, f.dataSize)
    ensures Encode([f], [SVal(VInt(i))]).ok && Encode([f], [SVal(VInt(i))]).bytes == VarintEnc(8 * f.tag) + word
    ensures VarintDec(word) == Ok(if i < 0 then i + 0x1_0000_0000_0000_0000 else i, [])
    ensures i < 0 ==> |word| == 10
  {
    OneFieldMessage(f, VInt(i));
    SignedWord(i, f.dataSize);
    var u := if i < 0 then i + 0x1_0000_0000_0000_0000 else i;
    word := VarintEnc(u);
    VarintRoundTrip(u, []);
    assert word + [] == word;
    if i < 0 { TenBytes(u); }
  }

  /** A bool is one byte, 0 or 1. */
  lemma BoolOnTheWire(f: Field, b: bool)
    requires FieldsOk([f]) && f.h.Required? && f.l.LBool?
    ensures Encode([f], [SVal(VBool(b))]) == Emit(VarintEnc(8 * f.tag) + [if b then 1 else 0])
  {
    OneFieldMessage(f, VBool(b));
  }
}
