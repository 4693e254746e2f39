/**
 What pb_encode emits, as a function of descriptor and struct.

 An Out says whether the encoder succeeds when there is room for everything, and which bytes it has emitted when it
 returns, successfully or not. The stream methods of StreamEncoder are proved against it.
 */
module Encoding {
  import opened Wire
  import opened Message

  datatype Out = Out(ok: bool, bytes: seq<byte>)

  const WT_VARINT: nat := 0
  const WT_64BIT: nat := 1
  const WT_STRING: nat := 2
  const WT_32BIT: nat := 5

  const NOTHING: Out := Out(true, [])
  const ERROR: Out := Out(false, [])

  function Emit(bs: seq<byte>): Out {
    Out(true, bs)
  }

  /** Run `b` after `a` unless `a` failed. */
  function Then(a: Out, b: Out): Out {
    if a.ok then Out(b.ok, a.bytes + b.bytes) else a
  }

  /** pb_encode_tag */
  function EncTag(wireType: nat, tag: nat): (s: seq<byte>)
    ensures |s| > 0
  {
    VarintEnc(8 * tag + wireType)
  }

  function WireType(l: LType): nat {
    match l
    case LFixed32 => WT_32BIT
    case LFixed64 => WT_64BIT
    case LBytes | LString | LSub(_) | LFixedBytes => WT_STRING
    case _ => WT_VARINT
  }

  /** pb_encode_tag_for_field */
  function TagFor(f: Field): (s: seq<byte>)
    ensures |s| > 0
  {
    EncTag(WireType(f.l), f.tag)
  }

  /** pb_encode_string: a length and the bytes. */
  function Prefixed(bs: seq<byte>): (s: seq<byte>)
    ensures |s| > |bs|
  {
    VarintEnc(|bs|) + bs
  }

  /** The field encoders of everything but submessages. A value of another type than the field's is no C value. */
  function EncScalar(f: Field, v: Val): Out {
    match f.l
    case LBool => if v.VBool? then Emit(VarintEnc(if v.b then 1 else 0)) else ERROR
    case LVarint =>
      if v.VInt? && IsInt64(v.i) && IntSize(f.dataSize) then Emit(VarintEnc(ToUnsigned(v.i, U64))) else ERROR
    case LUVarint => if v.VInt? && 0 <= v.i < U64 && IntSize(f.dataSize) then Emit(VarintEnc(v.i)) else ERROR
    case LSVarint => if v.VInt? && IsInt64(v.i) && IntSize(f.dataSize) then Emit(VarintEnc(ZigZag(v.i))) else ERROR
    case LFixed32 => if v.VInt? && InUnsigned(v.i, 4) then Emit(LittleEndian(4, v.i)) else ERROR
    case LFixed64 => if v.VInt? && InUnsigned(v.i, 8) then Emit(LittleEndian(8, v.i)) else ERROR
    case LBytes => if v.VBytes? && |v.bs| + BYTES_OFFSET <= f.dataSize then Emit(Prefixed(v.bs)) else ERROR
    case LString => if v.VBytes? then Emit(Prefixed(v.bs[..StrLen(v.bs)])) else ERROR
    case LFixedBytes => if v.VBytes? then Emit(Prefixed(v.bs)) else ERROR
    case LSub(_) => ERROR
  }

  /** A field encoder. A submessage is sized first: if that fails nothing is emitted, not even its length. */
  function EncVal(f: Field, v: Val): Out
    decreases f, 0
  {
    if !f.l.LSub? then EncScalar(f, v)
    else if !v.VMsg? || |v.slots| != |f.l.fields| then ERROR
    else
      var inner := EncFrom(f.l.fields, v.slots, 0);
      if inner.ok then Emit(Prefixed(inner.bytes)) else ERROR
  }

  /** The body of a packed array. */
  function EncPacked(f: Field, items: seq<Val>): Out {
    if items == [] then NOTHING else Then(EncScalar(f, items[0]), EncPacked(f, items[1..]))
  }

  /** An array whose entries each carry the tag. */
  function EncUnpacked(f: Field, items: seq<Val>): Out
    decreases f, 1, |items|
  {
    if items == [] then NOTHING
    else Then(Then(Emit(TagFor(f)), EncVal(f, items[0])), EncUnpacked(f, items[1..]))
  }

  /** encode_array */
  function EncArray(f: Field, items: seq<Val>, arraySize: nat): Out
    decreases f, 2
  {
    if items == [] then NOTHING
    else if |items| > arraySize then ERROR
    else if f.Packable() then
      var body := EncPacked(f, items);
      Then(Emit(EncTag(WT_STRING, f.tag)), if body.ok then Emit(Prefixed(body.bytes)) else ERROR)
    else EncUnpacked(f, items)
  }

  /** pb_check_proto3_default_value */
  predicate IsDefault(f: Field, s: Slot)
    decreases f, 0
  {
    match f.h
    case Required => false
    case Repeated(_) => s.SRep? && s.items == []
    case Oneof => s.SUnion? && s.which == 0
    case Optional => s.SOpt? && !s.has
    case Singular =>
      && s.SVal?
      && match f.l
         case LBytes => s.v.VBytes? && s.v.bs == []
         case LString => s.v.VBytes? && (s.v.bs == [] || s.v.bs[0] == 0)
         case LFixedBytes => f.dataSize == 0
         case LSub(fields) => s.v.VMsg? && IsDefaultMsg(fields, s.v.slots)
         case _ => s.v == VBool(false) || s.v == VInt(0)
  }

  predicate IsDefaultMsg(fs: seq<Field>, m: seq<Slot>)
    decreases fs, 1
  {
    |m| == |fs| && forall i :: 0 <= i < |fs| ==> IsDefault(fs[i], m[Cell(fs, i)])
  }

  /** encode_basic_field */
  function EncField(f: Field, s: Slot): Out
    decreases f, 3
  {
    match f.h
    case Required => if s.SVal? then Then(Emit(TagFor(f)), EncVal(f, s.v)) else ERROR
    case Singular =>
      if !s.SVal? then ERROR
      else if IsDefault(f, s) then NOTHING
      else Then(Emit(TagFor(f)), EncVal(f, s.v))
    case Optional =>
      if !s.SOpt? then ERROR
      else if s.has then Then(Emit(TagFor(f)), EncVal(f, s.v))
      else NOTHING
    case Repeated(n) => if s.SRep? then EncArray(f, s.items, n) else ERROR
    case Oneof =>
      if !s.SUnion? then ERROR
      else if s.which == f.tag then Then(Emit(TagFor(f)), EncVal(f, s.v))
      else NOTHING
  }

  /** pb_encode from the `i`-th field on. */
  function EncFrom(fs: seq<Field>, m: seq<Slot>, i: nat): Out
    requires |m| == |fs| && i <= |fs|
    decreases fs, |fs| - i
  {
    if i == |fs| then NOTHING else Then(EncField(fs[i], m[Cell(fs, i)]), EncFrom(fs, m, i + 1))
  }

  /** pb_encode */
  function Encode(fs: seq<Field>, m: seq<Slot>): Out
    requires |m| == |fs|
  {
    EncFrom(fs, m, 0)
  }
}
