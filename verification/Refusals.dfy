/**
 When pb_encode fails. Any struct of the C types may be handed to it; with room for everything it fails exactly when a
 field it has to write counts more entries than its array has, or holds more bytes than its buffer, at any depth.
 */
module Refusals {
  import opened Wire
  import opened Message
  import opened Encoding
  import opened RoundTrip

  // ---------- what a C struct can hold ----------

  /** A value of the C type of the field; counts and sizes may be anything. */
  predicate Typed(f: Field, v: Val)
    decreases f, 0
  {
    match f.l
    case LBool => v.VBool?
    case LVarint => v.VInt? && IntSize(f.dataSize) && InSigned(v.i, f.dataSize)
    case LUVarint => v.VInt? && IntSize(f.dataSize) && InUnsigned(v.i, f.dataSize)
    case LSVarint => v.VInt? && IntSize(f.dataSize) && InSigned(v.i, f.dataSize)
    case LFixed32 => v.VInt? && InUnsigned(v.i, 4)
    case LFixed64 => v.VInt? && InUnsigned(v.i, 8)
    case LSub(fields) => v.VMsg? && TypedMsg(fields, v.slots)
    case _ => v.VBytes?
  }

  predicate TypedSlot(f: Field, s: Slot)
    decreases f, 1
  {
    match f.h
    case Optional => s.SOpt? && Typed(f, s.v)
    case Repeated(_) => s.SRep? && forall k :: 0 <= k < |s.items| ==> Typed(f, s.items[k])
    case Oneof => s.SUnion? && (s.which == f.tag ==> Typed(f, s.v))
    case _ => s.SVal? && Typed(f, s.v)
  }

  predicate TypedMsg(fs: seq<Field>, m: seq<Slot>)
    decreases fs, 2
  {
    |m| == |fs| && forall i :: 0 <= i < |fs| ==> TypedSlot(fs[i], m[Cell(fs, i)])
  }

  // ---------- what the encoder can write ----------

  /** Bytes of which the buffer, one pb_size_t in front of them included, has room; every entry of a submessage. */
  predicate Writable(f: Field, v: Val)
    decreases f, 0
  {
    match f.l
    case LBytes =>
      v.VBytes? && |v.bs| + (if PB_SIZE_MAX == 0xFF then 1 else if PB_SIZE_MAX == 0xFFFF then 2 else 4) <= f.dataSize
    case LSub(fields) => v.VMsg? && WritableMsg(fields, v.slots)
    case _ => true
  }

  predicate WritableSlot(f: Field, s: Slot)
    decreases f, 1
  {
    match f.h
    case Required => s.SVal? && Writable(f, s.v)
    case Singular => IsDefault(f, s) || (s.SVal? && Writable(f, s.v))
    case Optional => s.SOpt? && (s.has ==> Writable(f, s.v))
    case Repeated(n) => s.SRep? && |s.items| <= n && forall k :: 0 <= k < |s.items| ==> Writable(f, s.items[k])
    case Oneof => s.SUnion? && (s.which == f.tag ==> Writable(f, s.v))
  }

  predicate WritableMsg(fs: seq<Field>, m: seq<Slot>)
    decreases fs, 2
  {
    |m| == |fs| && forall i :: 0 <= i < |fs| ==> WritableSlot(fs[i], m[Cell(fs, i)])
  }

  // ---------- it fails on anything else ----------

  lemma TypedInt64(i: int, size: nat)
    requires IntSize(size) && InSigned(i, size)
    ensures IsInt64(i)
  {
    SignedRoundTrip(i, size);
  }

  lemma {:induction false} ValRefused(f: Field, v: Val)
    requires Typed(f, v)
    ensures EncVal(f, v).ok <==> Writable(f, v)
    decreases f, 0
  {
    match f.l
    case LVarint => TypedInt64(v.i, f.dataSize);
    case LSVarint => TypedInt64(v.i, f.dataSize);
    case LSub(fields) => FromRefused(fields, v.slots, 0);
    case _ =>
  }

  lemma {:induction false} PackedWritten(f: Field, items: seq<Val>)
    requires f.Packable() && forall k :: 0 <= k < |items| ==> Typed(f, items[k])
    ensures EncPacked(f, items).ok && forall k :: 0 <= k < |items| ==> Writable(f, items[k])
    decreases f, 1, |items|
  {
    if items != [] {
      ValRefused(f, items[0]);
      PackedWritten(f, items[1..]);
      forall k | 0 <= k < |items| ensures Writable(f, items[k]) { ValRefused(f, items[k]); }
    }
  }

  lemma {:induction false} UnpackedRefused(f: Field, items: seq<Val>)
    requires forall k :: 0 <= k < |items| ==> Typed(f, items[k])
    ensures EncUnpacked(f, items).ok <==> forall k :: 0 <= k < |items| ==> Writable(f, items[k])
    decreases f, 1, |items|
  {
    if items != [] {
      ValRefused(f, items[0]);
      UnpackedRefused(f, items[1..]);
      assert forall k :: 0 < k < |items| ==> items[k] == items[1..][k - 1];
    }
  }

  lemma {:induction false} SlotRefused(f: Field, s: Slot)
    requires TypedSlot(f, s)
    ensures EncField(f, s).ok <==> WritableSlot(f, s)
    decreases f, 2
  {
    if f.h.Repeated? {
      if f.Packable() { PackedWritten(f, s.items); } else { UnpackedRefused(f, s.items); }
    } else if !f.h.Oneof? || s.which == f.tag {
      ValRefused(f, s.v);
    }
  }

  lemma {:induction false} FromRefused(fs: seq<Field>, m: seq<Slot>, i: nat)
    requires |m| == |fs| && i <= |fs| && TypedMsg(fs, m)
    ensures EncFrom(fs, m, i).ok <==> forall j :: i <= j < |fs| ==> WritableSlot(fs[j], m[Cell(fs, j)])
    decreases fs, 3, |fs| - i
  {
    if i < |fs| {
      SlotRefused(fs[i], m[Cell(fs, i)]);
      FromRefused(fs, m, i + 1);
    }
  }

  /** pb_encode succeeds exactly on structs whose counts and sizes it can write. */
  lemma EncodeFailsIff(fs: seq<Field>, m: seq<Slot>)
    requires |m| == |fs| && TypedMsg(fs, m)
    ensures Encode(fs, m).ok <==> WritableMsg(fs, m)
  {
    FromRefused(fs, m, 0);
  }
}
