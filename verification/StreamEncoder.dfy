/**
 pb_ostream_t and the encoder that writes to it, in place.

 A stream either writes into a buffer with a size limit or only counts (PB_OSTREAM_SIZING). Every method is proved to
 emit what Encoding says: all of it when there is room, and otherwise a prefix within the limit.
 */
module StreamEncoder {
  import opened Wire
  import opened Message
  import opened Encoding
  import opened FieldIterator
  import opened RoundTrip

  /** The state of a stream: `mem` is the buffer, `pos` the write pointer into it. */
  datatype Snap = Snap(sizing: bool, mem: seq<byte>, pos: nat, maxSize: nat, written: nat) {
    predicate Valid() {
      !sizing ==> written <= maxSize && pos + (maxSize - written) <= |mem|
    }
  }

  /** How many bytes went out between two states. */
  function Count(s0: Snap, s1: Snap): int {
    s1.written - s0.written
  }

  /**
   From `s0` to `s1` an operation that should emit `e` ran and reported `ok`. A sizing run counts exactly when `e`
   succeeds. A writing run succeeds exactly when `e` does and fits; whatever happens it appends a prefix of `e`.
   */
  ghost predicate Step(s0: Snap, s1: Snap, e: Out, ok: bool) {
    && s1.sizing == s0.sizing && s1.maxSize == s0.maxSize && s1.Valid()
    && if s0.sizing then ok == e.ok && s1.mem == s0.mem && s1.pos == s0.pos && (ok ==> Count(s0, s1) == |e.bytes|)
       else
         && ok == (e.ok && s0.written + |e.bytes| <= s0.maxSize)
         && 0 <= Count(s0, s1) <= |e.bytes|
         && (ok ==> Count(s0, s1) == |e.bytes|)
         && s1.pos == s0.pos + Count(s0, s1)
         && s0.pos + Count(s0, s1) <= |s0.mem|
         && s1.mem == Patched(s0.mem, s0.pos, e.bytes[..Count(s0, s1)])
  }

  /** `mem` with `bs` written at `pos`. */
  function Patched(mem: seq<byte>, pos: nat, bs: seq<byte>): (r: seq<byte>)
    requires pos + |bs| <= |mem|
    ensures |r| == |mem|
  {
    mem[..pos] + bs + mem[pos + |bs|..]
  }

  lemma PatchTwice(mem: seq<byte>, pos: nat, a: seq<byte>, b: seq<byte>)
    requires pos + |a| + |b| <= |mem|
    ensures Patched(Patched(mem, pos, a), pos + |a|, b) == Patched(mem, pos, a + b)
  {
  }

  lemma PatchOne(mem: seq<byte>, pos: nat, bs: seq<byte>, i: nat)
    requires pos + |bs| <= |mem| && i < |bs|
    ensures Patched(mem, pos, bs[..i])[pos + i := bs[i]] == Patched(mem, pos, bs[..i + 1])
  {
  }

  lemma StepNothing(s: Snap)
    requires s.Valid()
    ensures Step(s, s, NOTHING, true)
  {
    if !s.sizing { assert s.mem == Patched(s.mem, s.pos, []); }
  }

  /** Two operations in a row emit both outputs in a row. */
  lemma StepThen(s0: Snap, s1: Snap, s2: Snap, a: Out, b: Out, ok: bool)
    requires s0.Valid() && Step(s0, s1, a, true) && Step(s1, s2, b, ok)
    ensures Step(s0, s2, Then(a, b), ok)
  {
    if !s0.sizing {
      var k := Count(s1, s2);
      PatchTwice(s0.mem, s0.pos, a.bytes, b.bytes[..k]);
      assert a.bytes[..|a.bytes|] == a.bytes;
      assert (a.bytes + b.bytes)[..|a.bytes| + k] == a.bytes + b.bytes[..k];
    }
  }

  /** An operation that failed: what should follow was not even tried. */
  lemma StepFailed(s0: Snap, s1: Snap, a: Out, b: Out)
    requires s0.Valid() && Step(s0, s1, a, false)
    ensures Step(s0, s1, Then(a, b), false)
  {
    if !s0.sizing && a.ok {
      assert (a.bytes + b.bytes)[..Count(s0, s1)] == a.bytes[..Count(s0, s1)];
    }
  }

  lemma StepError(s: Snap)
    requires s.Valid()
    ensures Step(s, s, ERROR, false)
  {
    if !s.sizing { assert s.mem == Patched(s.mem, s.pos, []); }
  }

  /** No byte is emitted into a stream with too little room left. */
  lemma StepFull(s: Snap, e: Out)
    requires s.Valid() && !s.sizing && s.written + |e.bytes| > s.maxSize
    ensures Step(s, s, e, false)
  {
    assert e.bytes[..0] == [] && s.mem == Patched(s.mem, s.pos, []);
  }

  /** One iteration of a loop that emits `total`: `done` so far, `e` now, `rest` later. */
  lemma StepIteration(s0: Snap, s1: Snap, s2: Snap, done: Out, e: Out, rest: Out, total: Out, ok: bool)
    requires s0.Valid() && Step(s0, s1, done, true) && Step(s1, s2, e, ok) && Then(done, Then(e, rest)) == total
    ensures ok ==> Step(s0, s2, Then(done, e), true) && Then(Then(done, e), rest) == total
    ensures !ok ==> Step(s0, s2, total, false)
  {
    ThenAssociate(done, e, rest);
    StepThen(s0, s1, s2, done, e, ok);
    if !ok { StepFailed(s0, s2, Then(done, e), rest); }
  }

  lemma ThenAssociate(a: Out, b: Out, c: Out)
    ensures Then(a, Then(b, c)) == Then(Then(a, b), c)
  {
    if a.ok && b.ok { assert a.bytes + (b.bytes + c.bytes) == a.bytes + b.bytes + c.bytes; }
  }

  lemma NothingThen(a: Out)
    ensures Then(NOTHING, a) == a
  {
  }

  lemma EncFromEnd(fs: seq<Field>, m: seq<Slot>)
    requires |m| == |fs|
    ensures EncFrom(fs, m, |fs|) == NOTHING
  {
  }

  lemma ThenNothing(a: Out)
    ensures Then(a, NOTHING) == a
  {
    assert a.bytes + [] == a.bytes;
  }

  /**
   The same operation run on a sizing stream and on a buffer: the second succeeds exactly when the first does and the
   count it gave fits; then it writes that many bytes. Otherwise what was written is a prefix of the full encoding, the
   limit holds, and no byte outside the stretch written has changed.
   */
  lemma SizingAgreesWithWriting(s0: Snap, s1: Snap, w0: Snap, w1: Snap, e: Out, sized: bool, wrote: bool)
    requires s0.sizing && Step(s0, s1, e, sized) && w0.Valid() && !w0.sizing && Step(w0, w1, e, wrote)
    ensures wrote <==> sized && w0.written + Count(s0, s1) <= w0.maxSize
    ensures wrote ==> Count(w0, w1) == Count(s0, s1) && w1.mem[w0.pos..w1.pos] == e.bytes
    ensures w1.written <= w1.maxSize && w0.pos <= w1.pos <= |w1.mem| == |w0.mem|
    ensures w1.mem[w0.pos..w1.pos] <= e.bytes
    ensures w1.mem[..w0.pos] == w0.mem[..w0.pos] && w1.mem[w1.pos..] == w0.mem[w1.pos..]
  {
    var bs := e.bytes[..Count(w0, w1)];
    assert w1.mem[w0.pos..w1.pos] == bs;
    assert e.bytes[..|e.bytes|] == e.bytes;
  }

  lemma FieldsFrom(fs: seq<Field>, m: seq<Slot>, i: nat)
    requires |m| == |fs| && i < |fs| && HeldMsg(fs, m)
    ensures fs[i].tag < MAX_TAG && HeldSlot(fs[i], m[Cell(fs, i)])
    ensures EncFrom(fs, m, i) == Then(EncField(fs[i], m[Cell(fs, i)]), EncFrom(fs, m, i + 1))
  {
  }

  /** One tag and one value. */
  function TaggedEntry(f: Field, v: Val): Out {
    Then(Emit(TagFor(f)), EncVal(f, v))
  }

  lemma ArrayFrom(f: Field, items: seq<Val>, i: nat)
    requires i < |items|
    ensures EncPacked(f, items[i..]) == Then(EncScalar(f, items[i]), EncPacked(f, items[i + 1..]))
    ensures EncUnpacked(f, items[i..])
         == Then(TaggedEntry(f, items[i]), EncUnpacked(f, items[i + 1..]))
  {
    assert items[i..][1..] == items[i + 1..];
  }

  lemma {:induction false} FixedBody(f: Field, items: seq<Val>)
    requires f.l.LFixed32? || f.l.LFixed64?
    requires forall k :: 0 <= k < |items| ==> EncScalar(f, items[k]).ok
    ensures EncPacked(f, items).ok
    ensures |EncPacked(f, items).bytes| == if f.l.LFixed32? then 4 * |items| else 8 * |items|
  {
    if items != [] {
      assert EncScalar(f, items[0]).ok;
      FixedBody(f, items[1..]);
    }
  }

  // ---------- what C variables can hold ----------

  /**
   Fixed-width numbers fit their variable, and every size that is computed, at every level of nesting, fits the 64-bit
   size_t it is computed in. Nothing is asked of values the encoder does not look at.
   */
  predicate HeldVal(f: Field, v: Val)
    decreases f, 0
  {
    && (f.l.LFixed32? ==> v.VInt? && InUnsigned(v.i, 4))
    && (f.l.LFixed64? ==> v.VInt? && InUnsigned(v.i, 8))
    && (v.VBytes? ==> |v.bs| < U64)
    && (v.VMsg? && f.l.LSub? && |v.slots| == |f.l.fields|
        ==> |Encoding.Encode(f.l.fields, v.slots).bytes| < U64 && HeldMsg(f.l.fields, v.slots))
  }

  predicate HeldSlot(f: Field, s: Slot)
    decreases f, 1
  {
    match s
    case SVal(v) => (f.h.Singular? && IsDefault(f, s)) || HeldVal(f, v)
    case SOpt(has, v) => has ==> HeldVal(f, v)
    case SRep(items) =>
      && (f.Packable() ==> |EncPacked(f, items).bytes| < U64)
      && forall k :: 0 <= k < |items| ==> HeldVal(f, items[k])
    case SUnion(which, v) => which == f.tag ==> HeldVal(f, v)
    case SPad => true
  }

  predicate HeldMsg(fs: seq<Field>, m: seq<Slot>)
    requires |m| == |fs|
    decreases fs, 2
  {
    forall i :: 0 <= i < |fs| ==> fs[i].tag < MAX_TAG && HeldSlot(fs[i], m[Cell(fs, i)])
  }

  lemma {:induction false} ConformingValHeld(f: Field, v: Val)
    requires FieldOk(f) && ValOk(f, v) && SmallVal(f, v)
    ensures HeldVal(f, v)
    decreases f, 0
  {
    if f.l.LSub? {
      SmallInside(f.l.fields, v.slots);
      ConformingHeld(f.l.fields, v.slots);
    }
  }

  /** A conforming struct without lengths of 2^32 and more meets every requirement of the encoder. */
  lemma {:induction false} ConformingHeld(fs: seq<Field>, m: seq<Slot>)
    requires |m| == |fs| && FieldsOk(fs) && MsgOk(fs, m) && SmallMsg(fs, m)
    ensures HeldMsg(fs, m)
    decreases fs, 1
  {
    forall i | 0 <= i < |fs| ensures fs[i].tag < MAX_TAG && HeldSlot(fs[i], m[Cell(fs, i)]) {
      SlotFits(fs, m, i);
      assert SmallSlot(fs[i], m[Cell(fs, i)]);
      ConformingSlotHeld(fs[i], m[Cell(fs, i)]);
    }
  }

  lemma {:induction false} ConformingSlotHeld(f: Field, s: Slot)
    requires FieldOk(f) && FieldSlotOk(f, s) && SmallSlot(f, s)
    ensures HeldSlot(f, s)
    decreases f, 1
  {
    match s
    case SVal(v) => if !(f.h.Singular? && IsDefault(f, s)) { ConformingValHeld(f, v); }
    case SOpt(has, v) => if has { ConformingValHeld(f, v); }
    case SRep(items) =>
      forall k | 0 <= k < |items| ensures HeldVal(f, items[k]) {
        assert f.Packable() ==> PayloadLen(f, items[k]) == 0;
        ConformingValHeld(f, items[k]);
      }
    case SUnion(which, v) => if which == f.tag { ConformingValHeld(f, v); }
    case SPad =>
  }

  /** The strnlen loop of pb_enc_string */
  method StringLength(bs: seq<byte>) returns (size: nat)
    ensures size == StrLen(bs)
  {
    size := 0;
    while size < |bs| && bs[size] != 0
      invariant size <= |bs| && size <= StrLen(bs)
    {
      size := size + 1;
    }
  }

  /** pb_check_proto3_default_value */
  method CheckDefault(f: Field, s: Slot) returns (isDefault: bool)
    ensures isDefault == IsDefault(f, s)
    decreases f, 1
  {
    match f.h
    case Required => return false;
    case Repeated(_) => return s.SRep? && s.items == [];
    case Oneof => return s.SUnion? && s.which == 0;
    case Optional => return s.SOpt? && !s.has;
    case Singular =>
      if !s.SVal? { return false; }
      match f.l {
        case LBytes => return s.v.VBytes? && s.v.bs == [];
        case LString => return s.v.VBytes? && (s.v.bs == [] || s.v.bs[0] == 0);
        case LFixedBytes => return f.dataSize == 0;
        case LSub(fields) =>
          if !s.v.VMsg? || |s.v.slots| != |fields| { return false; }
          isDefault := CheckDefaultMessage(fields, s.v.slots);
        case _ => return s.v == VBool(false) || s.v == VInt(0);
      }
  }

  /** Its loop over the fields of a submessage. */
  method CheckDefaultMessage(fs: seq<Field>, m: seq<Slot>) returns (isDefault: bool)
    requires |m| == |fs|
    ensures isDefault == IsDefaultMsg(fs, m)
    decreases fs, 0
  {
    hide FieldIter.Derived;
    var iter := new FieldIter(fs, 0);
    var more := fs != [];
    while more
      invariant iter.Valid() && iter.fields == fs && (more ==> fs != [])
      invariant forall i :: 0 <= i < |fs| && (!more || i < iter.pos) ==> IsDefault(fs[i], m[Cell(fs, i)])
      decreases more, |fs| - iter.pos
    {
      isDefault := CheckDefault(fs[iter.pos], m[Cell(fs, iter.pos)]);
      if !isDefault { return; }
      more := iter.Next();
    }
    return true;
  }

  /** The loop of pb_encode_varint */
  method FillVarint(v: nat, buffer: array<byte>) returns (i: nat)
    requires v != 0 && |VarintEnc(v)| <= buffer.Length
    modifies buffer
    ensures i <= buffer.Length && buffer[..i] == VarintEnc(v)
  {
    var value := v;
    i := 0;
    while value != 0
      invariant i <= |VarintEnc(v)|
      invariant value != 0 ==> VarintEnc(v) == buffer[..i] + VarintEnc(value)
      invariant value == 0 ==> i > 0 && buffer[i - 1] >= 128 && VarintEnc(v) == buffer[..i - 1] + [buffer[i - 1] - 128]
    {
      ghost var before := buffer[..i];
      buffer[i] := value % 128 + 128;
      assert buffer[..i] == before && buffer[..i + 1] == before + [value % 128 + 128];
      value := value / 128;
      i := i + 1;
    }
    buffer[i - 1] := buffer[i - 1] - 128;
  }

  class OStream {
    const buf: array<byte>
    const sizing: bool
    var pos: nat
    var maxSize: nat
    var bytesWritten: nat

    ghost function S(): Snap
      reads this, buf
    {
      Snap(sizing, buf[..], pos, maxSize, bytesWritten)
    }

    ghost predicate Valid()
      reads this, buf
    {
      S().Valid()
    }

    /** pb_ostream_from_buffer */
    constructor FromBuffer(buf: array<byte>, size: nat)
      requires size <= buf.Length
      ensures Valid() && this.buf == buf && S() == Snap(false, buf[..], 0, size, 0)
    {
      this.buf := buf;
      sizing := false;
      pos, maxSize, bytesWritten := 0, size, 0;
    }

    /** PB_OSTREAM_SIZING: no buffer at all */
    constructor Sizing()
      ensures Valid() && fresh(buf) && S().sizing && bytesWritten == 0
    {
      buf := new byte[0];
      sizing := true;
      pos, maxSize, bytesWritten := 0, 0, 0;
    }

    /** The substream pb_encode_submessage writes through: the parent's buffer from its write pointer on. */
    constructor Within(parent: OStream, size: nat)
      requires !parent.sizing && parent.pos + size <= parent.buf.Length
      ensures Valid() && buf == parent.buf && S() == Snap(false, buf[..], parent.pos, size, 0)
    {
      buf := parent.buf;
      sizing := false;
      pos, maxSize, bytesWritten := parent.pos, size, 0;
    }

    /** buf_write */
    method BufWrite(bs: seq<byte>)
      requires pos + |bs| <= buf.Length
      modifies this`pos, buf
      ensures pos == old(pos) + |bs| && buf[..] == Patched(old(buf[..]), old(pos), bs)
    {
      var dest := pos;
      pos := dest + |bs|;
      var i := 0;
      while i < |bs|
        modifies buf
        invariant i <= |bs| && buf[..] == Patched(old(buf[..]), dest, bs[..i])
      {
        buf[dest + i] := bs[i];
        PatchOne(old(buf[..]), dest, bs, i);
        i := i + 1;
      }
      assert bs[..|bs|] == bs;
    }

    /** pb_write. A sizing stream is given only the count. */
    method Write(bs: seq<byte>) returns (ok: bool)
      requires Valid()
      modifies this, buf
      ensures Step(old(S()), S(), Emit(bs), ok)
    {
      StepNothing(S());
      if |bs| > 0 && !sizing {
        if bytesWritten + |bs| > maxSize {
          assert Emit(bs).bytes[..0] == [];
          return false;
        }
        BufWrite(bs);
      }
      bytesWritten := bytesWritten + |bs|;
      assert bs[..|bs|] == bs;
      return true;
    }

    /** pb_encode_varint: the bytes are gathered in a local buffer of ten. */
    method EncodeVarint(v: nat) returns (ok: bool)
      requires Valid() && v < U64
      modifies this, buf
      ensures Step(old(S()), S(), Emit(VarintEnc(v)), ok)
    {
      if v <= 0x7F {
        ok := Write([v]);
        return;
      }
      VarintLength(v);
      var buffer := new byte[10](_ => 0);
      var i := FillVarint(v, buffer);
      ok := Write(buffer[..i]);
    }

    /** pb_write without data: what the encoder does on a sizing stream once it knows the size. */
    method WriteCount(n: nat, ghost bs: seq<byte>)
      requires Valid() && sizing && n == |bs|
      modifies this
      ensures Step(old(S()), S(), Emit(bs), true)
    {
      bytesWritten := bytesWritten + n;
    }

    /** pb_encode_svarint */
    method EncodeSVarint(i: int) returns (ok: bool)
      requires Valid() && IsInt64(i)
      modifies this, buf
      ensures Step(old(S()), S(), Emit(VarintEnc(ZigZag(i))), ok)
    {
      var zigzagged;
      if i < 0 {
        zigzagged := U64 - 1 - 2 * (i + U64) % U64;
      } else {
        zigzagged := 2 * i % U64;
      }
      ok := EncodeVarint(zigzagged);
    }

    /** pb_encode_fixed32 */
    method EncodeFixed32(val: nat) returns (ok: bool)
      requires Valid() && val < U32
      modifies this, buf
      ensures Step(old(S()), S(), Emit(LittleEndian(4, val)), ok)
    {
      var bytes := [ByteAt(val, 0), ByteAt(val, 1), ByteAt(val, 2), ByteAt(val, 3)];
      forall k | 0 <= k < 4 ensures bytes[k] == LittleEndian(4, val)[k] { LittleEndianAt(4, val, k); }
      ok := Write(bytes);
    }

    /** pb_encode_fixed64 */
    method EncodeFixed64(val: nat) returns (ok: bool)
      requires Valid() && val < U64
      modifies this, buf
      ensures Step(old(S()), S(), Emit(LittleEndian(8, val)), ok)
    {
      var bytes := [ByteAt(val, 0), ByteAt(val, 1), ByteAt(val, 2), ByteAt(val, 3),
                    ByteAt(val, 4), ByteAt(val, 5), ByteAt(val, 6), ByteAt(val, 7)];
      forall k | 0 <= k < 8 ensures bytes[k] == LittleEndian(8, val)[k] { LittleEndianAt(8, val, k); }
      ok := Write(bytes);
    }

    /** pb_encode_tag */
    method EncodeTag(wireType: nat, tag: nat) returns (ok: bool)
      requires Valid() && wireType < 8 && tag < U32
      modifies this, buf
      ensures Step(old(S()), S(), Emit(EncTag(wireType, tag)), ok)
    {
      ok := EncodeVarint(8 * tag + wireType);
    }

    /** pb_encode_string */
    method EncodeString(bs: seq<byte>) returns (ok: bool)
      requires Valid() && |bs| < U64
      modifies this, buf
      ensures Step(old(S()), S(), Emit(Prefixed(bs)), ok)
    {
      ghost var s0 := S();
      ok := EncodeVarint(|bs|);
      ghost var s1 := S();
      if !ok {
        StepFailed(s0, s1, Emit(VarintEnc(|bs|)), Emit(bs));
        return;
      }
      ok := Write(bs);
      StepThen(s0, s1, S(), Emit(VarintEnc(|bs|)), Emit(bs), ok);
    }

    /** The encoders of the three kinds of integer: each knows the sizes its field may have. */
    method EncodeInteger(f: Field, v: Val) returns (ok: bool)
      requires Valid() && HeldVal(f, v) && (f.l.LVarint? || f.l.LUVarint? || f.l.LSVarint?)
      modifies this, buf
      ensures Step(old(S()), S(), EncScalar(f, v), ok)
      ensures ok && f.l.LVarint? ==>
        EncScalar(f, v).bytes == VarintEnc(if v.i < 0 then v.i + 0x1_0000_0000_0000_0000 else v.i)
    {
      StepError(S());
      ok := false;
      if v.VInt? && IntSize(f.dataSize) {
        match f.l
        case LVarint => if IsInt64(v.i) { ok := EncodeVarint(ToUnsigned(v.i, U64)); }
        case LUVarint => if 0 <= v.i < U64 { ok := EncodeVarint(v.i); }
        case LSVarint => if IsInt64(v.i) { ok := EncodeSVarint(v.i); }
      }
    }

    /** The field encoders of numbers (PB_ENCODERS). */
    method EncodeNumber(f: Field, v: Val) returns (ok: bool)
      requires Valid() && HeldVal(f, v) && !f.l.LSub? && !f.l.LBytes? && !f.l.LString? && !f.l.LFixedBytes?
      modifies this, buf
      ensures Step(old(S()), S(), EncScalar(f, v), ok)
    {
      StepError(S());
      ok := false;
      match f.l
      case LBool => if v.VBool? { ok := EncodeVarint(if v.b then 1 else 0); }
      case LFixed32 => if v.VInt? && InUnsigned(v.i, 4) { ok := EncodeFixed32(v.i); }
      case LFixed64 => if v.VInt? && InUnsigned(v.i, 8) { ok := EncodeFixed64(v.i); }
      case LVarint | LUVarint | LSVarint => ok := EncodeInteger(f, v);
    }

    /** The field encoders of bytes and strings. */
    method EncodeBytes(f: Field, v: Val) returns (ok: bool)
      requires Valid() && HeldVal(f, v) && (f.l.LBytes? || f.l.LString? || f.l.LFixedBytes?)
      modifies this, buf
      ensures Step(old(S()), S(), EncScalar(f, v), ok)
    {
      if !v.VBytes? || (f.l.LBytes? && |v.bs| + BYTES_OFFSET > f.dataSize) {
        StepError(S());
        return false;
      }
      var size := |v.bs|;
      if f.l.LString? { size := StringLength(v.bs); }
      assert v.bs[..|v.bs|] == v.bs;
      assert EncScalar(f, v) == Emit(Prefixed(v.bs[..size]));
      ok := EncodeString(v.bs[..size]);
    }

    /** The field encoders of everything but submessages. */
    method EncodeScalar(f: Field, v: Val) returns (ok: bool)
      requires Valid() && HeldVal(f, v) && !f.l.LSub? && f.tag < MAX_TAG
      modifies this, buf
      ensures Step(old(S()), S(), EncScalar(f, v), ok)
    {
      if f.l.LBytes? || f.l.LString? || f.l.LFixedBytes? {
        ok := EncodeBytes(f, v);
      } else {
        ok := EncodeNumber(f, v);
      }
    }

    /** A field encoder. */
    method EncodeVal(f: Field, v: Val) returns (ok: bool)
      requires Valid() && HeldVal(f, v) && f.tag < MAX_TAG
      modifies this, buf
      ensures Step(old(S()), S(), EncVal(f, v), ok)
      decreases f, 0
    {
      if !f.l.LSub? {
        ok := EncodeScalar(f, v);
      } else if !v.VMsg? || |v.slots| != |f.l.fields| {
        StepError(S());
        ok := false;
      } else {
        ok := EncodeSubmessage(f.l.fields, v.slots);
      }
    }

    /**
     pb_encode_submessage: size it on a counting stream, write the length, then the content through a substream that
     ends where the length says. The size cannot change between the two passes.
     */
    method EncodeSubmessage(fs: seq<Field>, m: seq<Slot>) returns (ok: bool)
      requires Valid() && |m| == |fs| && HeldMsg(fs, m) && |Encoding.Encode(fs, m).bytes| < U64
      modifies this, buf
      ensures var inner := Encoding.Encode(fs, m);
              Step(old(S()), S(), if inner.ok then Emit(Prefixed(inner.bytes)) else ERROR, ok)
      decreases fs, 3
    {
      ghost var inner := Encoding.Encode(fs, m);
      ghost var s0 := S();
      StepError(s0);
      var sizer := new OStream.Sizing();
      var status := sizer.Encode(fs, m);
      if !status { return false; }
      var size := sizer.bytesWritten;
      ok := EncodeVarint(size);
      ghost var s1 := S();
      if !ok {
        StepFailed(s0, s1, Emit(VarintEnc(size)), Emit(inner.bytes));
        return;
      }
      if sizing {
        WriteCount(size, inner.bytes);
        StepThen(s0, s1, S(), Emit(VarintEnc(size)), Emit(inner.bytes), true);
        return true;
      }
      if bytesWritten + size > maxSize {
        StepFull(s1, Emit(inner.bytes));
        StepThen(s0, s1, S(), Emit(VarintEnc(size)), Emit(inner.bytes), false);
        return false;
      }
      status := EncodeWithin(fs, m, size);
      StepThen(s0, s1, S(), Emit(VarintEnc(size)), Emit(inner.bytes), true);
      return status;
    }

    /** The second pass, through the substream. The content still has the size that was counted. */
    method EncodeWithin(fs: seq<Field>, m: seq<Slot>, size: nat) returns (ok: bool)
      requires Valid() && !sizing && |m| == |fs| && HeldMsg(fs, m) && bytesWritten + size <= maxSize
      requires Encoding.Encode(fs, m).ok && size == |Encoding.Encode(fs, m).bytes|
      modifies this, buf
      ensures ok && Step(old(S()), S(), Emit(Encoding.Encode(fs, m).bytes), true)
      decreases fs, 2
    {
      var sub := new OStream.Within(this, size);
      ok := sub.Encode(fs, m);
      bytesWritten := bytesWritten + sub.bytesWritten;
      pos := sub.pos;
      if sub.bytesWritten != size {
        assert false;
      }
    }

    /** encode_array: packed when the type allows it, sizing the body first. */
    method EncodeArray(f: Field, items: seq<Val>, arraySize: nat) returns (ok: bool)
      requires Valid() && HeldSlot(f, SRep(items)) && f.tag < MAX_TAG
      modifies this, buf
      ensures Step(old(S()), S(), EncArray(f, items, arraySize), ok)
      decreases f, 3
    {
      StepNothing(S());
      StepError(S());
      if |items| == 0 { return true; }
      if |items| > arraySize { return false; }
      if f.Packable() {
        ok := EncodePackedArray(f, items);
      } else {
        ok := EncodeTaggedArray(f, items);
      }
    }

    method EncodePackedArray(f: Field, items: seq<Val>) returns (ok: bool)
      requires Valid() && HeldSlot(f, SRep(items)) && f.tag < MAX_TAG && f.Packable()
      modifies this, buf
      ensures var body := EncPacked(f, items);
              var tail := if body.ok then Emit(Prefixed(body.bytes)) else ERROR;
              Step(old(S()), S(), Then(Emit(EncTag(WT_STRING, f.tag)), tail), ok)
    {
      ghost var body := EncPacked(f, items);
      ghost var tail := if body.ok then Emit(Prefixed(body.bytes)) else ERROR;
      ghost var tagged := Emit(EncTag(WT_STRING, f.tag));
      ghost var s0 := S();
      ok := EncodeTag(WT_STRING, f.tag);
      ghost var s1 := S();
      if !ok {
        StepFailed(s0, s1, tagged, tail);
        return;
      }
      var size;
      ok, size := PackedSize(f, items);
      if !ok {
        StepError(s1);
        StepThen(s0, s1, S(), tagged, tail, false);
        return;
      }
      ok := EncodeBody(f, items, size);
      StepThen(s0, s1, S(), tagged, tail, ok);
    }

    /** The size of a packed body: by arithmetic for fixed widths, and otherwise counted. */
    static method PackedSize(f: Field, items: seq<Val>) returns (ok: bool, size: nat)
      requires HeldSlot(f, SRep(items)) && f.tag < MAX_TAG && f.Packable()
      ensures ok == EncPacked(f, items).ok && (ok ==> size == |EncPacked(f, items).bytes|)
    {
      ok := true;
      if f.l.LFixed32? {
        size := 4 * |items|;
        FixedBody(f, items);
      } else if f.l.LFixed64? {
        size := 8 * |items|;
        FixedBody(f, items);
      } else {
        var sizer := new OStream.Sizing();
        ok := sizer.EncodeItems(f, items);
        size := sizer.bytesWritten;
      }
    }

    /** The length and the body of a packed array whose size is known. */
    method EncodeBody(f: Field, items: seq<Val>, size: nat) returns (ok: bool)
      requires Valid() && HeldSlot(f, SRep(items)) && f.tag < MAX_TAG && f.Packable()
      requires EncPacked(f, items).ok && size == |EncPacked(f, items).bytes|
      modifies this, buf
      ensures Step(old(S()), S(), Emit(Prefixed(EncPacked(f, items).bytes)), ok)
    {
      ghost var body := EncPacked(f, items);
      ghost var s0 := S();
      ok := EncodeVarint(size);
      ghost var s1 := S();
      if !ok {
        StepFailed(s0, s1, Emit(VarintEnc(size)), body);
        return;
      }
      if sizing {
        WriteCount(size, body.bytes);
        ok := true;
      } else {
        ok := EncodeItems(f, items);
      }
      StepThen(s0, s1, S(), Emit(VarintEnc(size)), body, ok);
    }

    /** The loop over the entries of a packed array. */
    method EncodeItems(f: Field, items: seq<Val>) returns (ok: bool)
      requires Valid() && HeldSlot(f, SRep(items)) && f.tag < MAX_TAG && f.Packable()
      modifies this, buf
      ensures Step(old(S()), S(), EncPacked(f, items), ok)
    {
      ghost var s0, done, total := S(), NOTHING, EncPacked(f, items);
      StepNothing(s0);
      assert items[0..] == items;
      var i := 0;
      while i < |items|
        invariant i <= |items| && Step(s0, S(), done, true) && Then(done, EncPacked(f, items[i..])) == total
      {
        ghost var s1, e, rest := S(), EncScalar(f, items[i]), EncPacked(f, items[i + 1..]);
        ArrayFrom(f, items, i);
        ok := EncodeScalar(f, items[i]);
        StepIteration(s0, s1, S(), done, e, rest, total, ok);
        if !ok { return; }
        done := Then(done, e);
        i := i + 1;
      }
      ThenNothing(done);
      return true;
    }

    /** One tag and one value. */
    method EncodeTagged(f: Field, v: Val) returns (ok: bool)
      requires Valid() && HeldVal(f, v) && f.tag < MAX_TAG
      modifies this, buf
      ensures Step(old(S()), S(), TaggedEntry(f, v), ok)
      decreases f, 1
    {
      ghost var s0 := S();
      ok := EncodeTag(WireType(f.l), f.tag);
      ghost var s1 := S();
      if !ok {
        StepFailed(s0, s1, Emit(TagFor(f)), EncVal(f, v));
        return;
      }
      ok := EncodeVal(f, v);
      StepThen(s0, s1, S(), Emit(TagFor(f)), EncVal(f, v), ok);
    }

    /** The loop over an array whose entries each carry the tag. */
    method EncodeTaggedArray(f: Field, items: seq<Val>) returns (ok: bool)
      requires Valid() && HeldSlot(f, SRep(items)) && f.tag < MAX_TAG
      modifies this, buf
      ensures Step(old(S()), S(), EncUnpacked(f, items), ok)
      decreases f, 2
    {
      ghost var s0, done, total := S(), NOTHING, EncUnpacked(f, items);
      StepNothing(s0);
      assert items[0..] == items;
      var i := 0;
      while i < |items|
        invariant i <= |items| && Step(s0, S(), done, true) && Then(done, EncUnpacked(f, items[i..])) == total
      {
        ghost var s1, e, rest := S(), TaggedEntry(f, items[i]), EncUnpacked(f, items[i + 1..]);
        ArrayFrom(f, items, i);
        ok := EncodeTagged(f, items[i]);
        StepIteration(s0, s1, S(), done, e, rest, total, ok);
        if !ok { return; }
        done := Then(done, e);
        i := i + 1;
      }
      ThenNothing(done);
      return true;
    }

    /** encode_basic_field */
    method EncodeField(f: Field, s: Slot) returns (ok: bool)
      requires Valid() && HeldSlot(f, s) && f.tag < MAX_TAG
      modifies this, buf
      ensures Step(old(S()), S(), EncField(f, s), ok)
      decreases f, 4
    {
      StepNothing(S());
      StepError(S());
      match f.h
      case Required => if s.SVal? { ok := EncodeTagged(f, s.v); } else { ok := false; }
      case Singular =>
        if !s.SVal? { ok := false; }
        else {
          var isDefault := CheckDefault(f, s);
          var implicitHas := !isDefault;
          if implicitHas { ok := EncodeTagged(f, s.v); } else { ok := true; }
        }
      case Optional =>
        if !s.SOpt? { ok := false; }
        else if s.has { ok := EncodeTagged(f, s.v); }
        else { ok := true; }
      case Repeated(n) => if s.SRep? { ok := EncodeArray(f, s.items, n); } else { ok := false; }
      case Oneof =>
        if !s.SUnion? { ok := false; }
        else if s.which == f.tag { ok := EncodeTagged(f, s.v); }
        else { ok := true; }
    }

    /** encode_field: the field at an entry of the descriptor, with its data in the struct */
    method EncodeAt(fs: seq<Field>, m: seq<Slot>, i: nat) returns (ok: bool)
      requires Valid() && i < |fs| == |m| && HeldMsg(fs, m)
      modifies this, buf
      ensures Step(old(S()), S(), EncField(fs[i], m[Cell(fs, i)]), ok)
      ensures EncFrom(fs, m, i) == Then(EncField(fs[i], m[Cell(fs, i)]), EncFrom(fs, m, i + 1))
      decreases fs, 0
    {
      FieldsFrom(fs, m, i);
      ok := EncodeField(fs[i], m[Cell(fs, i)]);
    }

    /** pb_encode: the fields in descriptor order, by the field iterator. */
    method Encode(fs: seq<Field>, m: seq<Slot>) returns (ok: bool)
      requires Valid() && |m| == |fs| && HeldMsg(fs, m)
      modifies this, buf
      ensures Step(old(S()), S(), Encoding.Encode(fs, m), ok)
      decreases fs, 1
    {
      hide FieldIter.Derived, EncField, HeldMsg, EncFrom, Then;
      ghost var s0, done, total := S(), NOTHING, EncFrom(fs, m, 0);
      StepNothing(s0);
      NothingThen(total);
      EncFromEnd(fs, m);
      var iter := new FieldIter(fs, 0);
      if fs == [] { return true; }
      ghost var rest := total;
      var more := true;
      while more
        invariant iter.Valid() && iter.fields == fs && fresh(iter)
        invariant Step(s0, S(), done, true) && Then(done, rest) == total
        invariant rest == if more then EncFrom(fs, m, iter.pos) else NOTHING
        decreases more, |fs| - iter.pos
      {
        ghost var s1, e := S(), EncField(fs[iter.pos], m[Cell(fs, iter.pos)]);
        rest := EncFrom(fs, m, iter.pos + 1);
        ok := EncodeAt(fs, m, iter.pos);
        StepIteration(s0, s1, S(), done, e, rest, total, ok);
        if !ok { return; }
        done := Then(done, e);
        more := iter.Next();
      }
      ThenNothing(done);
      return true;
    }
  }

  /** pb_get_encoded_size */
  method GetEncodedSize(fs: seq<Field>, m: seq<Slot>) returns (ok: bool, size: nat)
    requires |m| == |fs| && HeldMsg(fs, m)
    ensures ok == Encoding.Encode(fs, m).ok
    ensures ok ==> size == |Encoding.Encode(fs, m).bytes|
  {
    var sizer := new OStream.Sizing();
    ok := sizer.Encode(fs, m);
    size := if ok then sizer.bytesWritten else 0;
  }

  /** A counting run, and a run into a buffer with a limit: the second is decided by the first. */
  method SizeAndEncode(fs: seq<Field>, m: seq<Slot>, buf: array<byte>, limit: nat)
    returns (sized: bool, size: nat, ok: bool, written: nat)
    requires |m| == |fs| && HeldMsg(fs, m) && limit <= buf.Length
    modifies buf
    ensures sized == Encoding.Encode(fs, m).ok && (sized ==> size == |Encoding.Encode(fs, m).bytes|)
    ensures ok <==> sized && size <= limit
    ensures ok ==> written == size && buf[..written] == Encoding.Encode(fs, m).bytes
    ensures written <= limit && buf[..written] <= Encoding.Encode(fs, m).bytes
    ensures buf[written..] == old(buf[written..])
  {
    var sizer := new OStream.Sizing();
    ghost var s0 := sizer.S();
    sized := sizer.Encode(fs, m);
    size := sizer.bytesWritten;
    var stream := new OStream.FromBuffer(buf, limit);
    ghost var w0 := stream.S();
    ok := stream.Encode(fs, m);
    written := stream.bytesWritten;
    SizingAgreesWithWriting(s0, sizer.S(), w0, stream.S(), Encoding.Encode(fs, m), sized, ok);
    assert buf[0..written] == buf[..written];
  }
}
