/**
 pb_istream_t and the decoder that reads from it, in place.

 A stream is a window on a buffer: it may read `bytesLeft` bytes from `pos` on. Every method is proved to read what
 Decoding says from exactly that window, to stay inside it, and to leave the window's end where it was whenever it
 succeeds, however much of a substream its reader consumed.
 */
module StreamDecoder {
  import opened Wire
  import opened Message
  import opened Encoding
  import opened Decoding
  import opened FieldIterator
  import opened RequiredFields
  import Untouched

  /** The initial content of a field that has one (the end of pb_field_set_to_default). */
  method DefaultContent(f: Field) returns (v: Val)
    ensures v == DefaultVal(f)
    decreases f, 1
  {
    if f.l.LSub? {
      var inner := new Slot[|f.l.fields|](_ => SPad);
      SetToDefaults(f.l.fields, inner);
      v := VMsg(inner[..]);
    } else {
      v := f.dflt;
    }
  }

  /** pb_field_set_to_default; the members of a oneof share the first one's slot. */
  method SetFieldToDefault(fs: seq<Field>, i: nat, dest: array<Slot>)
    requires i < |fs| == dest.Length
    modifies dest
    ensures dest[..] == old(dest[..])[Cell(fs, i) := DefaultSlot(fs, Cell(fs, i))][i := DefaultSlot(fs, i)]
    ensures InitialSlot(fs, i, dest[i])
    decreases fs, 0
  {
    DefaultsInitial(fs);
    assert InitialSlot(fs, i, Defaults(fs)[i]);
    if fs[i].h.Oneof? {
      if Joined(fs, i) {
        CellIsUnion(fs, i);
        dest[i] := SPad;
      }
      dest[Cell(fs, i)] := SUnion(0, VInt(0));
    } else if fs[i].h.Repeated? {
      dest[i] := SRep([]);
    } else {
      var v := DefaultContent(fs[i]);
      dest[i] := if fs[i].h.Optional? then SOpt(false, v) else SVal(v);
    }
  }

  /** pb_message_set_to_defaults */
  method SetToDefaults(fs: seq<Field>, dest: array<Slot>)
    requires dest.Length == |fs|
    modifies dest
    ensures dest[..] == Defaults(fs) && InitialMsg(fs, dest[..])
    decreases fs, 1
  {
    DefaultsInitial(fs);
    hide FieldIter.Derived;
    var iter := new FieldIter(fs, 0);
    var more := fs != [];
    while more
      invariant iter.Valid() && iter.fields == fs && fresh(iter) && (more ==> fs != [])
      invariant forall k :: 0 <= k < |fs| && (!more || k < iter.pos) ==> dest[k] == DefaultSlot(fs, k)
      decreases more, |fs| - iter.pos
    {
      SetFieldToDefault(fs, iter.pos, dest);
      more := iter.Next();
    }
  }

  lemma {:induction false} CellIsUnion(fs: seq<Field>, i: nat)
    requires i < |fs| && fs[i].h.Oneof?
    ensures DefaultSlot(fs, Cell(fs, i)) == SUnion(0, VInt(0))
    ensures Joined(fs, i) ==> Cell(fs, i) < i
  {
    if Joined(fs, i) { CellIsUnion(fs, i - 1); }
  }

  class IStream {
    const buf: seq<byte>
    var pos: nat
    var bytesLeft: nat

    ghost predicate Valid()
      reads this
    {
      pos + bytesLeft <= |buf|
    }

    /** What the stream can still read. */
    ghost function Left(): seq<byte>
      reads this
      requires Valid()
    {
      buf[pos..pos + bytesLeft]
    }

    /** The end of the window. */
    ghost function End(): nat
      reads this
    {
      pos + bytesLeft
    }

    /** pb_istream_from_buffer */
    constructor FromBuffer(buf: seq<byte>)
      ensures Valid() && this.buf == buf && Left() == buf && End() == |buf|
    {
      this.buf := buf;
      pos, bytesLeft := 0, |buf|;
    }

    /** The substream that pb_make_string_substream cuts out of its parent. */
    constructor Within(parent: IStream, size: nat)
      requires parent.Valid() && size <= parent.bytesLeft
      ensures Valid() && buf == parent.buf && pos == parent.pos && bytesLeft == size
    {
      buf := parent.buf;
      pos, bytesLeft := parent.pos, size;
    }

    /** pb_read; the bytes are dropped when the caller passes no destination. */
    method Read(count: nat) returns (ok: bool, bytes: seq<byte>)
      requires Valid()
      modifies this
      ensures Valid() && End() == old(End()) && pos >= old(pos)
      ensures ok <==> count <= old(bytesLeft)
      ensures ok ==> bytes == old(Left())[..count] && Left() == old(Left())[count..]
      ensures !ok ==> Left() == old(Left()) && bytes == []
    {
      if count == 0 { return true, []; }
      if bytesLeft < count { return false, []; }
      bytes := buf[pos..pos + count];
      pos := pos + count;
      bytesLeft := bytesLeft - count;
      ok := true;
    }

    /** pb_readbyte */
    method ReadByte() returns (ok: bool, b: byte)
      requires Valid()
      modifies this
      ensures Valid() && End() == old(End()) && pos >= old(pos)
      ensures ok <==> old(Left()) != []
      ensures ok ==> b == old(Left())[0] && Left() == old(Left())[1..]
      ensures !ok ==> Left() == old(Left())
    {
      if bytesLeft == 0 { return false, 0; }
      b := buf[pos];
      pos := pos + 1;
      bytesLeft := bytesLeft - 1;
      ok := true;
    }

    /** pb_decode_varint */
    method DecodeVarint() returns (ok: bool, dest: nat)
      requires Valid()
      modifies this
      ensures Valid() && End() == old(End()) && pos >= old(pos)
      ensures Got(VarintDec(old(Left())), ok, dest, Left())
    {
      ghost var s := Left();
      var bitpos: nat, result: nat := 0, 0;
      while true
        invariant Valid() && End() == old(End()) && pos >= old(pos)
        invariant VarintFrom(Left(), bitpos, result) == VarintDec(s)
        decreases bytesLeft
      {
        if bitpos >= 64 { return false, 0; }
        var more, b := ReadByte();
        if !more { return false, 0; }
        result := Gather(result, b % 128, bitpos, U64);
        bitpos := bitpos + 7;
        if b < 128 { return true, result; }
      }
    }

    /** pb_decode_varint32 */
    method DecodeVarint32() returns (ok: bool, dest: nat)
      requires Valid()
      modifies this
      ensures Valid() && End() == old(End()) && pos >= old(pos)
      ensures Got(Varint32Dec(old(Left())), ok, dest, Left())
    {
      ghost var s := Left();
      var more, b := ReadByte();
      if !more { return false, 0; }
      if b < 128 { return true, b; }
      var bitpos: nat, result: nat := 7, b % 128;
      while true
        invariant Valid() && End() == old(End()) && pos >= old(pos)
        invariant Varint32From(Left(), bitpos, result) == Varint32Dec(s)
        decreases bytesLeft
      {
        more, b := ReadByte();
        if !more { return false, 0; }
        if bitpos >= 32 {
          var signExtension := if bitpos < 63 then 0xFF else 0x01;
          if b % 128 != 0 && (result / 0x8000_0000 == 0 || b != signExtension) { return false, 0; }
        } else {
          result := Gather(result, b % 128, bitpos, U32);
        }
        bitpos := NextBitpos(bitpos);
        if b < 128 {
          if bitpos == 35 && b >= 0x10 { return false, 0; }
          return true, result;
        }
      }
    }

    /** pb_skip_varint */
    method SkipVarintBytes() returns (ok: bool)
      requires Valid()
      modifies this
      ensures Valid() && End() == old(End()) && pos >= old(pos)
      ensures Got(SkipVarint(old(Left())), ok, (), Left())
    {
      ghost var s := Left();
      while true
        invariant Valid() && End() == old(End()) && pos >= old(pos)
        invariant SkipVarint(Left()) == SkipVarint(s)
        decreases bytesLeft
      {
        var more, b := ReadByte();
        if !more { return false; }
        if b < 128 { return true; }
      }
    }

    /** pb_decode_tag; `eof` tells a zero terminator from an error. */
    method DecodeTag() returns (ok: bool, eof: bool, tag: nat, wireType: nat)
      requires Valid() && bytesLeft > 0
      modifies this
      ensures Valid() && End() == old(End()) && pos >= old(pos)
      ensures match DecTag(old(Left()))
              case TagFail => !ok && !eof
              case TagEnd(rest) => !ok && eof && Left() == rest
              case TagOk(t, w, rest) => ok && tag == t && wireType == w && Left() == rest
    {
      var temp;
      ok, temp := DecodeVarint32();
      eof, tag, wireType := false, 0, 0;
      if !ok { return; }
      if temp == 0 {
        eof := true;
        ok := false;
        return;
      }
      tag := temp / 8;
      wireType := temp % 8;
    }

    /** pb_make_string_substream: the parent gives up the bytes but stays where it is until the substream is closed. */
    method MakeSubstream() returns (ok: bool, sub: IStream)
      requires Valid()
      modifies this
      ensures Valid() && End() <= old(End()) && pos >= old(pos)
      ensures ok <==> DecPrefixed(old(Left())).Ok?
      ensures ok ==>
        && fresh(sub) && sub.Valid() && sub.buf == buf && sub.pos == pos
        && sub.Left() == DecPrefixed(old(Left())).value
        && End() + sub.bytesLeft == old(End())
        && buf[sub.End()..sub.End() + bytesLeft] == DecPrefixed(old(Left())).rest
    {
      var size;
      ok, size := DecodeVarint32();
      sub := this;
      if !ok { return; }
      if bytesLeft < size { return false, this; }
      sub := new IStream.Within(this, size);
      bytesLeft := bytesLeft - size;
    }

    /** pb_close_string_substream: skip what the reader of the substream left and take over its position. */
    method CloseSubstream(sub: IStream) returns (ok: bool)
      requires Valid() && sub.Valid() && sub != this && sub.buf == buf && sub.End() + bytesLeft <= |buf|
      modifies this`pos, sub
      ensures ok && Valid() && pos == old(sub.End()) && Left() == buf[old(sub.End())..old(sub.End()) + bytesLeft]
    {
      ok := true;
      if sub.bytesLeft > 0 {
        var skipped;
        ok, skipped := sub.Read(sub.bytesLeft);
      }
      pos := sub.pos;
    }

    /** pb_skip_field */
    method SkipFieldBytes(wireType: nat) returns (ok: bool)
      requires Valid()
      modifies this
      ensures Valid() && End() == old(End()) && pos >= old(pos)
      ensures Got(SkipField(old(Left()), wireType), ok, (), Left())
    {
      var skipped;
      if wireType == WT_VARINT {
        ok := SkipVarintBytes();
      } else if wireType == WT_64BIT {
        ok, skipped := Read(8);
      } else if wireType == WT_STRING {
        var length;
        ok, length := DecodeVarint32();
        if ok { ok, skipped := Read(length); }
      } else if wireType == WT_32BIT {
        ok, skipped := Read(4);
      } else {
        ok := false;
      }
    }

    /** pb_decode_svarint */
    method DecodeSVarint() returns (ok: bool, dest: int)
      requires Valid()
      modifies this
      ensures Valid() && End() == old(End()) && pos >= old(pos)
      ensures ok <==> VarintDec(old(Left())).Ok?
      ensures ok ==> dest == UnZigZag(VarintDec(old(Left())).value) && Left() == VarintDec(old(Left())).rest
    {
      var value;
      ok, value := DecodeVarint();
      dest := 0;
      if ok {
        if value % 2 == 1 {
          dest := ToSigned(U64 - 1 - value / 2, U64);
        } else {
          dest := ToSigned(value / 2, U64);
        }
      }
    }

    /** pb_dec_varint, pb_dec_uvarint and pb_dec_svarint: cast to the variable and check nothing was lost. */
    method DecodeInteger(f: Field) returns (ok: bool, v: Val)
      requires Valid() && (f.l.LVarint? || f.l.LUVarint? || f.l.LSVarint?)
      modifies this
      ensures Valid() && End() == old(End()) && pos >= old(pos)
      ensures Got(DecScalar(f, old(Left())), ok, v, Left())
    {
      v := VInt(0);
      var value: int, clamped: int;
      if f.l.LSVarint? {
        ok, value := DecodeSVarint();
      } else {
        ok, value := DecodeVarint();
        if ok && f.l.LVarint? { value := VarintValue(value, f.dataSize); }
      }
      if !ok || !IntSize(f.dataSize) { return false, v; }
      if f.l.LUVarint? {
        clamped := value % Modulus(f.dataSize);
      } else {
        clamped := StoreSigned(value, f.dataSize);
      }
      ok := clamped == value;
      v := VInt(clamped);
    }

    /** pb_decode_fixed32 and pb_decode_fixed64 */
    method DecodeFixed(n: nat) returns (ok: bool, dest: nat)
      requires Valid() && (n == 4 || n == 8)
      modifies this
      ensures Valid() && End() == old(End()) && pos >= old(pos)
      ensures ok <==> n <= |old(Left())|
      ensures ok ==> dest == FromLittleEndian(old(Left())[..n]) && Left() == old(Left())[n..]
    {
      var bytes;
      ok, bytes := Read(n);
      dest := FromLittleEndian(bytes);
    }

    /** pb_dec_bytes, pb_dec_string and pb_dec_fixed_length_bytes */
    method DecodeBytes(f: Field) returns (ok: bool, v: Val)
      requires Valid() && (f.l.LBytes? || f.l.LString? || f.l.LFixedBytes?)
      modifies this
      ensures Valid() && End() == old(End()) && pos >= old(pos)
      ensures Got(DecScalar(f, old(Left())), ok, v, Left())
    {
      v := VBytes([]);
      var size, bytes;
      ok, size := DecodeVarint32();
      if !ok { return; }
      if f.l.LBytes? {
        if size > PB_SIZE_MAX || size + BYTES_OFFSET > f.dataSize { return false, v; }
      } else if f.l.LString? {
        if size + 1 >= U32 || size + 1 > f.dataSize { return false, v; }
      } else {
        if size > PB_SIZE_MAX { return false, v; }
        if size == 0 { return true, Zero(f); }
        if size != f.dataSize { return false, v; }
      }
      ok, bytes := Read(size);
      v := VBytes(bytes);
    }

    /** The field decoders of everything but submessages (PB_DECODERS). */
    method DecodeScalar(f: Field) returns (ok: bool, v: Val)
      requires Valid()
      modifies this
      ensures Valid() && End() == old(End()) && pos >= old(pos)
      ensures Got(DecScalar(f, old(Left())), ok, v, Left())
    {
      v := VInt(0);
      match f.l
      case LBool =>
        var u;
        ok, u := DecodeVarint32();
        v := VBool(u != 0);
      case LVarint | LUVarint | LSVarint => ok, v := DecodeInteger(f);
      case LFixed32 =>
        var u;
        ok, u := DecodeFixed(4);
        v := VInt(u);
      case LFixed64 =>
        var u;
        ok, u := DecodeFixed(8);
        v := VInt(u);
      case LBytes | LString | LFixedBytes => ok, v := DecodeBytes(f);
      case LSub(_) => ok := false;
    }

    /** A field decoder. For a submessage this is pb_dec_submessage, into the struct that is there. */
    method DecodeVal(f: Field, base: Val) returns (ok: bool, v: Val)
      requires Valid() && FieldOk(f)
      modifies this
      ensures Valid() && End() <= old(End()) && pos >= old(pos)
      ensures Got(DecVal(f, old(Left()), base), ok, v, Left()) && (ok ==> End() == old(End()))
      decreases f, 0
    {
      if !f.l.LSub? {
        ok, v := DecodeScalar(f);
        return;
      }
      v := base;
      if !base.VMsg? || |base.slots| != |f.l.fields| { return false, base; }
      var sub;
      ok, sub := MakeSubstream();
      if !ok { return; }
      var inner := new Slot[|base.slots|](i requires 0 <= i < |base.slots| => base.slots[i]);
      assert inner[..] == base.slots;
      var status := sub.DecodeNoinit(f.l.fields, inner);
      ok := CloseSubstream(sub);
      if !ok { return; }
      ok := status;
      v := VMsg(inner[..]);
    }

    /** The packed branch of decode_static_field. */
    method DecodePackedArray(f: Field, old_items: seq<Val>, arraySize: nat) returns (ok: bool, items: seq<Val>)
      requires Valid()
      modifies this
      ensures Valid() && End() <= old(End()) && pos >= old(pos)
      ensures match DecPrefixed(old(Left()))
              case Fail => !ok
              case Ok(bytes, rest) =>
                match DecPacked(f, bytes, old_items, arraySize)
                case Fail => !ok
                case Ok(r, _) => ok && items == r && Left() == rest && End() == old(End())
    {
      items := old_items;
      var sub;
      ok, sub := MakeSubstream();
      if !ok { return; }
      ghost var bytes, subEnd := sub.Left(), sub.End();
      var status := true;
      while sub.bytesLeft > 0 && |items| < arraySize
        modifies sub
        invariant sub.Valid() && sub.End() == subEnd
        invariant DecPacked(f, sub.Left(), items, arraySize) == DecPacked(f, bytes, old_items, arraySize)
        decreases arraySize - |items|
      {
        var more, v := sub.DecodeScalar(f);
        if !more {
          status := false;
          break;
        }
        items := items + [v];
      }
      if sub.bytesLeft != 0 { return false, items; }
      ok := CloseSubstream(sub);
      ok := status;
    }

    /** decode_static_field */
    method DecodeStaticField(f: Field, wireType: nat, slot: Slot) returns (ok: bool, r: Slot)
      requires Valid() && FieldOk(f)
      modifies this
      ensures Valid() && End() <= old(End()) && pos >= old(pos)
      ensures Got(DecField(f, wireType, old(Left()), slot), ok, r, Left()) && (ok ==> End() == old(End()))
      decreases f, 1
    {
      r := slot;
      var v;
      match f.h
      case Optional =>
        if !slot.SOpt? { return false, slot; }
        ok, v := DecodeVal(f, slot.v);
        r := SOpt(true, v);
      case Repeated(n) =>
        if !slot.SRep? { return false, slot; }
        if wireType == WT_STRING && f.Packable() {
          var items;
          ok, items := DecodePackedArray(f, slot.items, n);
          r := SRep(items);
        } else {
          if |slot.items| >= n { return false, slot; }
          ok, v := DecodeVal(f, Zero(f));
          r := SRep(slot.items + [v]);
        }
      case Oneof =>
        if !slot.SUnion? { return false, slot; }
        ok, v := DecodeVal(f, Zero(f));
        r := SUnion(f.tag, v);
      case _ =>
        if !slot.SVal? { return false, slot; }
        ok, v := DecodeVal(f, slot.v);
        r := SVal(v);
    }

    /** The end of the loop body: the record of the field the iterator stands on. */
    method DecodeFound(fs: seq<Field>, dest: array<Slot>, iter: FieldIter, fieldsSeen: array<Word>, wireType: nat,
                       ghost seen: set<nat>)
      returns (ok: bool)
      requires Valid() && dest.Length == |fs| && FieldsOk(fs) && fs != []
      requires iter.Valid() && iter.fields == fs && fieldsSeen.Length == 2 && BitsMatch(fs, fieldsSeen[..], seen)
      modifies this, fieldsSeen, dest
      ensures Valid() && End() <= old(End()) && pos >= old(pos) && (ok ==> End() == old(End()))
      ensures var c := Cell(fs, iter.pos);
              match DecField(fs[iter.pos], wireType, old(Left()), old(dest[c]))
              case Fail => !ok
              case Ok(slot, rest) => ok && dest[..] == old(dest[..])[c := slot] && Left() == rest
      ensures BitsMatch(fs, fieldsSeen[..], seen + Mark(fs, iter.pos))
      decreases fs, 2
    {
      hide FieldIter.Derived;
      var i := iter.pos;
      MarkSeen(iter, fieldsSeen, seen);
      var slot;
      ok, slot := DecodeStaticField(fs[i], wireType, dest[Cell(fs, i)]);
      if !ok { return; }
      dest[Cell(fs, i)] := slot;
    }

    /** The field loop of pb_decode_noinit, over an iterator that stays wherever the last search left it. */
    method DecodeFields(fs: seq<Field>, dest: array<Slot>, iter: FieldIter, fieldsSeen: array<Word>)
      returns (ok: bool, ghost seen: set<nat>)
      requires Valid() && dest.Length == |fs| && FieldsOk(fs)
      requires iter.Valid() && iter.fields == fs && fieldsSeen.Length == 2
      requires fs != [] ==> BitsMatch(fs, fieldsSeen[..], {})
      modifies this, iter, fieldsSeen, dest
      ensures Valid() && End() <= old(End()) && pos >= old(pos) && (ok ==> End() == old(End()))
      ensures iter.Valid() && iter.fields == fs && (ok && fs != [] ==> BitsMatch(fs, fieldsSeen[..], seen))
      ensures var p := DecLoop(fs, old(Left()), old(dest[..]), {});
              if p.LoopFail? then !ok else ok && p.m == dest[..] && p.seen == seen && p.rest == Left()
      decreases fs, 3
    {
      hide FieldIter.Derived;
      ghost var s, m := Left(), dest[..];
      seen := {};
      while bytesLeft > 0
        invariant Valid() && End() == old(End()) && pos >= old(pos)
        invariant iter.Valid() && iter.fields == fs
        invariant DecLoop(fs, Left(), dest[..], seen) == DecLoop(fs, s, m, {})
        invariant fs != [] ==> BitsMatch(fs, fieldsSeen[..], seen)
        decreases bytesLeft
      {
        var eof, tag, wireType, found;
        ok, eof, tag, wireType := DecodeTag();
        if !ok { return eof, seen; }
        found := iter.Find(tag);
        if !found {
          ok := SkipFieldBytes(wireType);
          if !ok { return; }
          continue;
        }
        if fs == [] {
          var ignored;
          fieldsSeen[0] := fieldsSeen[0][0 := true];
          ok, ignored := DecodeVarint32();
          if !ok { return; }
          continue;
        }
        ok := DecodeFound(fs, dest, iter, fieldsSeen, wireType, seen);
        if !ok { return; }
        seen := seen + Mark(fs, iter.pos);
      }
      ok := true;
    }

    /** pb_decode_noinit, into the struct that is there, with a bitset of the required fields. */
    method DecodeNoinit(fs: seq<Field>, dest: array<Slot>) returns (ok: bool)
      requires Valid() && dest.Length == |fs| && FieldsOk(fs)
      modifies this, dest
      ensures Valid() && End() <= old(End()) && pos >= old(pos)
      ensures Got(DecInto(fs, old(Left()), old(dest[..])), ok, dest[..], Left()) && (ok ==> End() == old(End()))
      decreases fs, 4
    {
      var fieldsSeen := new Word[2](_ => ZERO_WORD);
      var iter := new FieldIter(fs, 0);
      ghost var seen;
      ok, seen := DecodeFields(fs, dest, iter, fieldsSeen);
      if ok { ok := CheckRequired(iter, fieldsSeen, seen); }
    }

    /** pb_decode */
    method Decode(fs: seq<Field>, dest: array<Slot>) returns (ok: bool)
      requires Valid() && dest.Length == |fs| && FieldsOk(fs)
      modifies this, dest
      ensures Valid() && End() <= old(End()) && pos >= old(pos)
      ensures Got(Decoding.Decode(fs, old(Left())), ok, dest[..], Left()) && (ok ==> End() == old(End()))
      ensures ok ==> forall path | Untouched.ValidPath(fs, path) && !Untouched.Mentions(fs, old(Left()), path) ::
        Untouched.InitialAt(fs, dest[..], path)
    {
      ghost var input := Left();
      SetToDefaults(fs, dest);
      ok := DecodeNoinit(fs, dest);
      if ok { Untouched.UnmentionedAreInitial(fs, input); }
    }
  }

  /** A method that reports `ok`, delivers `value` and leaves `left` has read what `p` says. */
  ghost predicate Got<T(!new)>(p: Parse<T>, ok: bool, value: T, left: seq<byte>) {
    match p
    case Fail => !ok
    case Ok(v, rest) => ok && value == v && left == rest
  }
}
