/**
 Field descriptors (pb_field_t) and the structs they describe.

 A struct is a sequence of storage slots, one per descriptor entry; the members of a oneof share the slot of the
 first of them, as they share memory in C. What C leaves unspecified and no operation can observe (array entries
 past the count, bytes past a string's terminator, the payload of an unselected oneof) is not represented.
 */
module Message {
  import opened Wire

  type SizeMax = n: nat | n == 0xFF || n == 0xFFFF || n == 0xFFFF_FFFF witness 0xFF

  /** The largest pb_size_t, which the build configuration fixes at one of three widths. */
  const PB_SIZE_MAX: SizeMax

  /** offsetof(pb_bytes_array_t, bytes): the size header in front of a bytes field. */
  const BYTES_OFFSET: nat := if PB_SIZE_MAX == 0xFF then 1 else if PB_SIZE_MAX == 0xFFFF then 2 else 4

  const PB_MAX_REQUIRED_FIELDS: nat := 64

  const MAX_TAG: nat := 0x2000_0000

  datatype LType =
    | LBool | LVarint | LUVarint | LSVarint | LFixed32 | LFixed64
    | LBytes | LString | LSub(fields: seq<Field>) | LFixedBytes

  /** Singular is the proto3 form of OPTIONAL, without a has_ flag (size_offset 0). */
  datatype HType = Required | Optional | Singular | Repeated(arraySize: nat) | Oneof

  datatype Field = Field(tag: nat, h: HType, l: LType, dataSize: nat, dataOffset: nat, sizeOffset: int, dflt: Val) {
    /** LTYPE <= PB_LTYPE_LAST_PACKABLE */
    predicate Packable() {
      !l.LBytes? && !l.LString? && !l.LSub? && !l.LFixedBytes?
    }
  }

  /** The content of one data item. VBytes holds the used part of a bytes or string buffer. */
  datatype Val = VBool(b: bool) | VInt(i: int) | VBytes(bs: seq<byte>) | VMsg(slots: seq<Slot>)

  datatype Slot =
    | SVal(v: Val)                 // required and singular
    | SOpt(has: bool, v: Val)      // optional with its has_ flag
    | SRep(items: seq<Val>)        // array entries up to the count
    | SUnion(which: nat, v: Val)   // a oneof with its which_ tag
    | SPad                         // no storage of its own: a later member of a oneof

  // ---------- storage ----------

  /** The condition under which pb_field_iter_next leaves the data pointer where it is. */
  predicate Joined(fs: seq<Field>, i: nat)
    requires i < |fs|
  {
    i > 0 && fs[i - 1].h.Oneof? && fs[i].h.Oneof? && fs[i].dataOffset == PB_SIZE_MAX
  }

  /** The slot that holds field `i`. */
  function Cell(fs: seq<Field>, i: nat): (c: nat)
    requires i < |fs|
    ensures c <= i
  {
    if Joined(fs, i) then Cell(fs, i - 1) else i
  }

  /** The number of required fields before the `i`-th: required_field_index. */
  function RequiredIndex(fs: seq<Field>, i: nat): (n: nat)
    requires i <= |fs|
    ensures n <= i
  {
    if i == 0 then 0 else RequiredIndex(fs, i - 1) + (if fs[i - 1].h.Required? then 1 else 0)
  }

  /** The first field with this tag, or |fs|. */
  function FindTag(fs: seq<Field>, tag: nat): (i: nat)
    ensures i <= |fs|
    ensures i < |fs| ==> fs[i].tag == tag
    ensures forall j :: 0 <= j < i ==> fs[j].tag != tag
  {
    if fs == [] then 0
    else if fs[0].tag == tag then 0
    else 1 + FindTag(fs[1..], tag)
  }

  // ---------- initial values ----------

  /** Zeroed memory, except that a submessage gets its own defaults. */
  function Zero(f: Field): Val
    decreases f, 0
  {
    match f.l
    case LBool => VBool(false)
    case LBytes => VBytes([])
    case LString => VBytes([])
    case LFixedBytes => VBytes(seq(f.dataSize, _ => 0))
    case LSub(fields) => VMsg(Defaults(fields))
    case _ => VInt(0)
  }

  function DefaultVal(f: Field): Val
    decreases f, 1
  {
    if f.l.LSub? then Zero(f) else f.dflt
  }

  /** pb_field_set_to_default */
  function DefaultSlot(fs: seq<Field>, i: nat): Slot
    requires i < |fs|
    decreases fs, 0
  {
    match fs[i].h
    case Optional => SOpt(false, DefaultVal(fs[i]))
    case Repeated(_) => SRep([])
    case Oneof => if Joined(fs, i) then SPad else SUnion(0, VInt(0))
    case _ => SVal(DefaultVal(fs[i]))
  }

  /** pb_message_set_to_defaults */
  function Defaults(fs: seq<Field>): (m: seq<Slot>)
    ensures |m| == |fs|
    decreases fs, 1
  {
    seq(|fs|, i requires 0 <= i < |fs| => DefaultSlot(fs, i))
  }

  /** The content of a field nothing was read into: its own default, which the generator sets to zero if it has none. */
  predicate InitialVal(f: Field, v: Val)
    decreases f, 0
  {
    if f.l.LSub? then v.VMsg? && InitialMsg(f.l.fields, v.slots) else v == f.dflt
  }

  predicate InitialSlot(fs: seq<Field>, k: nat, s: Slot)
    requires k < |fs|
    decreases fs, 0
  {
    match fs[k].h
    case Required => s.SVal? && InitialVal(fs[k], s.v)
    case Singular => s.SVal? && InitialVal(fs[k], s.v)
    case Optional => s.SOpt? && !s.has && InitialVal(fs[k], s.v)
    case Repeated(_) => s.SRep? && s.items == []
    case Oneof => if Joined(fs, k) then s.SPad? else s.SUnion? && s.which == 0
  }

  /** Every field, at every depth, has its own default; arrays are empty and oneofs unset. */
  predicate InitialMsg(fs: seq<Field>, m: seq<Slot>)
    decreases fs, 1
  {
    |m| == |fs| && forall k :: 0 <= k < |fs| ==> InitialSlot(fs, k, m[k])
  }

  lemma {:induction false} DefaultValInitial(f: Field)
    ensures InitialVal(f, DefaultVal(f))
    decreases f, 0
  {
    if f.l.LSub? { DefaultsInitial(f.l.fields); }
  }

  lemma {:induction false} DefaultsInitial(fs: seq<Field>)
    ensures InitialMsg(fs, Defaults(fs))
    decreases fs, 1
  {
    forall k | 0 <= k < |fs| ensures InitialSlot(fs, k, DefaultSlot(fs, k)) { DefaultValInitial(fs[k]); }
  }

  // ---------- what the generator and the caller guarantee ----------

  /** strlen of a buffer whose used part is `bs`. */
  function StrLen(bs: seq<byte>): (n: nat)
    ensures n <= |bs|
    ensures n < |bs| ==> bs[n] == 0
    ensures forall k :: 0 <= k < n ==> bs[k] != 0
  {
    if bs == [] || bs[0] == 0 then 0 else 1 + StrLen(bs[1..])
  }

  /** The modulus of an integer of `size` bytes, for the four sizes the codec knows. */
  function Modulus(size: nat): int {
    if size == 1 then 0x100 else if size == 2 then 0x1_0000 else if size == 4 then U32 else U64
  }

  predicate IntSize(size: nat) {
    size == 1 || size == 2 || size == 4 || size == 8
  }

  predicate InSigned(i: int, size: nat) {
    -Modulus(size) <= 2 * i < Modulus(size)
  }

  predicate InUnsigned(i: int, size: nat) {
    0 <= i < Modulus(size)
  }

  /** A value that fits the field: integers in range, buffers within their storage, strings terminated. */
  predicate ValOk(f: Field, v: Val)
    decreases f, 0
  {
    match f.l
    case LBool => v.VBool?
    case LVarint => v.VInt? && InSigned(v.i, f.dataSize)
    case LUVarint => v.VInt? && InUnsigned(v.i, f.dataSize)
    case LSVarint => v.VInt? && InSigned(v.i, f.dataSize)
    case LFixed32 => v.VInt? && InUnsigned(v.i, 4)
    case LFixed64 => v.VInt? && InUnsigned(v.i, 8)
    case LBytes => v.VBytes? && |v.bs| <= PB_SIZE_MAX && |v.bs| + BYTES_OFFSET <= f.dataSize
    case LString => v.VBytes? && |v.bs| <= f.dataSize && StrLen(v.bs) < f.dataSize
    case LFixedBytes => v.VBytes? && |v.bs| == f.dataSize
    case LSub(fields) => v.VMsg? && MsgOk(fields, v.slots)
  }

  predicate SlotOk(fs: seq<Field>, i: nat, s: Slot)
    requires i < |fs|
    decreases fs, 0
  {
    match fs[i].h
    case Optional => s.SOpt? && ValOk(fs[i], s.v)
    case Repeated(n) => s.SRep? && |s.items| <= n && forall k :: 0 <= k < |s.items| ==> ValOk(fs[i], s.items[k])
    case Oneof =>
      if Joined(fs, i) then s.SPad?
      else s.SUnion? && forall j :: 0 <= j < |fs| && Cell(fs, j) == i && fs[j].tag == s.which ==> ValOk(fs[j], s.v)
    case _ => s.SVal? && ValOk(fs[i], s.v)
  }

  /** A struct that conforms to its descriptor. */
  predicate MsgOk(fs: seq<Field>, m: seq<Slot>)
    decreases fs, 1
  {
    |m| == |fs| && forall i :: 0 <= i < |fs| ==> SlotOk(fs, i, m[i])
  }

  /** A static descriptor as the generator emits it. */
  predicate FieldOk(f: Field)
    decreases f, 0
  {
    && 0 < f.tag < MAX_TAG && f.tag <= PB_SIZE_MAX
    && (f.l.LVarint? || f.l.LUVarint? || f.l.LSVarint? ==> IntSize(f.dataSize))
    && (f.l.LString? ==> f.dataSize > 0)
    && (f.l.LBytes? ==> f.dataSize >= BYTES_OFFSET)
    && f.dataSize <= PB_SIZE_MAX
    && (f.h.Repeated? ==> f.h.arraySize <= PB_SIZE_MAX)
    && (if f.l.LSub? then FieldsOk(f.l.fields) else ValOk(f, f.dflt))
    && (f.h.Singular? && !f.l.LSub? ==> f.dflt == Zero(f))
  }

  predicate FieldsOk(fs: seq<Field>)
    decreases fs, 1
  {
    && (forall i :: 0 <= i < |fs| ==> FieldOk(fs[i]))
    && DistinctTags(fs)
  }

  predicate DistinctTags(fs: seq<Field>) {
    forall i, j :: 0 <= i < j < |fs| ==> fs[i].tag != fs[j].tag
  }

  lemma FindTagAt(fs: seq<Field>, i: nat)
    requires i < |fs| && DistinctTags(fs)
    ensures FindTag(fs, fs[i].tag) == i
  {
    var k := FindTag(fs, fs[i].tag);
    assert k <= i;
    assert fs[k].tag == fs[i].tag;
  }

  // ---------- defaults conform ----------

  lemma {:induction false} ZeroOk(f: Field)
    requires FieldOk(f)
    ensures ValOk(f, Zero(f))
    decreases f, 0
  {
    if f.l.LSub? { DefaultsOk(f.l.fields); }
  }

  lemma {:induction false} DefaultValOk(f: Field)
    requires FieldOk(f)
    ensures ValOk(f, DefaultVal(f))
    decreases f, 1
  {
    ZeroOk(f);
  }

  /** pb_message_set_to_defaults leaves a conforming struct, whatever the nesting. */
  lemma {:induction false} DefaultsOk(fs: seq<Field>)
    requires FieldsOk(fs)
    ensures MsgOk(fs, Defaults(fs))
    decreases fs, 2
  {
    forall i | 0 <= i < |fs|
      ensures SlotOk(fs, i, Defaults(fs)[i])
    {
      DefaultValOk(fs[i]);
      if fs[i].h.Oneof? {
        forall j | 0 <= j < |fs| && Cell(fs, j) == i ensures fs[j].tag != 0 { assert FieldOk(fs[j]); }
      }
    }
  }
}
