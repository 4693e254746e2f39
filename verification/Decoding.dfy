/**
 What pb_decode makes of its input, as a function of descriptor, input and the struct decoded into.

 Every function takes the bytes left in its stream and returns the bytes it leaves; a substream is the prefix its
 length announces. The stream methods of StreamDecoder are proved against these functions.
 */
module Decoding {
  import opened Wire
  import opened Message
  import opened Encoding

  /** pb_decode_tag. A zero tag ends the message, whatever follows. */
  datatype TagOut = TagFail | TagEnd(rest: seq<byte>) | TagOk(tag: nat, wireType: nat, rest: seq<byte>)

  function DecTag(s: seq<byte>): (t: TagOut)
    ensures !t.TagFail? ==> |t.rest| < |s|
  {
    match Varint32Dec(s)
    case Fail => TagFail
    case Ok(t, rest) => if t == 0 then TagEnd(rest) else TagOk(t / 8, t % 8, rest)
  }

  /** pb_read into nowhere */
  function Skip(s: seq<byte>, n: nat): (p: Parse<()>)
    ensures p.Ok? ==> |p.rest| <= |s|
  {
    if |s| < n then Fail else Ok((), s[n..])
  }

  /** A length and as many bytes: pb_skip_string, or a substream when the bytes are kept. */
  function DecPrefixed(s: seq<byte>): (p: Parse<seq<byte>>)
    ensures p.Ok? ==> |p.rest| < |s|
  {
    match Varint32Dec(s)
    case Fail => Fail
    case Ok(n, rest) => if |rest| < n then Fail else Ok(rest[..n], rest[n..])
  }

  /** pb_skip_field */
  function SkipField(s: seq<byte>, wireType: nat): (p: Parse<()>)
    ensures p.Ok? ==> |p.rest| <= |s|
  {
    if wireType == WT_VARINT then SkipVarint(s)
    else if wireType == WT_64BIT then Skip(s, 8)
    else if wireType == WT_STRING then
      match DecPrefixed(s) { case Fail => Fail case Ok(_, rest) => Ok((), rest) }
    else if wireType == WT_32BIT then Skip(s, 4)
    else Fail
  }

  /** Store `i` in a signed variable of `size` bytes. */
  function StoreSigned(i: int, size: nat): int {
    ToSigned(i % Modulus(size), Modulus(size))
  }

  /** The integer a varint field receives; None when it does not survive the store. */
  function ClampSigned(i: int, size: nat, rest: seq<byte>): (p: Parse<Val>)
    ensures p.Ok? ==> p.rest == rest
  {
    if IntSize(size) && StoreSigned(i, size) == i then Ok(VInt(i), rest) else Fail
  }

  /** pb_dec_varint reads fields of up to four bytes through int32, so that a negative value may come as 32 bits. */
  function VarintValue(u: nat, size: nat): int {
    if size == 8 then ToSigned(u, U64) else ToSigned(u % U32, U32)
  }

  /** The field decoders of everything but submessages. */
  function DecScalar(f: Field, s: seq<byte>): (p: Parse<Val>)
    ensures p.Ok? ==> |p.rest| <= |s|
  {
    match f.l
    case LBool =>
      (match Varint32Dec(s) case Fail => Fail case Ok(u, rest) => Ok(VBool(u != 0), rest))
    case LVarint =>
      (match VarintDec(s)
       case Fail => Fail
       case Ok(u, rest) => ClampSigned(VarintValue(u, f.dataSize), f.dataSize, rest))
    case LUVarint =>
      (match VarintDec(s)
       case Fail => Fail
       case Ok(u, rest) => if IntSize(f.dataSize) && u % Modulus(f.dataSize) == u then Ok(VInt(u), rest) else Fail)
    case LSVarint =>
      (match VarintDec(s)
       case Fail => Fail
       case Ok(u, rest) => ClampSigned(UnZigZag(u), f.dataSize, rest))
    case LFixed32 => if |s| < 4 then Fail else Ok(VInt(FromLittleEndian(s[..4])), s[4..])
    case LFixed64 => if |s| < 8 then Fail else Ok(VInt(FromLittleEndian(s[..8])), s[8..])
    case LBytes =>
      (match Varint32Dec(s)
       case Fail => Fail
       case Ok(n, rest) =>
         if n > PB_SIZE_MAX || n + BYTES_OFFSET > f.dataSize || |rest| < n then Fail
         else Ok(VBytes(rest[..n]), rest[n..]))
    case LString =>
      (match Varint32Dec(s)
       case Fail => Fail
       case Ok(n, rest) =>
         if n + 1 >= U32 || n + 1 > f.dataSize || |rest| < n then Fail
         else Ok(VBytes(rest[..n]), rest[n..]))
    case LFixedBytes =>
      (match Varint32Dec(s)
       case Fail => Fail
       case Ok(n, rest) =>
         if n > PB_SIZE_MAX then Fail
         else if n == 0 then Ok(Zero(f), rest)
         else if n != f.dataSize || |rest| < n then Fail
         else Ok(VBytes(rest[..n]), rest[n..]))
    case LSub(_) => Fail
  }

  /** The loop over a packed array: it stops when the substream is empty, and fails when the array is full before. */
  function DecPacked(f: Field, s: seq<byte>, items: seq<Val>, arraySize: nat): Parse<seq<Val>>
    decreases arraySize - |items|
  {
    if s == [] then Ok(items, [])
    else if |items| >= arraySize then Fail
    else
      match DecScalar(f, s)
      case Fail => Fail
      case Ok(v, rest) => DecPacked(f, rest, items + [v], arraySize)
  }

  /** A field decoder writing over `base`. A submessage is decoded into what is there, from its own bytes only. */
  function DecVal(f: Field, s: seq<byte>, base: Val): (p: Parse<Val>)
    ensures p.Ok? ==> |p.rest| <= |s|
    decreases f, 0
  {
    if !f.l.LSub? then DecScalar(f, s)
    else if !base.VMsg? || |base.slots| != |f.l.fields| then Fail
    else
      match DecPrefixed(s)
      case Fail => Fail
      case Ok(bytes, rest) =>
        match DecInto(f.l.fields, bytes, base.slots)
        case Fail => Fail
        case Ok(m, _) => Ok(VMsg(m), rest)
  }

  /** decode_static_field. Array entries and oneof members start from zeroed memory and defaults. */
  function DecField(f: Field, wireType: nat, s: seq<byte>, slot: Slot): (p: Parse<Slot>)
    ensures p.Ok? ==> |p.rest| <= |s|
    decreases f, 1
  {
    match f.h
    case Optional =>
      if !slot.SOpt? then Fail
      else (match DecVal(f, s, slot.v) case Fail => Fail case Ok(v, rest) => Ok(SOpt(true, v), rest))
    case Repeated(n) =>
      if !slot.SRep? then Fail
      else if wireType == WT_STRING && f.Packable() then
        (match DecPrefixed(s)
         case Fail => Fail
         case Ok(bytes, rest) =>
           match DecPacked(f, bytes, slot.items, n)
           case Fail => Fail
           case Ok(items, _) => Ok(SRep(items), rest))
      else if |slot.items| >= n then Fail
      else (match DecVal(f, s, Zero(f)) case Fail => Fail case Ok(v, rest) => Ok(SRep(slot.items + [v]), rest))
    case Oneof =>
      if !slot.SUnion? then Fail
      else (match DecVal(f, s, Zero(f)) case Fail => Fail case Ok(v, rest) => Ok(SUnion(f.tag, v), rest))
    case _ =>
      if !slot.SVal? then Fail
      else (match DecVal(f, s, slot.v) case Fail => Fail case Ok(v, rest) => Ok(SVal(v), rest))
  }

  /** The state of the field loop when it ends. `stopped` tells a zero terminator from the end of the input. */
  datatype LoopOut =
    | LoopFail
    | LoopDone(m: seq<Slot>, seen: set<nat>, stopped: bool, rest: seq<byte>)

  function Mark(fs: seq<Field>, i: nat): set<nat>
    requires i < |fs|
  {
    if fs[i].h.Required? then {i} else {}
  }

  /** The field loop of pb_decode_noinit; `seen` holds the required fields met so far. */
  function DecLoop(fs: seq<Field>, s: seq<byte>, m: seq<Slot>, seen: set<nat>): (r: LoopOut)
    requires |m| == |fs|
    ensures r.LoopDone? ==> |r.m| == |fs|
    decreases fs, |s|
  {
    if s == [] then LoopDone(m, seen, false, s)
    else
      match DecTag(s)
      case TagFail => LoopFail
      case TagEnd(rest) => LoopDone(m, seen, true, rest)
      case TagOk(tag, wireType, p) =>
        var i := FindTag(fs, tag);
        if fs == [] && tag == 0 then
          // the terminator entry of an empty descriptor matches tag 0 and reads as a bool
          (match Varint32Dec(p) case Fail => LoopFail case Ok(_, rest) => DecLoop(fs, rest, m, seen))
        else if i == |fs| then
          (match SkipField(p, wireType) case Fail => LoopFail case Ok(_, rest) => DecLoop(fs, rest, m, seen))
        else
          var c := Cell(fs, i);
          match DecField(fs[i], wireType, p, m[c])
          case Fail => LoopFail
          case Ok(slot, rest) => DecLoop(fs, rest, m[c := slot], seen + Mark(fs, i))
  }

  /** Every required field among the first PB_MAX_REQUIRED_FIELDS was met. */
  predicate AllRequired(fs: seq<Field>, seen: set<nat>) {
    forall i :: 0 <= i < |fs| && fs[i].h.Required? && RequiredIndex(fs, i) < PB_MAX_REQUIRED_FIELDS ==> i in seen
  }

  /** pb_decode_noinit */
  function DecInto(fs: seq<Field>, s: seq<byte>, m: seq<Slot>): (p: Parse<seq<Slot>>)
    requires |m| == |fs|
    ensures p.Ok? ==> |p.value| == |fs|
    decreases fs, |s| + 1
  {
    match DecLoop(fs, s, m, {})
    case LoopFail => Fail
    case LoopDone(m', seen, _, rest) => if AllRequired(fs, seen) then Ok(m', rest) else Fail
  }

  /** pb_decode */
  function Decode(fs: seq<Field>, s: seq<byte>): Parse<seq<Slot>> {
    DecInto(fs, s, Defaults(fs))
  }
}
