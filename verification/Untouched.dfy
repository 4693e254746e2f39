/**
 What decoding leaves of the defaults: a field, at any depth, that no record of the input is for has the default its
 descriptor gives it, arrays no record is for are empty, and such oneofs are unset.
 */
module Untouched {
  import opened Wire
  import opened Message
  import opened Encoding
  import opened Decoding
  import opened RoundTrip
  import opened Theorems
  import opened Robustness

  // ---------- the records of an input ----------

  /** What is behind the value of a record of field `f`. */
  function ValueRest(f: Field, wireType: nat, s: seq<byte>): (r: Option<seq<byte>>)
    ensures r.Some? ==> |r.value| <= |s|
  {
    if !f.Packable() || (f.h.Repeated? && wireType == 2) then
      (match DecPrefixed(s) case Fail => None case Ok(_, rest) => Some(rest))
    else if f.l.LFixed32? then (if |s| < 4 then None else Some(s[4..]))
    else if f.l.LFixed64? then (if |s| < 8 then None else Some(s[8..]))
    else if f.l.LBool? then (match Varint32Dec(s) case Fail => None case Ok(_, rest) => Some(rest))
    else (match VarintDec(s) case Fail => None case Ok(_, rest) => Some(rest))
  }

  lemma ValueRestOf(f: Field, wireType: nat, s: seq<byte>, slot: Slot)
    requires DecField(f, wireType, s, slot).Ok?
    ensures ValueRest(f, wireType, s) == Some(DecField(f, wireType, s, slot).rest)
  {
    hide VarintDec, Varint32Dec, DecInto, DecPacked;
  }

  /** A field in a message: its index, behind the indices of the submessages it is in. */
  predicate ValidPath(fs: seq<Field>, path: seq<nat>)
    decreases |path|
  {
    path != [] && path[0] < |fs| && (|path| > 1 ==> Single(fs[path[0]]) && ValidPath(fs[path[0]].l.fields, path[1..]))
  }

  /** A submessage of which the struct holds one, whether it is set or not. */
  predicate Single(f: Field) {
    f.l.LSub? && (f.h.Required? || f.h.Singular? || f.h.Optional?)
  }

  /**
   The input has a record for the field at the path: one with the tag of a field that shares its storage, or, for a
   field of a submessage, a record of that submessage whose payload has one.
   */
  function Mentions(fs: seq<Field>, s: seq<byte>, path: seq<nat>): bool
    requires ValidPath(fs, path)
    decreases |path|, |s|
  {
    match DecTag(s)
    case TagFail => false
    case TagEnd(_) => false
    case TagOk(tag, wireType, p) =>
      var i := FindTag(fs, tag);
      if i == |fs| then
        (match SkipField(p, wireType) case Fail => false case Ok(_, rest) => Mentions(fs, rest, path))
      else
        || (Cell(fs, i) == Cell(fs, path[0]) && (|path| > 1 ==> PayloadMentions(fs[path[0]], p, path[1..])))
        || match ValueRest(fs[i], wireType, p)
           case None => false
           case Some(rest) => Mentions(fs, rest, path)
  }

  function PayloadMentions(f: Field, s: seq<byte>, path: seq<nat>): bool
    requires Single(f) && ValidPath(f.l.fields, path)
    decreases |path|, |s| + 1
  {
    match DecPrefixed(s)
    case Fail => false
    case Ok(payload, _) => Mentions(f.l.fields, payload, path)
  }

  /** The submessage a field with one of its own holds. */
  predicate HoldsSub(f: Field, s: Slot) {
    Single(f) && Ordinary(f, s) && Inner(s).VMsg? && |Inner(s).slots| == |f.l.fields|
  }

  /** The field at the path is as its descriptor says it is initially. */
  predicate InitialAt(fs: seq<Field>, m: seq<Slot>, path: seq<nat>)
    requires ValidPath(fs, path)
    decreases |path|
  {
    && |m| == |fs|
    && var k := path[0];
       if |path| == 1 then InitialSlot(fs, Cell(fs, k), m[Cell(fs, k)])
       else HoldsSub(fs[k], m[k]) && InitialAt(fs[k].l.fields, Inner(m[k]).slots, path[1..])
  }

  lemma {:induction false} InitialEverywhere(fs: seq<Field>, m: seq<Slot>, path: seq<nat>)
    requires ValidPath(fs, path) && InitialMsg(fs, m)
    ensures InitialAt(fs, m, path)
    decreases |path|
  {
    var k := path[0];
    assert InitialSlot(fs, k, m[k]);
    if |path| > 1 {
      assert InitialVal(fs[k], Inner(m[k]));
      InitialEverywhere(fs[k].l.fields, Inner(m[k]).slots, path[1..]);
    }
  }

  lemma SubValue(f: Field, s: seq<byte>, base: Val)
    requires f.l.LSub? && base.VMsg? && |base.slots| == |f.l.fields| && DecVal(f, s, base).Ok?
    ensures DecPrefixed(s).Ok?
    ensures var r := DecLoop(f.l.fields, DecPrefixed(s).value, base.slots, {});
            r.LoopDone? && DecVal(f, s, base).value == VMsg(r.m)
  {
    assert DecInto(f.l.fields, DecPrefixed(s).value, base.slots).Ok?;
  }

  lemma SingleRecord(f: Field, wireType: nat, s: seq<byte>, slot: Slot)
    requires HoldsSub(f, slot) && DecField(f, wireType, s, slot).Ok?
    ensures DecVal(f, s, Inner(slot)).Ok?
    ensures DecField(f, wireType, s, slot).value
         == if f.h.Optional? then SOpt(true, DecVal(f, s, Inner(slot)).value) else SVal(DecVal(f, s, Inner(slot)).value)
  {
  }

  /** A record of the field that holds the submessage, without one for the field inside, leaves that field alone. */
  lemma {:induction false} PayloadKeeps(f: Field, s: seq<byte>, slot: Slot, path: seq<nat>, wireType: nat)
    requires FieldOk(f) && HoldsSub(f, slot) && ValidPath(f.l.fields, path) && !PayloadMentions(f, s, path)
    requires InitialAt(f.l.fields, Inner(slot).slots, path) && DecField(f, wireType, s, slot).Ok?
    ensures var slot' := DecField(f, wireType, s, slot).value;
            HoldsSub(f, slot') && InitialAt(f.l.fields, Inner(slot').slots, path)
    decreases |path|, 1, |s|
  {
    hide DecField, DecVal, DecLoop;
    SingleRecord(f, wireType, s, slot);
    SubValue(f, s, Inner(slot));
    LoopKeeps(f.l.fields, DecPrefixed(s).value, Inner(slot).slots, {}, path);
  }

  /** Without a record for it, the field loop leaves a field as it was. */
  lemma {:induction false} LoopKeeps(fs: seq<Field>, s: seq<byte>, m: seq<Slot>, seen: set<nat>, path: seq<nat>)
    requires FieldsOk(fs) && ValidPath(fs, path) && InitialAt(fs, m, path) && !Mentions(fs, s, path)
    requires DecLoop(fs, s, m, seen).LoopDone?
    ensures InitialAt(fs, DecLoop(fs, s, m, seen).m, path)
    decreases |path|, 0, |s|
  {
    if s != [] {
      match DecTag(s)
      case TagFail =>
      case TagEnd(_) =>
      case TagOk(tag, wireType, p) =>
        var i := FindTag(fs, tag);
        if i == |fs| {
          LoopKeeps(fs, SkipField(p, wireType).rest, m, seen, path);
        } else {
          var c := Cell(fs, i);
          var r := DecField(fs[i], wireType, p, m[c]);
          ValueRestOf(fs[i], wireType, p, m[c]);
          RecordKeeps(fs, i, wireType, p, m, path);
          LoopKeeps(fs, r.rest, m[c := r.value], seen + Mark(fs, i), path);
        }
    }
  }

  lemma {:induction false} RecordKeeps(fs: seq<Field>, i: nat, wireType: nat, p: seq<byte>, m: seq<Slot>,
                                       path: seq<nat>)
    requires i < |fs| && FieldsOk(fs) && ValidPath(fs, path) && InitialAt(fs, m, path)
    requires Cell(fs, i) == Cell(fs, path[0]) ==> |path| > 1 && !PayloadMentions(fs[path[0]], p, path[1..])
    requires DecField(fs[i], wireType, p, m[Cell(fs, i)]).Ok?
    ensures InitialAt(fs, m[Cell(fs, i) := DecField(fs[i], wireType, p, m[Cell(fs, i)]).value], path)
    decreases |path|, 0, |p|
  {
    CellRoot(fs, i);
    CellRoot(fs, path[0]);
    assert FieldOk(fs[i]);
    if Cell(fs, i) == Cell(fs, path[0]) { PayloadKeeps(fs[i], p, m[i], path[1..], wireType); }
  }

  /**
   After any accepted input, a field at any depth that has no record in it is initial: it has its own default and is not
   set, an array is empty, a oneof none of whose members has a record is unset.
   */
  lemma UnmentionedIsInitial(fs: seq<Field>, s: seq<byte>, path: seq<nat>)
    requires FieldsOk(fs) && ValidPath(fs, path) && Decode(fs, s).Ok? && !Mentions(fs, s, path)
    ensures InitialAt(fs, Decode(fs, s).value, path)
  {
    DefaultsInitial(fs);
    InitialEverywhere(fs, Defaults(fs), path);
    LoopKeeps(fs, s, Defaults(fs), {}, path);
  }

  lemma UnmentionedAreInitial(fs: seq<Field>, s: seq<byte>)
    requires FieldsOk(fs) && Decode(fs, s).Ok?
    ensures forall path | ValidPath(fs, path) && !Mentions(fs, s, path) :: InitialAt(fs, Decode(fs, s).value, path)
  {
    forall path | ValidPath(fs, path) && !Mentions(fs, s, path) ensures InitialAt(fs, Decode(fs, s).value, path) {
      UnmentionedIsInitial(fs, s, path);
    }
  }

  lemma OwnDefault(f: Field, v: Val)
    requires InitialVal(f, v) && !f.l.LSub?
    ensures v == f.dflt
  {
  }

  /** In particular, at the top level and spelled out. */
  lemma UnmentionedDefault(fs: seq<Field>, s: seq<byte>, k: nat)
    requires FieldsOk(fs) && k < |fs| && Decode(fs, s).Ok? && !Mentions(fs, s, [k])
    ensures var f, slot := fs[k], Decode(fs, s).value[Cell(fs, k)];
            match f.h
            case Optional => slot.SOpt? && !slot.has && (!f.l.LSub? ==> slot.v == f.dflt)
            case Repeated(_) => slot == SRep([])
            case Oneof => slot.SUnion? && slot.which == 0
            case _ => slot.SVal? && (!f.l.LSub? ==> slot.v == f.dflt)
  {
    hide InitialVal, Mentions, DecInto;
    UnmentionedIsInitial(fs, s, [k]);
    CellRoot(fs, k);
    var f, slot := fs[k], Decode(fs, s).value[Cell(fs, k)];
    assert InitialSlot(fs, Cell(fs, k), slot);
    if !f.l.LSub? && (slot.SVal? || slot.SOpt?) { OwnDefault(f, slot.v); }
  }

  /** An entry of an array of submessages, and a submessage in a oneof, is its payload decoded on its own. */
  lemma EntryDecodedAlone(f: Field, wireType: nat, s: seq<byte>, slot: Slot)
    requires f.l.LSub? && (f.h.Repeated? || f.h.Oneof?) && DecField(f, wireType, s, slot).Ok?
    ensures DecPrefixed(s).Ok? && Decode(f.l.fields, DecPrefixed(s).value).Ok?
    ensures var entry := VMsg(Decode(f.l.fields, DecPrefixed(s).value).value);
            DecField(f, wireType, s, slot).value
            == if f.h.Repeated? then SRep(slot.items + [entry]) else SUnion(f.tag, entry)
  {
    assert DecVal(f, s, Zero(f)).Ok?;
    EntryValue(f, s);
  }

  lemma EntryValue(f: Field, s: seq<byte>)
    requires f.l.LSub? && DecVal(f, s, Zero(f)).Ok?
    ensures DecPrefixed(s).Ok? && Decode(f.l.fields, DecPrefixed(s).value).Ok?
    ensures DecVal(f, s, Zero(f)).value == VMsg(Decode(f.l.fields, DecPrefixed(s).value).value)
  {
  }
}
