/**
 What decoding an encoded struct over another one means: required and singular scalars are replaced, optional
 fields are replaced when set, arrays are appended to, submessages are merged field by field, and a oneof is
 replaced as a whole. An array that would outgrow its storage has no merge.
 */
module Merging {
  import opened Wire
  import opened Message
  import opened Encoding

  /** A scalar as it comes back from the wire: a string ends at its terminator. */
  function NormScalar(f: Field, v: Val): Val {
    if f.l.LString? && v.VBytes? then VBytes(v.bs[..StrLen(v.bs)]) else v
  }

  function MergeVal(f: Field, base: Val, v: Val): Option<Val>
    decreases f, 0
  {
    if !f.l.LSub? then Some(NormScalar(f, v))
    else if !base.VMsg? || !v.VMsg? || |base.slots| != |f.l.fields| || |v.slots| != |f.l.fields| then None
    else
      match MergeFrom(f.l.fields, base.slots, v.slots, 0)
      case None => None
      case Some(m) => Some(VMsg(m))
  }

  /** `acc` followed by the items, each merged into fresh storage. */
  function MergeItems(f: Field, acc: seq<Val>, items: seq<Val>): (r: Option<seq<Val>>)
    ensures r.Some? ==> |r.value| == |acc| + |items|
    decreases f, 1, |items|
  {
    if items == [] then Some(acc)
    else
      match MergeVal(f, Zero(f), items[0])
      case None => None
      case Some(v) => MergeItems(f, acc + [v], items[1..])
  }

  function MergeSlot(f: Field, s0: Slot, s1: Slot): Option<Slot>
    decreases f, 2
  {
    match f.h
    case Required => if s0.SVal? && s1.SVal? then WrapVal(MergeVal(f, s0.v, s1.v)) else None
    case Singular =>
      if !s1.SVal? then None
      else if IsDefault(f, s1) then Some(s0)
      else if s0.SVal? then WrapVal(MergeVal(f, s0.v, s1.v))
      else None
    case Optional =>
      if !s1.SOpt? then None
      else if !s1.has then Some(s0)
      else if s0.SOpt? then WrapOpt(MergeVal(f, s0.v, s1.v))
      else None
    case Repeated(n) =>
      if !s1.SRep? then None
      else if s1.items == [] then Some(s0)
      else if !s0.SRep? || |s0.items| + |s1.items| > n then None
      else WrapRep(MergeItems(f, s0.items, s1.items))
    case Oneof =>
      if !s1.SUnion? then None
      else if s1.which != f.tag then Some(s0)
      else if s0.SUnion? then WrapUnion(f.tag, MergeVal(f, Zero(f), s1.v))
      else None
  }

  function WrapVal(v: Option<Val>): Option<Slot> {
    if v.Some? then Some(SVal(v.value)) else None
  }

  function WrapOpt(v: Option<Val>): Option<Slot> {
    if v.Some? then Some(SOpt(true, v.value)) else None
  }

  function WrapRep(items: Option<seq<Val>>): Option<Slot> {
    if items.Some? then Some(SRep(items.value)) else None
  }

  function WrapUnion(tag: nat, v: Option<Val>): Option<Slot> {
    if v.Some? then Some(SUnion(tag, v.value)) else None
  }

  /** Merge the fields from the `i`-th on of `m1` into `m0`. */
  function MergeFrom(fs: seq<Field>, m0: seq<Slot>, m1: seq<Slot>, i: nat): (r: Option<seq<Slot>>)
    requires |m0| == |m1| == |fs| && i <= |fs|
    ensures r.Some? ==> |r.value| == |fs|
    decreases fs, |fs| - i
  {
    if i == |fs| then Some(m0)
    else
      var c := Cell(fs, i);
      match MergeSlot(fs[i], m0[c], m1[c])
      case None => None
      case Some(s) => MergeFrom(fs, m0[c := s], m1, i + 1)
  }

  function Merge(fs: seq<Field>, m0: seq<Slot>, m1: seq<Slot>): (r: Option<seq<Slot>>)
    requires |m0| == |m1| == |fs|
    ensures r.Some? ==> |r.value| == |fs|
  {
    MergeFrom(fs, m0, m1, 0)
  }
}
