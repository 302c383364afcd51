/**
  Slices directly in lists, at any depth. Their element stride is the length of an empty
  value, so they are all dumped into the first place; and the address-based functions also
  save only the first, where the reflective ones, used for map values, save them all.
 */
module Nesting {
  import opened Wire
  import opened Types
  import opened Codec
  import opened RoundTrip
  import opened Incremental

  // ---------------------------------------------------------------- types and encoders

  /** The supported types with lists of slices. Only arrays directly in lists are left out. */
  predicate Nestable(ty: Ty) {
    match ty
    case Base(tag) => 11 <= tag <= 21
    case Obj(fields) => |fields| <= MAX16 && forall i :: 0 <= i < |fields| ==> Nestable(fields[i])
    case Slice(elem) => !elem.Array? && Nestable(elem)
    case Array(elem, len) => len <= MAX16 && !elem.Array? && Nestable(elem)
    case Dict(key, value) => KeyTy(key) && WellFormed(key) && Nestable(value)
    case Ptr(target) => Nestable(target)
    case _ => true
  }

  lemma {:induction false} WellFormedIsNestable(ty: Ty)
    requires WellFormed(ty)
    ensures Nestable(ty)
  {
    match ty
    case Obj(fields) =>
      forall i | 0 <= i < |fields| ensures Nestable(fields[i]) {
        WellFormedIsNestable(fields[i]);
      }
    case Slice(elem) => WellFormedIsNestable(elem);
    case Array(elem, _) => WellFormedIsNestable(elem);
    case Dict(_, value) => WellFormedIsNestable(value);
    case Ptr(target) => WellFormedIsNestable(target);
    case _ =>
  }

  /** The two families of save functions. */
  datatype Encoder = ByAddress | Reflective

  function Bytes(e: Encoder, ty: Ty, v: Val): bytes {
    if e.ByAddress? then Enc(ty, v) else MapEnc(ty, v)
  }

  function FieldBytes(e: Encoder, ty: Ty, vs: seq<Val>, i: nat): bytes
    requires ty.Obj?
  {
    if e.ByAddress? then EncFields(ty, vs, i) else MapEncFields(ty, vs, i)
  }

  function ElemBytes(e: Encoder, ty: Ty, vs: seq<Val>, i: nat): bytes
    requires ty.IsList()
  {
    if e.ByAddress? then EncElems(ty, vs, i) else MapEncElems(ty, vs, i)
  }

  /** The element that is saved as the i-th. */
  function Source(e: Encoder, elem: Ty, i: nat): nat {
    if e.ByAddress? then StrideIndex(elem, i) else i
  }

  // ---------------------------------------------------------------- what comes back

  /**
    What a value becomes over a destination. Of slices in a list the first place alone is
    written: with the first of them when saved by address, with all of them in turn when
    saved reflectively; the other places keep what the destination had.
   */
  function Back(e: Encoder, ty: Ty, v: Val, dest: Val): Val
    decreases ty, 1, 0
  {
    match ty
    case Obj(fields) =>
      if v.VObj? && |v.fields| == |fields| then VObj(BackFields(e, ty, v.fields, OldFields(ty, dest))) else v
    case Slice(_) => if v.VList? then VList(BackElems(e, ty, v.elems, OldElems(ty, |v.elems|, dest))) else v
    case Array(_, _) => if v.VList? then VList(BackElems(e, ty, v.elems, OldElems(ty, |v.elems|, dest))) else v
    case Dict(_, value) =>
      if v.VDict? then
        VDict(seq(|v.entries|, i requires 0 <= i < |v.entries| =>
          Pair(v.entries[i].k, Back(Reflective, value, v.entries[i].v, Zero(value)))))
      else v
    case Ptr(target) =>
      if v.VPtr? then
        var t := Back(ByAddress, target, v.target, Behind(ty, dest));
        if t.VNil? && NilLooksNil(target) then VNil else VPtr(t)
      else v
    case _ => v
  }

  /** The fields that come back over those of the destination. */
  function BackFields(e: Encoder, ty: Ty, vs: seq<Val>, cur: seq<Val>): (r: seq<Val>)
    requires ty.Obj? && |vs| == |ty.fields| == |cur|
    ensures |r| == |vs|
    decreases ty, 0, 0
  {
    seq(|vs|, i requires 0 <= i < |vs| => Back(e, ty.fields[i], vs[i], cur[i]))
  }

  /** The elements that come back over those the destination offers. */
  function BackElems(e: Encoder, ty: Ty, vs: seq<Val>, cur: seq<Val>): seq<Val>
    requires ty.IsList()
    decreases ty, 0, |vs| + 1
  {
    if |cur| != |vs| || vs == [] then vs
    else if !ty.elem.Slice? then seq(|vs|, i requires 0 <= i < |vs| => Back(e, ty.elem, vs[i], cur[i]))
    else if e.ByAddress? then [Back(e, ty.elem, vs[0], cur[0])] + cur[1..]
    else [InTurn(ty, vs, |vs|, cur[0])] + cur[1..]
  }

  /** The first n elements, each over what the one before has left. */
  function InTurn(ty: Ty, vs: seq<Val>, n: nat, place: Val): Val
    requires ty.IsList() && n <= |vs|
    decreases ty, 0, n
  {
    if n == 0 then place else Back(Reflective, ty.elem, vs[n - 1], InTurn(ty, vs, n - 1, place))
  }

  // ---------------------------------------------------------------- first bytes

  /** The first byte tells a nil from a value. */
  lemma {:induction false} BytesStart(e: Encoder, ty: Ty, v: Val)
    requires Nestable(ty) && HasType(ty, v)
    ensures |Bytes(e, ty, v)| > 0
    ensures !ty.Ptr? ==> Bytes(e, ty, v)[0] == if v.VNil? then Neg(Tag(ty)) else Tag(ty)
    ensures ty.Ptr? ==> (Bytes(e, ty, v)[0] == Neg(Tag(ty.target)) <==> Norm(ty, v) == VNil)
    ensures ty.Ptr? && !ty.target.Ptr? ==> Bytes(e, ty, v)[0] != 0
    decreases ty
  {
    hide EncElems, EncFields, EncPairs, MapEncElems, MapEncFields, Raw;
    if ty.Ptr? {
      if v.VPtr? {
        BytesStart(ByAddress, ty.target, v.target);
      }
    }
  }

  /** A nil pointer, or a pointer that is written like one, is a single byte. */
  lemma {:induction false} NilBytes(e: Encoder, ty: Ty, v: Val)
    requires Nestable(ty) && HasType(ty, v) && Norm(ty, v) == VNil
    ensures |Bytes(e, ty, v)| == 1
    decreases ty
  {
    if v.VPtr? {
      NilBytes(ByAddress, ty.target, v.target);
    }
  }

  /** What comes back is a nil exactly when the normal form is. */
  lemma {:induction false} BackIsNil(e: Encoder, ty: Ty, v: Val, dest: Val)
    ensures Back(e, ty, v, dest).VNil? <==> Norm(ty, v).VNil?
    decreases ty
  {
    if ty.Ptr? && v.VPtr? {
      BackIsNil(ByAddress, ty.target, v.target, Behind(ty, dest));
    }
  }

  // ---------------------------------------------------------------- the dump

  /** Dumping what either family has saved gives that, and ends where the encoding does. */
  lemma {:induction false} NestedDump(e: Encoder, ty: Ty, v: Val, rest: bytes, dest: Val)
    requires Nestable(ty) && HasType(ty, v) && Fits(v)
    ensures Dump(ty, Bytes(e, ty, v) + rest, dest) == Out(Ok, Back(e, ty, v, dest), rest)
    decreases ty, 1, 0
  {
    hide DumpBody, Bytes, Back, HasType, Fits, Nestable, Norm;
    BytesStart(e, ty, v);
    var s := Bytes(e, ty, v) + rest;
    assert s[0] == Bytes(e, ty, v)[0];
    assert s[1..] == Bytes(e, ty, v)[1..] + rest;
    if ty.Ptr? {
      DumpPointer(e, ty, v, rest, dest);
    } else if v.VNil? {
      NilAlone(e, ty, v, dest);
      assert s[1..] == rest;
      TagIsPositive(ty);
    } else {
      TagIsPositive(ty);
      NestedBody(e, ty, v, rest, dest);
    }
  }

  lemma TagIsPositive(ty: Ty)
    requires Nestable(ty) && !ty.Ptr?
    ensures Tag(ty) != Neg(Tag(ty))
  {
  }

  lemma NilAlone(e: Encoder, ty: Ty, v: Val, dest: Val)
    requires HasType(ty, v) && v.VNil? && !ty.Ptr?
    ensures |Bytes(e, ty, v)| == 1 && Skip(ty, dest) == VNil == Back(e, ty, v, dest)
  {
  }

  lemma {:induction false} DumpPointer(e: Encoder, ty: Ty, v: Val, rest: bytes, dest: Val)
    requires Nestable(ty) && HasType(ty, v) && Fits(v) && ty.Ptr?
    ensures Dump(ty, Bytes(e, ty, v) + rest, dest) == Out(Ok, Back(e, ty, v, dest), rest)
    decreases ty, 0, 0
  {
    hide DumpBody;
    BytesStart(e, ty, v);
    BackIsNil(e, ty, v, dest);
    var s := Bytes(e, ty, v) + rest;
    assert s[0] == Bytes(e, ty, v)[0];
    if Norm(ty, v) == VNil {
      NilBytes(e, ty, v);
      assert s[1..] == rest;
    } else {
      NestedDump(ByAddress, ty.target, v.target, rest, Behind(ty, dest));
    }
  }

  /** The same behind the tag. */
  lemma {:induction false} NestedBody(e: Encoder, ty: Ty, v: Val, rest: bytes, dest: Val)
    requires Nestable(ty) && HasType(ty, v) && Fits(v) && !ty.Ptr? && !v.VNil?
    ensures |Bytes(e, ty, v)| > 0
    ensures DumpBody(ty, Bytes(e, ty, v)[1..] + rest, dest) == Out(Ok, Back(e, ty, v, dest), rest)
    decreases ty, 0, 0x2_0000
  {
    hide EncElems, EncFields, EncPairs, MapEncElems, MapEncFields, Raw, DumpList, DumpMerged, BackElems;
    match ty
    case Obj(_) => NestedObj(e, ty, v.fields, rest, dest);
    case Slice(_) => NestedList(e, ty, v.elems, rest, dest);
    case Array(_, _) => NestedList(e, ty, v.elems, rest, dest);
    case Dict(_, _) => NestedDict(e, ty, v.entries, rest, dest);
    case _ => ForwardLeaf(ty, v, rest, dest);
  }

  lemma {:induction false} NestedObj(e: Encoder, ty: Ty, vs: seq<Val>, rest: bytes, dest: Val)
    requires ty.Obj? && Nestable(ty) && HasType(ty, VObj(vs)) && Fits(VObj(vs))
    ensures |Bytes(e, ty, VObj(vs))| > 0
    ensures DumpBody(ty, Bytes(e, ty, VObj(vs))[1..] + rest, dest) == Out(Ok, Back(e, ty, VObj(vs), dest), rest)
    decreases ty, 0, 0x1_0000
  {
    hide EncFields, MapEncFields, DumpFields, CheckSize, Wrap16, Back;
    var body := FieldBytes(e, ty, vs, 0);
    assert Bytes(e, ty, VObj(vs))[1..] + rest == Container(|vs|, body) + rest;
    ContainerRead(|vs|, body, rest);
    SurvivesField(|vs|);
    NestedFields(e, ty, vs, 0, rest, OldFields(ty, dest), OldFields(ty, dest));
    ObjIsBack(e, ty, vs, dest);
  }

  lemma ObjIsBack(e: Encoder, ty: Ty, vs: seq<Val>, dest: Val)
    requires ty.Obj? && |vs| == |ty.fields|
    ensures Back(e, ty, VObj(vs), dest) == VObj(BackFields(e, ty, vs, OldFields(ty, dest)))
  {
    hide BackFields, BackElems;
  }

  lemma {:induction false} NestedFields(e: Encoder, ty: Ty, vs: seq<Val>, i: nat, rest: bytes, old_: seq<Val>,
                                        cur: seq<Val>)
    requires ty.Obj? && Nestable(ty) && HasType(ty, VObj(vs)) && Fits(VObj(vs))
    requires i <= |ty.fields| == |vs| == |cur| == |old_|
    requires forall j :: 0 <= j < |cur| ==> cur[j] == if j < i then BackFields(e, ty, vs, old_)[j] else old_[j]
    ensures DumpFields(ty, FieldBytes(e, ty, vs, i) + rest, cur, i) == Out(Ok, VObj(BackFields(e, ty, vs, old_)), rest)
    decreases ty, 0, |ty.fields| - i
  {
    hide Dump, DumpFields, Bytes, FieldBytes, Back, HasType, Fits, Nestable;
    if i == |ty.fields| {
      NoFields(e, ty, vs, rest, cur);
      assert cur == BackFields(e, ty, vs, old_);
    } else {
      var r := Back(e, ty.fields[i], vs[i], cur[i]);
      FieldOf(ty, vs, i);
      NestedDump(e, ty.fields[i], vs[i], FieldBytes(e, ty, vs, i + 1) + rest, cur[i]);
      FieldStep(e, ty, vs, i, rest, cur, r);
      NestedFields(e, ty, vs, i + 1, rest, old_, cur[i := r]);
    }
  }

  lemma FieldOf(ty: Ty, vs: seq<Val>, i: nat)
    requires ty.Obj? && Nestable(ty) && HasType(ty, VObj(vs)) && Fits(VObj(vs)) && i < |ty.fields|
    ensures |vs| == |ty.fields| && Nestable(ty.fields[i]) && HasType(ty.fields[i], vs[i]) && Fits(vs[i])
  {
  }

  /** A field in front of the others, and where it is dumped. */
  lemma FieldStep(e: Encoder, ty: Ty, vs: seq<Val>, i: nat, rest: bytes, cur: seq<Val>, r: Val)
    requires ty.Obj? && i < |vs| == |ty.fields| == |cur|
    requires Dump(ty.fields[i], Bytes(e, ty.fields[i], vs[i]) + (FieldBytes(e, ty, vs, i + 1) + rest), cur[i])
      == Out(Ok, r, FieldBytes(e, ty, vs, i + 1) + rest)
    ensures DumpFields(ty, FieldBytes(e, ty, vs, i) + rest, cur, i)
      == DumpFields(ty, FieldBytes(e, ty, vs, i + 1) + rest, cur[i := r], i + 1)
  {
    hide Dump, Enc, MapEnc;
    var tail := FieldBytes(e, ty, vs, i + 1) + rest;
    assert FieldBytes(e, ty, vs, i) + rest == Bytes(e, ty.fields[i], vs[i]) + tail;
  }

  lemma NoFields(e: Encoder, ty: Ty, vs: seq<Val>, rest: bytes, cur: seq<Val>)
    requires ty.Obj? && |cur| == |ty.fields|
    ensures DumpFields(ty, FieldBytes(e, ty, vs, |ty.fields|) + rest, cur, |ty.fields|) == Out(Ok, VObj(cur), rest)
  {
    hide Dump, Enc, MapEnc;
    assert [] + rest == rest;
  }

  lemma {:induction false} NestedList(e: Encoder, ty: Ty, vs: seq<Val>, rest: bytes, dest: Val)
    requires ty.IsList() && Nestable(ty) && HasType(ty, VList(vs)) && Fits(VList(vs))
    ensures |Bytes(e, ty, VList(vs))| > 0
    ensures DumpBody(ty, Bytes(e, ty, VList(vs))[1..] + rest, dest)
      == Out(Ok, VList(BackElems(e, ty, vs, OldElems(ty, |vs|, dest))), rest)
    decreases ty, 0, 0x1_8000
  {
    hide EncElems, MapEncElems, DumpElems, DumpMerged, CheckSize, Wrap16, Raw, Back, BackElems;
    if ty.elem.Base? {
      BothMerge(e, ty, vs);
      MergedIsBack(e, ty, vs, OldElems(ty, |vs|, dest));
      MergedComes(ty, vs, rest, dest);
    } else {
      var body := ElemBytes(e, ty, vs, 0);
      assert Bytes(e, ty, VList(vs))[1..] + rest == Container(|vs|, body) + rest;
      ContainerRead(|vs|, body, rest);
      SurvivesField(|vs|);
      NestedElems(e, ty, vs, rest, OldElems(ty, |vs|, dest));
    }
  }

  lemma BothMerge(e: Encoder, ty: Ty, vs: seq<Val>)
    requires ty.IsMerged()
    ensures Bytes(e, ty, VList(vs)) == Enc(ty, VList(vs))
  {
  }

  lemma MergedIsBack(e: Encoder, ty: Ty, vs: seq<Val>, cur: seq<Val>)
    requires ty.IsMerged()
    ensures BackElems(e, ty, vs, cur) == vs
  {
  }

  lemma MergedComes(ty: Ty, vs: seq<Val>, rest: bytes, dest: Val)
    requires ty.IsMerged() && Nestable(ty) && HasType(ty, VList(vs)) && Fits(VList(vs))
    ensures |Enc(ty, VList(vs))| > 0
    ensures DumpMerged(ty, Enc(ty, VList(vs))[1..] + rest, dest) == Out(Ok, VList(vs), rest)
  {
    hide DumpMerged, Enc, HasType, Fits;
    ForwardMerged(ty, vs, rest, dest);
  }

  /** The elements, over those of the destination. */
  lemma {:induction false} NestedElems(e: Encoder, ty: Ty, vs: seq<Val>, rest: bytes, cur: seq<Val>)
    requires ty.IsList() && !ty.elem.Base? && Nestable(ty) && HasType(ty, VList(vs)) && Fits(VList(vs)) && |vs| == |cur|
    ensures DumpElems(ty, |vs|, ElemBytes(e, ty, vs, 0) + rest, cur, 0)
      == Out(Ok, VList(BackElems(e, ty, vs, cur)), rest)
    decreases ty, 0, 0x1_0000
  {
    hide Dump, Enc, MapEnc, DumpElems, EncElems, MapEncElems, Back;
    if ty.elem.Slice? {
      if e.ByAddress? {
        FirstElems(ty, vs, 0, rest, cur, cur);
      } else {
        ElemsInTurn(ty, vs, 0, rest, cur, cur);
      }
      if vs != [] {
        assert cur == [cur[0]] + cur[1..];
      }
    } else {
      EachElem(e, ty, vs, 0, rest, cur, cur);
    }
  }

  /** An element in front of the others, and where it is dumped. */
  lemma ElemStep(e: Encoder, ty: Ty, vs: seq<Val>, i: nat, rest: bytes, cur: seq<Val>, r: Val)
    requires ty.IsList() && i < |vs| <= |cur|
    requires var k, j := Source(e, ty.elem, i), StrideIndex(ty.elem, i);
      Dump(ty.elem, Bytes(e, ty.elem, vs[k]) + (ElemBytes(e, ty, vs, i + 1) + rest), cur[j])
      == Out(Ok, r, ElemBytes(e, ty, vs, i + 1) + rest)
    ensures DumpElems(ty, |vs|, ElemBytes(e, ty, vs, i) + rest, cur, i)
      == DumpElems(ty, |vs|, ElemBytes(e, ty, vs, i + 1) + rest, cur[StrideIndex(ty.elem, i) := r], i + 1)
  {
    hide Dump, Enc, MapEnc;
    var tail := ElemBytes(e, ty, vs, i + 1) + rest;
    assert ElemBytes(e, ty, vs, i) + rest == Bytes(e, ty.elem, vs[Source(e, ty.elem, i)]) + tail;
  }

  lemma NoElems(e: Encoder, ty: Ty, vs: seq<Val>, rest: bytes, cur: seq<Val>)
    requires ty.IsList() && |vs| <= |cur|
    ensures DumpElems(ty, |vs|, ElemBytes(e, ty, vs, |vs|) + rest, cur, |vs|) == Out(Ok, VList(cur), rest)
  {
    hide Dump, Enc, MapEnc;
    assert [] + rest == rest;
  }

  lemma ElemOf(ty: Ty, vs: seq<Val>, i: nat)
    requires ty.IsList() && Nestable(ty) && HasType(ty, VList(vs)) && Fits(VList(vs)) && i < |vs|
    ensures Nestable(ty.elem) && HasType(ty.elem, vs[i]) && Fits(vs[i])
  {
  }

  lemma {:induction false} EachElem(e: Encoder, ty: Ty, vs: seq<Val>, i: nat, rest: bytes, old_: seq<Val>,
                                    cur: seq<Val>)
    requires ty.IsList() && !ty.elem.Slice? && Nestable(ty) && HasType(ty, VList(vs)) && Fits(VList(vs))
    requires i <= |vs| == |cur| == |old_|
    requires forall j :: 0 <= j < |cur| ==> cur[j] == if j < i then Back(e, ty.elem, vs[j], old_[j]) else old_[j]
    ensures DumpElems(ty, |vs|, ElemBytes(e, ty, vs, i) + rest, cur, i)
      == Out(Ok, VList(BackElems(e, ty, vs, old_)), rest)
    decreases ty, 0, |vs| - i
  {
    hide Dump, DumpElems, Bytes, ElemBytes, Back, HasType, Fits, Nestable;
    if i == |vs| {
      NoElems(e, ty, vs, rest, cur);
      assert cur == BackElems(e, ty, vs, old_);
    } else {
      var r := Back(e, ty.elem, vs[i], cur[i]);
      ElemOf(ty, vs, i);
      NestedDump(e, ty.elem, vs[i], ElemBytes(e, ty, vs, i + 1) + rest, cur[i]);
      ElemStep(e, ty, vs, i, rest, cur, r);
      EachElem(e, ty, vs, i + 1, rest, old_, cur[i := r]);
    }
  }

  lemma {:induction false} FirstElems(ty: Ty, vs: seq<Val>, i: nat, rest: bytes, old_: seq<Val>, cur: seq<Val>)
    requires ty.IsList() && ty.elem.Slice? && Nestable(ty) && HasType(ty, VList(vs)) && Fits(VList(vs))
    requires i <= |vs| == |cur| == |old_|
    requires vs != [] ==>
      cur == [if i == 0 then old_[0] else Back(ByAddress, ty.elem, vs[0], old_[0])] + old_[1..]
    ensures DumpElems(ty, |vs|, ElemBytes(ByAddress, ty, vs, i) + rest, cur, i)
      == Out(Ok, VList(BackElems(ByAddress, ty, vs, old_)), rest)
    decreases ty, 0, |vs| - i
  {
    hide Dump, DumpElems, Bytes, ElemBytes, Back, HasType, Fits, Nestable;
    if i == |vs| {
      NoElems(ByAddress, ty, vs, rest, cur);
    } else {
      var r := Back(ByAddress, ty.elem, vs[0], cur[0]);
      ElemOf(ty, vs, 0);
      Again(ty.elem, vs[0], old_[0]);
      NestedDump(ByAddress, ty.elem, vs[0], ElemBytes(ByAddress, ty, vs, i + 1) + rest, cur[0]);
      ElemStep(ByAddress, ty, vs, i, rest, cur, r);
      assert cur[0 := r] == [r] + old_[1..];
      FirstElems(ty, vs, i + 1, rest, old_, cur[0 := r]);
    }
  }

  lemma {:induction false} ElemsInTurn(ty: Ty, vs: seq<Val>, i: nat, rest: bytes, old_: seq<Val>, cur: seq<Val>)
    requires ty.IsList() && ty.elem.Slice? && Nestable(ty) && HasType(ty, VList(vs)) && Fits(VList(vs))
    requires i <= |vs| == |cur| == |old_|
    requires vs != [] ==> cur == [InTurn(ty, vs, i, old_[0])] + old_[1..]
    ensures DumpElems(ty, |vs|, ElemBytes(Reflective, ty, vs, i) + rest, cur, i)
      == Out(Ok, VList(BackElems(Reflective, ty, vs, old_)), rest)
    decreases ty, 0, |vs| - i
  {
    hide Dump, DumpElems, Bytes, ElemBytes, Back, HasType, Fits, Nestable;
    if i == |vs| {
      NoElems(Reflective, ty, vs, rest, cur);
    } else {
      var r := Back(Reflective, ty.elem, vs[i], cur[0]);
      ElemOf(ty, vs, i);
      NestedDump(Reflective, ty.elem, vs[i], ElemBytes(Reflective, ty, vs, i + 1) + rest, cur[0]);
      ElemStep(Reflective, ty, vs, i, rest, cur, r);
      assert cur[0 := r] == [r] + old_[1..];
      ElemsInTurn(ty, vs, i + 1, rest, old_, cur[0 := r]);
    }
  }

  lemma {:induction false} NestedDict(e: Encoder, ty: Ty, es: seq<Pair>, rest: bytes, dest: Val)
    requires ty.Dict? && Nestable(ty) && HasType(ty, VDict(es)) && Fits(VDict(es))
    ensures |Bytes(e, ty, VDict(es))| > 0
    ensures DumpBody(ty, Bytes(e, ty, VDict(es))[1..] + rest, dest) == Out(Ok, Back(e, ty, VDict(es), dest), rest)
    decreases ty, 0, 0x1_0000
  {
    hide EncPairs, DumpPairs, CheckSize, Wrap16, Back;
    BothPair(e, ty, es);
    DictRead(ty, es, rest);
    SurvivesField(|es|);
    NestedPairs(ty, es, 0, rest, []);
    DictIsBack(e, ty, es, dest);
  }

  lemma BothPair(e: Encoder, ty: Ty, es: seq<Pair>)
    requires ty.Dict?
    ensures Bytes(e, ty, VDict(es)) == Enc(ty, VDict(es))
  {
  }

  /** The entries that come back. */
  function BackPairs(ty: Ty, es: seq<Pair>): (r: seq<Pair>)
    requires ty.Dict?
    ensures |r| == |es|
  {
    seq(|es|, i requires 0 <= i < |es| => Pair(es[i].k, Back(Reflective, ty.value, es[i].v, Zero(ty.value))))
  }

  lemma DictIsBack(e: Encoder, ty: Ty, es: seq<Pair>, dest: Val)
    requires ty.Dict?
    ensures Back(e, ty, VDict(es), dest) == VDict(BackPairs(ty, es))
  {
    hide BackElems;
    assert Back(e, ty, VDict(es), dest).entries == BackPairs(ty, es);
  }

  lemma {:induction false} NestedPairs(ty: Ty, es: seq<Pair>, i: nat, rest: bytes, acc: seq<Pair>)
    requires ty.Dict? && Nestable(ty) && HasType(ty, VDict(es)) && Fits(VDict(es)) && i <= |es|
    requires acc == BackPairs(ty, es)[..i]
    ensures DumpPairs(ty, |es| - i, EncPairs(ty, es, i) + rest, acc) == Out(Ok, VDict(BackPairs(ty, es)), rest)
    decreases ty, 0, |es| - i
  {
    hide Dump, DumpPairs, EncPairs, MapEnc, Enc, HasType, Fits, Back, Nestable;
    if i == |es| {
      NoMorePairs(ty, es, rest, acc);
      assert acc == BackPairs(ty, es);
    } else {
      var p := BackPairs(ty, es)[i];
      NestedEntry(ty, es, i, rest);
      PairsStep(ty, |es| - i, EncPairs(ty, es, i) + rest, acc, p, EncPairs(ty, es, i + 1) + rest);
      NestedPairs(ty, es, i + 1, rest, acc + [p]);
    }
  }

  lemma {:induction false} NoMorePairs(ty: Ty, es: seq<Pair>, rest: bytes, acc: seq<Pair>)
    requires ty.Dict?
    ensures DumpPairs(ty, 0, EncPairs(ty, es, |es|) + rest, acc) == Out(Ok, VDict(acc), rest)
  {
    hide Dump, MapEnc;
    assert [] + rest == rest;
  }

  /** Where the dump of an entry passes by. */
  lemma {:induction false} NestedEntry(ty: Ty, es: seq<Pair>, i: nat, rest: bytes)
    requires ty.Dict? && Nestable(ty) && HasType(ty, VDict(es)) && Fits(VDict(es)) && i < |es|
    ensures forall j :: 0 <= j < i ==> es[j].k != es[i].k
    ensures var s := EncPairs(ty, es, i) + rest;
      |s| > 0 && s[0] == TDICTK
      && var k := Dump(ty.key, s[1..], Zero(ty.key));
         k.st == Ok && k.val == es[i].k && |k.rest| > 0 && k.rest[0] == TDICTV
         && Dump(ty.value, k.rest[1..], Zero(ty.value))
            == Out(Ok, Back(Reflective, ty.value, es[i].v, Zero(ty.value)), EncPairs(ty, es, i + 1) + rest)
    decreases ty, 0, 0
  {
    hide DumpPairs, EncPairs, HasType, Fits, Norm, Dump, Enc, MapEnc, Back;
    var tail := EncPairs(ty, es, i + 1) + rest;
    EntrySplit(ty, es, i, rest);
    EntryTyped(ty, es, i);
    EntryKept(ty, es, i);
    EncodersAgree(ty.key, es[i].k);
    KeyNorm(ty.key, es[i].k);
    Forward(ty.key, es[i].k, [TDICTV] + (MapEnc(ty.value, es[i].v) + tail), Zero(ty.key));
    NestedDump(Reflective, ty.value, es[i].v, tail, Zero(ty.value));
  }

  // ---------------------------------------------------------------- once more

  /** What was saved by address comes back the same over what it came back as before. */
  lemma {:induction false} Again(ty: Ty, v: Val, dest: Val)
    ensures Back(ByAddress, ty, v, Back(ByAddress, ty, v, dest)) == Back(ByAddress, ty, v, dest)
    decreases ty
  {
    match ty
    case Obj(fields) => if v.VObj? && |v.fields| == |fields| { AgainFields(ty, v.fields, dest); }
    case Slice(_) => if v.VList? { AgainElems(ty, v.elems, dest); }
    case Array(_, _) => if v.VList? { AgainElems(ty, v.elems, dest); }
    case Ptr(target) =>
      if v.VPtr? {
        Again(target, v.target, Behind(ty, dest));
        BackIsNil(ByAddress, target, v.target, Behind(ty, dest));
        BackIsNil(ByAddress, target, v.target, Behind(ty, Back(ByAddress, ty, v, dest)));
      }
    case _ =>
  }

  lemma {:induction false} AgainFields(ty: Ty, vs: seq<Val>, dest: Val)
    requires ty.Obj? && |vs| == |ty.fields|
    ensures var b := Back(ByAddress, ty, VObj(vs), dest);
      Back(ByAddress, ty, VObj(vs), b) == b
    decreases ty, 0
  {
    hide Back;
    var cur := OldFields(ty, dest);
    var b := BackFields(ByAddress, ty, vs, cur);
    ObjIsBack(ByAddress, ty, vs, dest);
    ObjIsBack(ByAddress, ty, vs, VObj(b));
    forall i | 0 <= i < |vs| ensures Back(ByAddress, ty.fields[i], vs[i], b[i]) == b[i] {
      Again(ty.fields[i], vs[i], cur[i]);
    }
    assert BackFields(ByAddress, ty, vs, b) == b;
  }

  lemma {:induction false} AgainElems(ty: Ty, vs: seq<Val>, dest: Val)
    requires ty.IsList()
    ensures var b := Back(ByAddress, ty, VList(vs), dest);
      Back(ByAddress, ty, VList(vs), b) == b
    decreases ty, 0
  {
    hide Back;
    var cur := OldElems(ty, |vs|, dest);
    var b := BackElems(ByAddress, ty, vs, cur);
    ListIsBack(ty, vs, dest);
    ListIsBack(ty, vs, VList(b));
    if |cur| == |vs| && vs != [] {
      assert |b| == |vs|;
      assert OldElems(ty, |vs|, VList(b)) == b;
      if ty.elem.Slice? {
        Again(ty.elem, vs[0], cur[0]);
      } else {
        forall i | 0 <= i < |vs| ensures Back(ByAddress, ty.elem, vs[i], b[i]) == b[i] {
          Again(ty.elem, vs[i], cur[i]);
        }
      }
      assert BackElems(ByAddress, ty, vs, b) == b;
    }
  }

  lemma ListIsBack(ty: Ty, vs: seq<Val>, dest: Val)
    requires ty.IsList()
    ensures Back(ByAddress, ty, VList(vs), dest) == VList(BackElems(ByAddress, ty, vs, OldElems(ty, |vs|, dest)))
  {
    hide BackElems;
  }

  // ---------------------------------------------------------------- when a value comes back

  /** Without slices in lists, all of it does. */
  lemma BackIsNorm(e: Encoder, ty: Ty, v: Val, dest: Val)
    requires WellFormed(ty) && HasType(ty, v) && Fits(v)
    ensures Back(e, ty, v, dest) == Norm(ty, v)
  {
    hide Dump, Enc, MapEnc, Back, HasType, Fits, WellFormed, Norm, Nestable;
    WellFormedIsNestable(ty);
    EncodersAgree(ty, v);
    NestedDump(e, ty, v, [], dest);
    Forward(ty, v, [], dest);
  }

  /**
    The value comes back over the destination: of slices in a list, the first as it is (or,
    saved reflectively, as all of them in turn leave it), each other because the destination
    already has it.
   */
  predicate Returns(e: Encoder, ty: Ty, v: Val, dest: Val)
    decreases ty, 1, 0
  {
    match ty
    case Obj(fields) =>
      v.VObj? && |v.fields| == |fields| ==>
        forall i :: 0 <= i < |fields| ==> Returns(e, fields[i], v.fields[i], OldFields(ty, dest)[i])
    case Slice(_) => v.VList? ==> ReturnsElems(e, ty, v.elems, OldElems(ty, |v.elems|, dest))
    case Array(_, _) => v.VList? ==> ReturnsElems(e, ty, v.elems, OldElems(ty, |v.elems|, dest))
    case Dict(_, value) =>
      v.VDict? ==>
        forall i :: 0 <= i < |v.entries| ==> Returns(Reflective, value, v.entries[i].v, Zero(value))
    case Ptr(target) => v.VPtr? ==> Returns(ByAddress, target, v.target, Behind(ty, dest))
    case _ => true
  }

  predicate ReturnsElems(e: Encoder, ty: Ty, vs: seq<Val>, cur: seq<Val>)
    requires ty.IsList()
    decreases ty, 0, 0
  {
    |cur| == |vs| && vs != [] ==>
      if !ty.elem.Slice? then forall i :: 0 <= i < |vs| ==> Returns(e, ty.elem, vs[i], cur[i])
      else
        (if e.ByAddress? then Returns(e, ty.elem, vs[0], cur[0])
         else InTurn(ty, vs, |vs|, cur[0]) == Norm(ty.elem, vs[0]))
        && forall i :: 0 < i < |vs| ==> cur[i] == Norm(ty.elem, vs[i])
  }

  lemma {:induction false} ReturnsIsBack(e: Encoder, ty: Ty, v: Val, dest: Val)
    requires HasType(ty, v)
    ensures Returns(e, ty, v, dest) <==> Back(e, ty, v, dest) == Norm(ty, v)
    decreases ty, 1, 0
  {
    hide BackElems, ReturnsElems, BackFields;
    match ty
    case Obj(fields) => ReturnsFields(e, ty, v.fields, dest);
    case Slice(_) => if v.VList? { ElemsReturn(e, ty, v.elems, OldElems(ty, |v.elems|, dest)); }
    case Array(_, _) => ElemsReturn(e, ty, v.elems, OldElems(ty, |v.elems|, dest));
    case Dict(_, _) => if v.VDict? { PairsReturn(e, ty, v.entries, dest); }
    case Ptr(target) =>
      if v.VPtr? {
        ReturnsIsBack(ByAddress, target, v.target, Behind(ty, dest));
        BackIsNil(ByAddress, target, v.target, Behind(ty, dest));
      }
    case _ =>
  }

  lemma {:induction false} ReturnsFields(e: Encoder, ty: Ty, vs: seq<Val>, dest: Val)
    requires ty.Obj? && HasType(ty, VObj(vs))
    ensures Returns(e, ty, VObj(vs), dest) <==> Back(e, ty, VObj(vs), dest) == Norm(ty, VObj(vs))
    decreases ty, 0, 0
  {
    hide HasType;
    FieldsTyped(ty, vs);
    var cur := OldFields(ty, dest);
    var got, want := BackFields(e, ty, vs, cur), Norm(ty, VObj(vs)).fields;
    forall i | 0 <= i < |vs|
      ensures got[i] == Back(e, ty.fields[i], vs[i], cur[i]) && want[i] == Norm(ty.fields[i], vs[i])
      ensures Returns(e, ty.fields[i], vs[i], cur[i]) <==> got[i] == want[i]
    {
      ReturnsIsBack(e, ty.fields[i], vs[i], cur[i]);
    }
    if forall i :: 0 <= i < |vs| ==> got[i] == want[i] {
      assert got == want;
    }
  }

  lemma FieldsTyped(ty: Ty, vs: seq<Val>)
    requires ty.Obj? && HasType(ty, VObj(vs))
    ensures |vs| == |ty.fields| && forall i :: 0 <= i < |vs| ==> HasType(ty.fields[i], vs[i])
  {
  }

  lemma {:induction false} ElemsReturn(e: Encoder, ty: Ty, vs: seq<Val>, cur: seq<Val>)
    requires ty.IsList() && HasType(ty, VList(vs)) && |cur| == |vs|
    ensures ReturnsElems(e, ty, vs, cur) <==> BackElems(e, ty, vs, cur) == NormAll(ty.elem, vs)
    decreases ty, 0, 1
  {
    hide Back, InTurn, Returns, HasType, Norm;
    ElemsTyped(ty, vs);
    if vs == [] {
      assert BackElems(e, ty, vs, cur) == NormAll(ty.elem, vs);
    } else if ty.elem.Slice? {
      ReturnsIsBack(e, ty.elem, vs[0], cur[0]);
      FirstAndRest(NormAll(ty.elem, vs), BackElems(e, ty, vs, cur)[0], cur[1..]);
      assert cur[1..] == NormAll(ty.elem, vs)[1..] <==> forall i :: 0 < i < |vs| ==> cur[i] == Norm(ty.elem, vs[i]) by {
        assert NormAll(ty.elem, vs)[1..] == seq(|vs| - 1, i requires 0 <= i < |vs| - 1 => Norm(ty.elem, vs[i + 1]));
        assert forall i :: 0 < i < |vs| ==> cur[i] == cur[1..][i - 1];
      }
    } else {
      EachReturns(e, ty, vs, cur);
    }
  }

  lemma FirstAndRest(s: seq<Val>, x: Val, rest: seq<Val>)
    requires s != []
    ensures [x] + rest == s <==> x == s[0] && rest == s[1..]
  {
    assert s == [s[0]] + s[1..];
    assert ([x] + rest)[0] == x && ([x] + rest)[1..] == rest;
  }

  lemma {:induction false} EachReturns(e: Encoder, ty: Ty, vs: seq<Val>, cur: seq<Val>)
    requires ty.IsList() && !ty.elem.Slice? && HasType(ty, VList(vs)) && |cur| == |vs| && vs != []
    ensures BackElems(e, ty, vs, cur) == NormAll(ty.elem, vs)
      <==> forall i :: 0 <= i < |vs| ==> Returns(e, ty.elem, vs[i], cur[i])
    decreases ty, 0, 0
  {
    hide Back, Returns, HasType, Norm;
    ElemsTyped(ty, vs);
    var got, want := BackElems(e, ty, vs, cur), NormAll(ty.elem, vs);
    forall i | 0 <= i < |vs| ensures Returns(e, ty.elem, vs[i], cur[i]) <==> got[i] == want[i] {
      ReturnsIsBack(e, ty.elem, vs[i], cur[i]);
    }
    if forall i :: 0 <= i < |vs| ==> got[i] == want[i] {
      assert got == want;
    }
  }

  lemma ElemsTyped(ty: Ty, vs: seq<Val>)
    requires ty.IsList() && HasType(ty, VList(vs))
    ensures forall i :: 0 <= i < |vs| ==> HasType(ty.elem, vs[i])
  {
  }

  lemma {:induction false} PairsReturn(e: Encoder, ty: Ty, es: seq<Pair>, dest: Val)
    requires ty.Dict? && HasType(ty, VDict(es))
    ensures Returns(e, ty, VDict(es), dest) <==> Back(e, ty, VDict(es), dest) == Norm(ty, VDict(es))
    decreases ty, 0, 0
  {
    hide HasType;
    DictIsBack(e, ty, es, dest);
    var got, want := BackPairs(ty, es), Norm(ty, VDict(es)).entries;
    forall i | 0 <= i < |es|
      ensures want[i] == Pair(es[i].k, Norm(ty.value, es[i].v))
      ensures Returns(Reflective, ty.value, es[i].v, Zero(ty.value)) <==> got[i] == want[i]
    {
      EntryTyped(ty, es, i);
      ReturnsIsBack(Reflective, ty.value, es[i].v, Zero(ty.value));
    }
    if forall i :: 0 <= i < |es| ==> got[i] == want[i] {
      assert got == want;
    }
  }

  /** Saved by either family and dumped over any destination, exactly those values come back. */
  lemma NestedRoundTripExactly(e: Encoder, ty: Ty, v: Val, rest: bytes, dest: Val)
    requires Nestable(ty) && HasType(ty, v) && Fits(v)
    ensures Returns(e, ty, v, dest) <==> Dump(ty, Bytes(e, ty, v) + rest, dest) == Out(Ok, Norm(ty, v), rest)
  {
    hide *;
    NestedDump(e, ty, v, rest, dest);
    ReturnsIsBack(e, ty, v, dest);
  }

  // ---------------------------------------------------------------- two levels

  /** Of slices of anything else than slices, saved reflectively, the last is left. */
  lemma LastInTurn(ty: Ty, vs: seq<Val>, n: nat, place: Val)
    requires ty.IsList() && WellFormed(ty.elem) && HasType(ty, VList(vs)) && Fits(VList(vs)) && 0 < n <= |vs|
    ensures InTurn(ty, vs, n, place) == Norm(ty.elem, vs[n - 1])
  {
    hide Back, WellFormed, Norm;
    BackIsNorm(Reflective, ty.elem, vs[n - 1], InTurn(ty, vs, n - 1, place));
  }

  /** A list of such slices, saved by address: the first comes back, and what the destination has behind it. */
  lemma SlicesByAddress(ty: Ty, vs: seq<Val>, rest: bytes, dest: Val)
    requires ty.IsList() && ty.elem.Slice? && Nestable(ty) && WellFormed(ty.elem)
    requires HasType(ty, VList(vs)) && Fits(VList(vs))
    ensures (forall i :: 0 < i < |vs| ==> OldElems(ty, |vs|, dest)[i] == Norm(ty.elem, vs[i]))
      <==> Dump(ty, Enc(ty, VList(vs)) + rest, dest) == Out(Ok, Norm(ty, VList(vs)), rest)
  {
    hide Dump, Enc, MapEnc, Back, WellFormed, Nestable, Norm, HasType, Fits, OldElems;
    OldCount(ty, vs, dest);
    NestedRoundTripExactly(ByAddress, ty, VList(vs), rest, dest);
    if vs != [] {
      var place := OldElems(ty, |vs|, dest)[0];
      ElemOf(ty, vs, 0);
      BackIsNorm(ByAddress, ty.elem, vs[0], place);
      ReturnsIsBack(ByAddress, ty.elem, vs[0], place);
    }
  }

  /**
    Saved reflectively, as the value of a map is, the last ends up in the first place: it must
    come back as the first would, and the others must be there already.
   */
  lemma SlicesReflectively(ty: Ty, vs: seq<Val>, rest: bytes, dest: Val)
    requires ty.IsList() && ty.elem.Slice? && Nestable(ty) && WellFormed(ty.elem)
    requires HasType(ty, VList(vs)) && Fits(VList(vs))
    ensures (vs == [] || Norm(ty.elem, vs[0]) == Norm(ty.elem, vs[|vs| - 1]))
        && (forall i :: 0 < i < |vs| ==> OldElems(ty, |vs|, dest)[i] == Norm(ty.elem, vs[i]))
      <==> Dump(ty, MapEnc(ty, VList(vs)) + rest, dest) == Out(Ok, Norm(ty, VList(vs)), rest)
  {
    hide Dump, Enc, MapEnc, Back, InTurn, WellFormed, Nestable, Norm, HasType, Fits, OldElems;
    OldCount(ty, vs, dest);
    NestedRoundTripExactly(Reflective, ty, VList(vs), rest, dest);
    if vs != [] {
      LastInTurn(ty, vs, |vs|, OldElems(ty, |vs|, dest)[0]);
    }
  }

  lemma OldCount(ty: Ty, vs: seq<Val>, dest: Val)
    requires ty.IsList() && HasType(ty, VList(vs))
    ensures |OldElems(ty, |vs|, dest)| == |vs|
  {
  }

  /**
    So into nil a slice of slices comes back exactly when all but the first are nil; in a map,
    exactly when it has one element or all are nil.
   */
  lemma SlicesIntoNil(ty: Ty, vs: seq<Val>, rest: bytes)
    requires ty.Slice? && ty.elem.Slice? && Nestable(ty) && WellFormed(ty.elem)
    requires HasType(ty, VList(vs)) && Fits(VList(vs))
    ensures (forall i :: 0 < i < |vs| ==> vs[i] == VNil)
      <==> Dump(ty, Enc(ty, VList(vs)) + rest, VNil) == Out(Ok, Norm(ty, VList(vs)), rest)
    ensures |vs| <= 1 || (forall i :: 0 <= i < |vs| ==> vs[i] == VNil)
      <==> Dump(ty, MapEnc(ty, VList(vs)) + rest, VNil) == Out(Ok, Norm(ty, VList(vs)), rest)
  {
    hide Dump, Enc, MapEnc, Back, Returns, WellFormed, Nestable, Fits;
    SlicesByAddress(ty, vs, rest, VNil);
    SlicesReflectively(ty, vs, rest, VNil);
    forall i | 0 <= i < |vs| ensures Norm(ty.elem, vs[i]) == VNil <==> vs[i] == VNil {
      assert vs[i].VNil? || vs[i].VList?;
    }
  }

  // ---------------------------------------------------------------- when the encoders agree

  /** No encoding of either family is the start of another. */
  lemma PrefixFree(e1: Encoder, e2: Encoder, ty: Ty, v1: Val, v2: Val, r1: bytes, r2: bytes)
    requires Nestable(ty) && HasType(ty, v1) && HasType(ty, v2) && Fits(v1) && Fits(v2)
    requires Bytes(e1, ty, v1) + r1 == Bytes(e2, ty, v2) + r2
    ensures Bytes(e1, ty, v1) == Bytes(e2, ty, v2) && r1 == r2
  {
    hide *;
    NestedDump(e1, ty, v1, r1, VNil);
    NestedDump(e2, ty, v2, r2, VNil);
    var b1, b2 := Bytes(e1, ty, v1), Bytes(e2, ty, v2);
    assert |b1| == |b2|;
    assert b1 == (b1 + r1)[..|b1|] == (b2 + r2)[..|b2|] == b2;
  }

  /** Both families save the value alike: slices in a list must all be saved as the first. */
  ghost predicate Alike(ty: Ty, v: Val)
    decreases ty, 1
  {
    match ty
    case Obj(fields) =>
      v.VObj? && |v.fields| == |fields| ==> forall i :: 0 <= i < |fields| ==> Alike(fields[i], v.fields[i])
    case Slice(_) => v.VList? ==> AlikeFrom(ty, v.elems, 0)
    case Array(_, _) => v.VList? ==> AlikeFrom(ty, v.elems, 0)
    case _ => true
  }

  /** The elements from i on. */
  ghost predicate AlikeFrom(ty: Ty, vs: seq<Val>, i: nat)
    requires ty.IsList()
    decreases ty, 0
  {
    forall j :: i <= j < |vs| ==>
      if ty.elem.Slice? then MapEnc(ty.elem, vs[j]) == Enc(ty.elem, vs[0]) else Alike(ty.elem, vs[j])
  }

  lemma SameContainer(count: nat, b1: bytes, b2: bytes)
    ensures Container(count, b1) == Container(count, b2) <==> b1 == b2
  {
    assert Container(count, b1)[6..] == b1;
    assert Container(count, b2)[6..] == b2;
  }

  lemma SameTagged(tag: byte, c1: bytes, c2: bytes)
    ensures [tag] + c1 == [tag] + c2 <==> c1 == c2
  {
    assert ([tag] + c1)[1..] == c1 && ([tag] + c2)[1..] == c2;
  }

  /** The two families write the same bytes exactly when all slices in lists are saved as their first. */
  lemma {:induction false} EncodersAgreeExactly(ty: Ty, v: Val)
    requires Nestable(ty) && HasType(ty, v) && Fits(v)
    ensures MapEnc(ty, v) == Enc(ty, v) <==> Alike(ty, v)
    decreases ty, 1, 0
  {
    hide Container, EncFields, MapEncFields, EncElems, MapEncElems, EncPairs, Raw;
    match ty
    case Obj(fields) =>
      FieldsAlike(ty, v.fields, 0);
      var b1, b2 := MapEncFields(ty, v.fields, 0), EncFields(ty, v.fields, 0);
      SameContainer(|fields|, b1, b2);
      SameTagged(TOBJECT, Container(|fields|, b1), Container(|fields|, b2));
    case Slice(_) => if v.VList? { ListsAlike(ty, v.elems); }
    case Array(_, _) => ListsAlike(ty, v.elems);
    case _ =>
  }

  lemma {:induction false} FieldsAlike(ty: Ty, vs: seq<Val>, i: nat)
    requires ty.Obj? && Nestable(ty) && HasType(ty, VObj(vs)) && Fits(VObj(vs)) && i <= |vs| == |ty.fields|
    ensures MapEncFields(ty, vs, i) == EncFields(ty, vs, i)
      <==> forall j :: i <= j < |vs| ==> Alike(ty.fields[j], vs[j])
    decreases ty, 0, |vs| - i
  {
    hide Enc, MapEnc, Alike, HasType, Fits, Nestable;
    if i < |vs| {
      FieldOf(ty, vs, i);
      EncodersAgreeExactly(ty.fields[i], vs[i]);
      FieldsAlike(ty, vs, i + 1);
      if MapEncFields(ty, vs, i) == EncFields(ty, vs, i) {
        var tail1, tail2 := MapEncFields(ty, vs, i + 1), EncFields(ty, vs, i + 1);
        PrefixFree(Reflective, ByAddress, ty.fields[i], vs[i], vs[i], tail1, tail2);
      }
    }
  }

  lemma {:induction false} ListsAlike(ty: Ty, vs: seq<Val>)
    requires ty.IsList() && Nestable(ty) && HasType(ty, VList(vs)) && Fits(VList(vs))
    ensures MapEnc(ty, VList(vs)) == Enc(ty, VList(vs)) <==> AlikeFrom(ty, vs, 0)
    decreases ty, 0, 0x1_0000 + |vs|
  {
    hide Container, EncElems, MapEncElems, Raw, HasType, Fits, Nestable;
    if ty.elem.Base? {
      BothMerge(Reflective, ty, vs);
    } else {
      ElemsAlike(ty, vs, 0);
      SameContainer(|vs|, MapEncElems(ty, vs, 0), EncElems(ty, vs, 0));
      SameTagged(TARRAY, Container(|vs|, MapEncElems(ty, vs, 0)), Container(|vs|, EncElems(ty, vs, 0)));
    }
  }

  lemma {:induction false} ElemsAlike(ty: Ty, vs: seq<Val>, i: nat)
    requires ty.IsList() && Nestable(ty) && HasType(ty, VList(vs)) && Fits(VList(vs)) && i <= |vs|
    ensures MapEncElems(ty, vs, i) == EncElems(ty, vs, i) <==> AlikeFrom(ty, vs, i)
    decreases ty, 0, |vs| - i
  {
    hide Enc, MapEnc, Alike, HasType, Fits, Nestable;
    if i < |vs| {
      var k := StrideIndex(ty.elem, i);
      ElemOf(ty, vs, i);
      ElemOf(ty, vs, k);
      if !ty.elem.Slice? { EncodersAgreeExactly(ty.elem, vs[i]); }
      ElemsAlike(ty, vs, i + 1);
      if MapEncElems(ty, vs, i) == EncElems(ty, vs, i) {
        PrefixFree(Reflective, ByAddress, ty.elem, vs[i], vs[k], MapEncElems(ty, vs, i + 1), EncElems(ty, vs, i + 1));
      }
    }
  }

  /** Slices of anything else than slices are, when they have the same normal form. */
  lemma SlicesAlike(ty: Ty, vs: seq<Val>)
    requires ty.IsList() && ty.elem.Slice? && WellFormed(ty.elem) && HasType(ty, VList(vs)) && Fits(VList(vs))
    ensures Alike(ty, VList(vs)) <==> forall i :: 0 <= i < |vs| ==> Norm(ty.elem, vs[i]) == Norm(ty.elem, vs[0])
  {
    hide Enc, MapEnc, WellFormed, Norm;
    forall i | 0 <= i < |vs|
      ensures MapEnc(ty.elem, vs[i]) == Enc(ty.elem, vs[0]) <==> Norm(ty.elem, vs[i]) == Norm(ty.elem, vs[0])
    {
      EncodersAgree(ty.elem, vs[i]);
      SelfDelimiting(ty.elem, vs[i], vs[0], [], []);
      assert Enc(ty.elem, vs[i]) + [] == Enc(ty.elem, vs[i]) && Enc(ty.elem, vs[0]) + [] == Enc(ty.elem, vs[0]);
    }
  }
}
