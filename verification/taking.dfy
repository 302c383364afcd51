/**
  Data saved under one type and dumped under another with the same schema stream: exactly
  which types take all that is saved under which, and what the values become.
 */
module Taking {
  import opened Wire
  import opened Types
  import opened Codec
  import opened RoundTrip
  import opened Shapes

  // ---------------------------------------------------------------- dumping under another type

  /** A pointer to a pointer: the nil behind it is written as a byte of its own. */
  predicate Deep(ty: Ty) {
    ty.Ptr? && ty.target.Ptr?
  }

  /** The lists of t1 have no more elements than the lists of t2 can take. */
  predicate HasRoom(t1: Ty, t2: Ty)
    requires t1.IsList() && t2.IsList()
  {
    t2.Slice? || (if t1.Array? then t1.len else MAX16) <= t2.len
  }

  /** All that is saved under t1 can be dumped under t2, a type of the same shape. */
  predicate Takes(t1: Ty, t2: Ty)
    decreases t1, t2
  {
    if t1.Ptr? then (Deep(t1) ==> Deep(t2)) && Takes(t1.target, t2)
    else if t2.Ptr? then Takes(t1, t2.target)
    else if t1.Obj? && t2.Obj? then
      |t1.fields| == |t2.fields| && forall i :: 0 <= i < |t1.fields| ==> Takes(t1.fields[i], t2.fields[i])
    else if t1.Dict? && t2.Dict? then Takes(t1.key, t2.key) && Takes(t1.value, t2.value)
    else if t1.IsList() && t2.IsList() then
      HasRoom(t1, t2) && ((t1.Array? && t1.len == 0) || Takes(t1.elem, t2.elem))
    else true
  }

  /** Two types of one shape, fit for saving under the first and dumping under the second. */
  ghost predicate Compatible(t1: Ty, t2: Ty) {
    WellFormed(t1) && WellFormed(t2) && ShapeOf(t1) == ShapeOf(t2) && Takes(t1, t2)
  }

  /** What a nil becomes: one behind a further pointer, or one of what lies behind all pointers. */
  function NilInto(ty: Ty, deep: bool, dest: Val): Val {
    if !ty.Ptr? then Skip(ty, dest)
    else if ty.target.Ptr? == deep then VNil
    else VPtr(NilInto(ty.target, deep, Behind(ty, dest)))
  }

  /** What a value of t1 becomes over a destination of type t2. */
  function Convert(t1: Ty, t2: Ty, v: Val, dest: Val): Val
    decreases t1, t2, 1, 0
  {
    if t1.Ptr? then if v.VPtr? then Convert(t1.target, t2, v.target, dest) else NilInto(t2, Deep(t1), dest)
    else if v.VNil? then NilInto(t2, false, dest)
    else if t2.Ptr? then VPtr(Convert(t1, t2.target, v, Behind(t2, dest)))
    else if t1.Obj? && t2.Obj? && v.VObj? then VObj(ConvertFields(t1, t2, v.fields, OldFields(t2, dest), 0))
    else if t1.Dict? && t2.Dict? && v.VDict? then VDict(ConvertPairs(t1, t2, v.entries, 0, []))
    else if t1.IsList() && t2.IsList() && v.VList? then
      VList(ConvertElems(t1, t2, v.elems, OldElems(t2, |v.elems|, dest), 0))
    else v
  }

  /** Field by field, over the fields of the destination. */
  function ConvertFields(t1: Ty, t2: Ty, vs: seq<Val>, cur: seq<Val>, i: nat): seq<Val>
    requires t1.Obj? && t2.Obj?
    decreases t1, t2, 0, |vs| - i
  {
    if i >= |vs| || i >= |t1.fields| || i >= |t2.fields| || i >= |cur| then cur
    else ConvertFields(t1, t2, vs, cur[i := Convert(t1.fields[i], t2.fields[i], vs[i], cur[i])], i + 1)
  }

  /** Element by element, over the elements of the destination, which may be more. */
  function ConvertElems(t1: Ty, t2: Ty, vs: seq<Val>, cur: seq<Val>, i: nat): seq<Val>
    requires t1.IsList() && t2.IsList()
    decreases t1, t2, 0, |vs| - i
  {
    if i >= |vs| || i >= |cur| then cur
    else ConvertElems(t1, t2, vs, cur[i := Convert(t1.elem, t2.elem, vs[i], cur[i])], i + 1)
  }

  /** Entry by entry into a new map. */
  function ConvertPairs(t1: Ty, t2: Ty, es: seq<Pair>, i: nat, acc: seq<Pair>): seq<Pair>
    requires t1.Dict? && t2.Dict?
    decreases t1, t2, 0, |es| - i
  {
    if i >= |es| then acc
    else
      ConvertPairs(t1, t2, es, i + 1,
                   DictPut(acc, Convert(t1.key, t2.key, es[i].k, Zero(t2.key)),
                            Convert(t1.value, t2.value, es[i].v, Zero(t2.value))))
  }

  /** The dump ends well, and at the end of what was written. */
  predicate Ends(o: Out, rest: bytes) {
    o.st == Ok && o.rest == rest
  }

  /** The type behind all pointers. */
  function Core(ty: Ty): Ty {
    if ty.Ptr? then Core(ty.target) else ty
  }

  lemma {:induction false} CoreTag(t1: Ty, t2: Ty)
    requires ShapeOf(t1) == ShapeOf(t2)
    ensures Tag(Core(t1)) == Tag(Core(t2))
    decreases t1, t2
  {
    if t1.Ptr? {
      CoreTag(t1.target, t2);
    } else if t2.Ptr? {
      CoreTag(t1, t2.target);
    }
  }

  /** The byte a nil is written as: 0 in front of a further pointer, else the negated tag of what is behind. */
  function NilMark(ty: Ty, deep: bool): byte {
    if deep then 0 else Neg(Tag(Core(ty)))
  }

  lemma NilIsMark(ty: Ty, v: Val)
    requires HasType(ty, v) && v.VNil?
    ensures Enc(ty, v) == [NilMark(ty, Deep(ty))]
  {
    if ty.Ptr? {
      assert Enc(ty, v) == [Neg(Tag(ty.target))];
      assert !ty.target.Ptr? ==> Core(ty.target) == ty.target;
    } else {
      assert Enc(ty, v) == [Neg(Tag(ty))];
    }
  }

  lemma {:induction false} CoreTagIsTag(ty: Ty)
    requires WellFormed(ty)
    ensures 11 <= Tag(Core(ty)) <= TDICT && Neg(Tag(Core(ty))) >= 0x80 && WellFormed(Core(ty)) && !Core(ty).Ptr?
  {
    if ty.Ptr? { CoreTagIsTag(ty.target); }
  }

  /** The mark is understood under any pointers, that of a further pointer only where there is one. */
  lemma {:induction false} NilUnder(ty: Ty, deep: bool, rest: bytes, dest: Val)
    requires WellFormed(ty) && (deep ==> Deep(ty))
    ensures Dump(ty, [NilMark(ty, deep)] + rest, dest) == Out(Ok, NilInto(ty, deep, dest), rest)
  {
    var s := [NilMark(ty, deep)] + rest;
    CoreTagIsTag(ty);
    assert s[1..] == rest;
    if !deep && Deep(ty) {
      NilUnder(ty.target, deep, rest, Behind(ty, dest));
    }
  }

  /** Where there is none, it is malformed data, whatever follows. */
  lemma DoublePointersAreUnfit(t1: Ty, t2: Ty, rest: bytes, dest: Val)
    requires Deep(t1) && !Deep(t2) && WellFormed(t2)
    ensures HasType(t1, VNil) && Fits(VNil) && Dump(t2, Enc(t1, VNil) + rest, dest).st == Bad
  {
    CoreTagIsTag(t2);
    assert (Enc(t1, VNil) + rest)[0] == 0;
  }

  /** What is not a nil passes through a pointer. */
  lemma PtrPasses(ty: Ty, e: bytes, rest: bytes, dest: Val)
    requires WellFormed(ty) && ty.Ptr? && |e| > 0 && 11 <= e[0] <= TDICT
    ensures var o := Dump(ty.target, e + rest, Behind(ty, dest));
      Dump(ty, e + rest, dest) == Out(o.st, VPtr(o.val), o.rest)
  {
    assert (e + rest)[0] == e[0];
  }

  lemma ValueMark(ty: Ty, v: Val)
    requires WellFormed(ty) && HasType(ty, v) && !ty.Ptr? && !v.VNil?
    ensures |Enc(ty, v)| > 0 && Enc(ty, v)[0] == Tag(ty) && 11 <= Tag(ty) <= TDICT
  {
  }

  lemma CompatibleParts(t1: Ty, t2: Ty)
    requires Compatible(t1, t2)
    ensures WellFormed(t1) && WellFormed(t2) && ShapeOf(t1) == ShapeOf(t2)
    ensures t1.Ptr? ==> Compatible(t1.target, t2) && (Deep(t1) ==> Deep(t2))
    ensures !t1.Ptr? && t2.Ptr? ==> Compatible(t1, t2.target)
  {
  }

  /**
    Whatever is saved under one type is dumped under a type that takes it, to its exact end,
    and becomes what the conversion says.
   */
  lemma {:induction false} DumpsUnder(t1: Ty, t2: Ty, v: Val, rest: bytes, dest: Val)
    requires Compatible(t1, t2) && HasType(t1, v) && Fits(v)
    ensures Dump(t2, Enc(t1, v) + rest, dest) == Out(Ok, Convert(t1, t2, v, dest), rest)
    decreases t1, t2, 1, 0
  {
    hide Dump, Enc, HasType, WellFormed, Fits, Compatible, ShapeOf, Tag, Core, Zero, NilInto;
    hide ConvertFields, ConvertElems, ConvertPairs;
    CompatibleParts(t1, t2);
    if v.VNil? {
      NilIsMark(t1, v);
      CoreTag(t1, t2);
      NilUnder(t2, Deep(t1), rest, dest);
    } else if t1.Ptr? {
      BehindSource(t1, v);
      DumpsUnder(t1.target, t2, v.target, rest, dest);
    } else if t2.Ptr? {
      ValueMark(t1, v);
      DumpsUnder(t1, t2.target, v, rest, Behind(t2, dest));
      PtrPasses(t2, Enc(t1, v), rest, dest);
    } else {
      ValueMark(t1, v);
      BodyUnder(t1, t2, v, rest, dest);
      SameTag(t1, t2);
      BodyEnds(t2, Enc(t1, v), rest, dest);
    }
  }

  lemma SameTag(t1: Ty, t2: Ty)
    requires ShapeOf(t1) == ShapeOf(t2) && !t1.Ptr? && !t2.Ptr?
    ensures Tag(t1) == Tag(t2)
  {
    CoreTag(t1, t2);
  }

  lemma BehindSource(ty: Ty, v: Val)
    requires ty.Ptr? && HasType(ty, v) && Fits(v) && !v.VNil?
    ensures v.VPtr? && HasType(ty.target, v.target) && Fits(v.target) && Enc(ty, v) == Enc(ty.target, v.target)
  {
  }

  lemma BodyEnds(ty: Ty, e: bytes, rest: bytes, dest: Val)
    requires !ty.Ptr? && |e| > 0 && e[0] == Tag(ty)
    ensures Dump(ty, e + rest, dest) == DumpBody(ty, e[1..] + rest, dest)
  {
    hide DumpBody;
    assert (e + rest)[1..] == e[1..] + rest;
  }

  /** The same behind the tag. */
  lemma {:induction false} BodyUnder(t1: Ty, t2: Ty, v: Val, rest: bytes, dest: Val)
    requires Compatible(t1, t2) && HasType(t1, v) && Fits(v) && !t1.Ptr? && !t2.Ptr? && !v.VNil?
    ensures |Enc(t1, v)| > 0 && DumpBody(t2, Enc(t1, v)[1..] + rest, dest) == Out(Ok, Convert(t1, t2, v, dest), rest)
    decreases t1, t2, 0, 0x3_0000
  {
    hide Dump, Enc, EncElems, EncFields, EncPairs, DumpElems, DumpFields, DumpPairs, DumpMerged, CheckSize, Wrap16;
    hide ConvertFields, ConvertElems, ConvertPairs;
    if t1.Obj? {
      ObjRead(t1, v.fields, rest);
      SurvivesField(|v.fields|);
      FieldShapes(t1, t2);
      FieldsUnder(t1, t2, v.fields, 0, rest, OldFields(t2, dest));
    } else if t1.Dict? {
      DictRead(t1, v.entries, rest);
      SurvivesField(|v.entries|);
      PairsUnder(t1, t2, v.entries, 0, rest, []);
    } else if t1.IsMerged() {
      assert ShapeOf(t1.elem) == ShapeOf(t2.elem) && t2.elem.Base?;
      MergedUnder(t1, t2, v.elems, rest, dest);
    } else if t1.IsList() {
      ListRead(t1, v.elems, rest);
      SurvivesField(|v.elems|);
      ElemsUnder(t1, t2, v.elems, 0, rest, OldElems(t2, |v.elems|, dest));
    } else {
      assert t1 == t2 && Convert(t1, t2, v, dest) == v;
      ValueMark(t1, v);
      ForwardLeaf(t1, v, rest, dest);
    }
  }

  lemma {:induction false} FieldsUnder(t1: Ty, t2: Ty, vs: seq<Val>, i: nat, rest: bytes, cur: seq<Val>)
    requires t1.Obj? && t2.Obj? && Compatible(t1, t2) && HasType(t1, VObj(vs)) && Fits(VObj(vs))
    requires i <= |t1.fields| == |t2.fields| == |cur|
    ensures DumpFields(t2, EncFields(t1, vs, i) + rest, cur, i)
      == Out(Ok, VObj(ConvertFields(t1, t2, vs, cur, i)), rest)
    decreases t1, t2, 0, |t1.fields| - i
  {
    hide Dump, Enc, Convert;
    FieldShapes(t1, t2);
    if i == |t1.fields| {
      assert [] + rest == rest;
    } else {
      var tail := EncFields(t1, vs, i + 1) + rest;
      assert EncFields(t1, vs, i) + rest == Enc(t1.fields[i], vs[i]) + tail;
      DumpsUnder(t1.fields[i], t2.fields[i], vs[i], tail, cur[i]);
      FieldsUnder(t1, t2, vs, i + 1, rest, cur[i := Convert(t1.fields[i], t2.fields[i], vs[i], cur[i])]);
    }
  }

  lemma {:induction false} ElemsUnder(t1: Ty, t2: Ty, vs: seq<Val>, i: nat, rest: bytes, cur: seq<Val>)
    requires t1.IsList() && t2.IsList() && Compatible(t1, t2) && HasType(t1, VList(vs)) && Fits(VList(vs))
    requires i <= |vs| <= |cur|
    ensures DumpElems(t2, |vs|, EncElems(t1, vs, i) + rest, cur, i)
      == Out(Ok, VList(ConvertElems(t1, t2, vs, cur, i)), rest)
    decreases t1, t2, 0, |vs| - i
  {
    hide Dump, Enc, Convert;
    if i == |vs| {
      assert [] + rest == rest;
    } else {
      var tail := EncElems(t1, vs, i + 1) + rest;
      assert EncElems(t1, vs, i) + rest == Enc(t1.elem, vs[i]) + tail;
      DumpsUnder(t1.elem, t2.elem, vs[i], tail, cur[i]);
      ElemsUnder(t1, t2, vs, i + 1, rest, cur[i := Convert(t1.elem, t2.elem, vs[i], cur[i])]);
    }
  }

  lemma {:induction false} BasesStay(t1: Ty, t2: Ty, vs: seq<Val>, cur: seq<Val>, i: nat)
    requires t1.IsMerged() && t2.IsMerged() && i <= |vs| <= |cur|
    requires (forall j :: 0 <= j < |vs| ==> vs[j].VBase?) && forall j :: 0 <= j < i ==> cur[j] == vs[j]
    ensures ConvertElems(t1, t2, vs, cur, i) == vs + cur[|vs|..]
    decreases |vs| - i
  {
    if i < |vs| {
      BasesStay(t1, t2, vs, cur[i := vs[i]], i + 1);
      assert cur[i := vs[i]][|vs|..] == cur[|vs|..];
    } else {
      assert cur == vs + cur[|vs|..];
    }
  }

  /** Base values are copied in one run, and what the destination has more stays. */
  lemma MergedUnder(t1: Ty, t2: Ty, vs: seq<Val>, rest: bytes, dest: Val)
    requires t1.IsMerged() && t2.IsMerged() && t1.elem == t2.elem && HasType(t1, VList(vs)) && Fits(VList(vs))
        && HasRoom(t1, t2)
    ensures |Enc(t1, VList(vs))| > 0
    ensures DumpMerged(t2, Enc(t1, VList(vs))[1..] + rest, dest)
      == Out(Ok, VList(ConvertElems(t1, t2, vs, OldElems(t2, |vs|, dest), 0)), rest)
  {
    hide DumpMerged, Enc, Chunks, CheckSize, Raw, Total, ConvertElems, OldElems, Wrap16, SizeOf;
    var n, cur := |vs|, OldElems(t2, |vs|, dest);
    MergedRead(t1, vs, rest);
    FitsAndRoom(t1, t2, vs, dest);
    SurvivesField(n);
    MergedSteps(t2, Enc(t1, VList(vs))[1..] + rest, dest, n, Raw(vs, 0) + rest);
    BasesStay(t1, t2, vs, cur, 0);
    MergedCut(vs, SizeOf(t1.elem.tag), rest);
    if n == 0 {
      assert vs + cur[0..] == cur;
    }
  }

  lemma FitsAndRoom(t1: Ty, t2: Ty, vs: seq<Val>, dest: Val)
    requires t1.IsMerged() && t2.IsList() && HasType(t1, VList(vs)) && Fits(VList(vs)) && HasRoom(t1, t2)
    ensures |vs| <= MAX16 && |vs| <= |OldElems(t2, |vs|, dest)|
    ensures forall j :: 0 <= j < |vs| ==> vs[j].VBase? && |vs[j].raw| == SizeOf(t1.elem.tag)
  {
    assert forall j :: 0 <= j < |vs| ==> HasType(t1.elem, vs[j]);
  }

  lemma MergedCut(vs: seq<Val>, size: nat, rest: bytes)
    requires forall j :: 0 <= j < |vs| ==> vs[j].VBase? && |vs[j].raw| == size
    ensures var u := Raw(vs, 0) + rest;
      Total(|vs|, size) <= |u| && Chunks(u, size, |vs|) == vs && u[Total(|vs|, size)..] == rest
          && (vs == [] ==> u == rest)
  {
    hide Chunks, Total;
    RawLength(vs, 0, size);
    ChunksOfRaw(vs, 0, size, rest);
    assert vs[0..] == vs;
    assert (Raw(vs, 0) + rest)[|Raw(vs, 0)|..] == rest;
    if vs == [] { assert [] + rest == rest; }
  }

  lemma EntryParts(t1: Ty, t2: Ty, es: seq<Pair>, i: nat)
    requires t1.Dict? && t2.Dict? && WellFormed(t1) && WellFormed(t2) && ShapeOf(t1) == ShapeOf(t2)
    requires HasType(t1, VDict(es)) && Fits(VDict(es)) && i < |es|
    ensures Takes(t1.key, t2.key) ==> Compatible(t1.key, t2.key)
    ensures Takes(t1.value, t2.value) ==> Compatible(t1.value, t2.value)
    ensures HasType(t1.key, es[i].k) && Fits(es[i].k) && MapEnc(t1.key, es[i].k) == Enc(t1.key, es[i].k)
    ensures HasType(t1.value, es[i].v) && Fits(es[i].v) && MapEnc(t1.value, es[i].v) == Enc(t1.value, es[i].v)
  {
    hide MapEnc, Enc, Takes;
    EntryTyped(t1, es, i);
    EncodersAgree(t1.key, es[i].k);
    EncodersAgree(t1.value, es[i].v);
  }

  /** One round of the entry loop. */
  lemma EntryPasses(ty: Ty, n: int, s: bytes, acc: seq<Pair>, vtail: bytes, tail: bytes)
    requires ty.Dict? && n > 0 && |s| > 0 && s[0] == TDICTK && Ends(Dump(ty.key, s[1..], Zero(ty.key)), vtail)
    requires |vtail| > 0 && vtail[0] == TDICTV && Ends(Dump(ty.value, vtail[1..], Zero(ty.value)), tail)
    ensures var k, v := Dump(ty.key, s[1..], Zero(ty.key)), Dump(ty.value, vtail[1..], Zero(ty.value));
      DumpPairs(ty, n, s, acc) == DumpPairs(ty, n - 1, tail, DictPut(acc, k.val, v.val))
  {
    hide Dump, DictPut;
  }

  lemma TakesParts(t1: Ty, t2: Ty)
    requires t1.Dict? && t2.Dict?
    ensures Takes(t1, t2) <==> Takes(t1.key, t2.key) && Takes(t1.value, t2.value)
  {
  }

  lemma {:induction false} PairsUnder(t1: Ty, t2: Ty, es: seq<Pair>, i: nat, rest: bytes, acc: seq<Pair>)
    requires t1.Dict? && t2.Dict? && Compatible(t1, t2) && HasType(t1, VDict(es)) && Fits(VDict(es)) && i <= |es|
    ensures DumpPairs(t2, |es| - i, EncPairs(t1, es, i) + rest, acc)
      == Out(Ok, VDict(ConvertPairs(t1, t2, es, i, acc)), rest)
    decreases t1, t2, 0, |es| - i
  {
    hide Dump, MapEnc, Enc, HasType, Fits, Zero, DumpPairs, EncPairs, Takes, ShapeOf, WellFormed, Convert;
    if i == |es| {
      NoPairs(t1, t2, es, rest, acc);
    } else {
      var tail := EncPairs(t1, es, i + 1) + rest;
      var vtail := [TDICTV] + (MapEnc(t1.value, es[i].v) + tail);
      EntrySplit(t1, es, i, rest);
      TakesParts(t1, t2);
      EntryParts(t1, t2, es, i);
      DumpsUnder(t1.key, t2.key, es[i].k, vtail, Zero(t2.key));
      DumpsUnder(t1.value, t2.value, es[i].v, tail, Zero(t2.value));
      EntryPasses(t2, |es| - i, EncPairs(t1, es, i) + rest, acc, vtail, tail);
      var k, v := Convert(t1.key, t2.key, es[i].k, Zero(t2.key)), Convert(t1.value, t2.value, es[i].v, Zero(t2.value));
      PairsUnder(t1, t2, es, i + 1, rest, DictPut(acc, k, v));
    }
  }

  lemma {:induction false} NoPairs(t1: Ty, t2: Ty, es: seq<Pair>, rest: bytes, acc: seq<Pair>)
    requires t1.Dict? && t2.Dict?
    ensures DumpPairs(t2, 0, EncPairs(t1, es, |es|) + rest, acc) == Out(Ok, VDict(acc), rest)
  {
    hide Dump, Enc, ShapeOf;
    assert [] + rest == rest;
  }

  // ---------------------------------------------------------------- what is not taken

  /** No dump under ty gets past e, whatever follows and whatever the destination. */
  ghost predicate Refuses(ty: Ty, e: bytes) {
    forall rest, dest :: Dump(ty, e + rest, dest).st != Ok
  }

  lemma {:induction false} ZeroFits(ty: Ty)
    requires WellFormed(ty)
    ensures Fits(Zero(ty)) && HasType(ty, Zero(ty))
  {
    ZeroHasType(ty);
    match ty
    case Obj(fields) =>
      forall i | 0 <= i < |fields| ensures Fits(Zero(fields[i])) {
        ZeroFits(fields[i]);
      }
    case Array(elem, _) => ZeroFits(elem);
    case _ =>
  }

  /**
    Of a type that is not taken, some value is refused: one with a nil in front of a further
    pointer, or with a list too long, at a place where everything saved before it is taken.
   */
  lemma {:induction false} Witness(t1: Ty, t2: Ty) returns (v: Val)
    requires WellFormed(t1) && WellFormed(t2) && ShapeOf(t1) == ShapeOf(t2) && !Takes(t1, t2)
    ensures HasType(t1, v) && Fits(v) && Refuses(t2, Enc(t1, v)) && (!t1.Ptr? ==> !v.VNil?)
    decreases t1, t2, 1, 0
  {
    hide Dump, Enc, ShapeOf, Zero, Refuses;
    if t1.Ptr? {
      if Deep(t1) && !Deep(t2) {
        v := VNil;
        DeepIsRefused(t1, t2);
      } else {
        SamePointed(t1, t2);
        var w := Witness(t1.target, t2);
        v := VPtr(w);
        BehindSource(t1, v);
      }
    } else if t2.Ptr? {
      SamePointed(t1, t2);
      v := Witness(t1, t2.target);
      ValueMark(t1, v);
      PtrRefuses(t2, Enc(t1, v));
    } else {
      v := BodyWitness(t1, t2);
    }
  }

  lemma SamePointed(t1: Ty, t2: Ty)
    ensures t1.Ptr? ==> ShapeOf(t1.target) == ShapeOf(t1)
    ensures t2.Ptr? ==> ShapeOf(t2.target) == ShapeOf(t2)
  {
  }

  lemma DeepIsRefused(t1: Ty, t2: Ty)
    requires Deep(t1) && !Deep(t2) && WellFormed(t2)
    ensures HasType(t1, VNil) && Fits(VNil) && Refuses(t2, Enc(t1, VNil))
  {
    hide Dump, Enc;
    forall rest, dest ensures Dump(t2, Enc(t1, VNil) + rest, dest).st != Ok {
      DoublePointersAreUnfit(t1, t2, rest, dest);
    }
    DoublePointersAreUnfit(t1, t2, [], VNil);
  }

  lemma PtrRefuses(ty: Ty, e: bytes)
    requires WellFormed(ty) && ty.Ptr? && |e| > 0 && 11 <= e[0] <= TDICT && Refuses(ty.target, e)
    ensures Refuses(ty, e)
  {
    hide Dump;
    forall rest, dest ensures Dump(ty, e + rest, dest).st != Ok {
      PtrPasses(ty, e, rest, dest);
    }
  }

  lemma BodyRefuses(ty: Ty, e: bytes)
    requires !ty.Ptr? && |e| > 0 && e[0] == Tag(ty)
    requires forall rest, dest :: DumpBody(ty, e[1..] + rest, dest).st != Ok
    ensures Refuses(ty, e)
  {
    hide Dump, DumpBody;
    forall rest, dest ensures Dump(ty, e + rest, dest).st != Ok {
      BodyEnds(ty, e, rest, dest);
    }
  }

  lemma {:induction false} BodyWitness(t1: Ty, t2: Ty) returns (v: Val)
    requires WellFormed(t1) && WellFormed(t2) && ShapeOf(t1) == ShapeOf(t2) && !Takes(t1, t2) && !t1.Ptr? && !t2.Ptr?
    ensures HasType(t1, v) && Fits(v) && Refuses(t2, Enc(t1, v)) && !v.VNil?
    decreases t1, t2, 0, 1
  {
    hide Dump, Enc, Zero, Refuses;
    if t1.Obj? {
      v := ObjWitness(t1, t2);
    } else if t1.Dict? {
      v := DictWitness(t1, t2);
    } else if HasRoom(t1, t2) {
      v := ElemWitness(t1, t2);
    } else {
      v := LongWitness(t1, t2);
    }
  }

  // Lists with more elements than there is room for.

  /** A list of n times the same value. */
  function Repeat(n: nat, w: Val): Val {
    VList(seq(n, _ => w))
  }

  lemma RepeatTyped(ty: Ty, n: nat, w: Val)
    requires ty.IsList() && HasType(ty.elem, w) && Fits(w) && n <= MAX16 && (ty.Array? ==> n == ty.len)
    ensures HasType(ty, Repeat(n, w)) && Fits(Repeat(n, w))
  {
  }

  /** A list is dumped behind its tag. */
  lemma ListStarts(t1: Ty, t2: Ty, v: Val, rest: bytes, dest: Val)
    requires t1.IsList() && t2.IsList() && t1.elem.Base? == t2.elem.Base? && HasType(t1, v) && v.VList?
    ensures |Enc(t1, v)| > 0
    ensures Dump(t2, Enc(t1, v) + rest, dest) == DumpBody(t2, Enc(t1, v)[1..] + rest, dest)
  {
    hide DumpBody, EncElems, HasType;
    assert (Enc(t1, v) + rest)[1..] == Enc(t1, v)[1..] + rest;
  }

  /** More elements than an array has never get through. */
  lemma {:induction false} TooMany(ty: Ty, n: nat, s: bytes, cur: seq<Val>, i: nat)
    requires ty.IsList() && !ty.elem.Slice? && i <= |cur| < n
    ensures DumpElems(ty, n, s, cur, i).st != Ok
    decreases n - i
  {
    hide Dump;
    if i < |cur| {
      var o := Dump(ty.elem, s, cur[i]);
      if o.st == Ok {
        TooMany(ty, n, o.rest, cur[i := o.val], i + 1);
      }
    }
  }

  /** When those that fit are taken, the next is a fault. */
  lemma {:induction false} NextFaults(t1: Ty, t2: Ty, vs: seq<Val>, i: nat, rest: bytes, cur: seq<Val>)
    requires t1.IsList() && t2.IsList() && !t1.elem.IsList() && !t2.elem.IsList() && Compatible(t1.elem, t2.elem)
    requires HasType(t1, VList(vs)) && Fits(VList(vs)) && i <= |cur| < |vs|
    ensures DumpElems(t2, |vs|, EncElems(t1, vs, i) + rest, cur, i).st == Fault
    decreases |vs| - i
  {
    hide Dump, Enc, Convert;
    var tail := EncElems(t1, vs, i + 1) + rest;
    assert EncElems(t1, vs, i) + rest == Enc(t1.elem, vs[i]) + tail;
    if i < |cur| {
      DumpsUnder(t1.elem, t2.elem, vs[i], tail, cur[i]);
      NextFaults(t1, t2, vs, i + 1, rest, cur[i := Convert(t1.elem, t2.elem, vs[i], cur[i])]);
    } else {
      FirstByte(t1.elem, vs[i]);
    }
  }

  /** The same behind the tag. */
  lemma ArrayFaults(t1: Ty, t2: Ty, vs: seq<Val>, rest: bytes, dest: Val)
    requires t1.IsList() && t2.Array? && t1.elem.Base? == t2.elem.Base? && (t1.elem.Base? ==> t1.elem == t2.elem)
    requires !t1.elem.IsList() && !t2.elem.IsList() && HasType(t1, VList(vs)) && Fits(VList(vs)) && |vs| > t2.len
    ensures |Enc(t1, VList(vs))| > 0 && DumpBody(t2, Enc(t1, VList(vs))[1..] + rest, dest).st != Ok
    ensures t1.elem.Base? || Compatible(t1.elem, t2.elem) ==>
      DumpBody(t2, Enc(t1, VList(vs))[1..] + rest, dest).st == Fault
  {
    hide Enc, EncElems, DumpElems, CheckSize, Wrap16, Raw, Chunks, Total, SizeOf, Compatible;
    SurvivesField(|vs|);
    if t1.elem.Base? {
      MergedRead(t1, vs, rest);
      assert forall j :: 0 <= j < |vs| ==> HasType(t1.elem, vs[j]);
      MergedCut(vs, SizeOf(t1.elem.tag), rest);
    } else {
      ListRead(t1, vs, rest);
      TooMany(t2, |vs|, EncElems(t1, vs, 0) + rest, OldElems(t2, |vs|, dest), 0);
      if Compatible(t1.elem, t2.elem) {
        NextFaults(t1, t2, vs, 0, rest, OldElems(t2, |vs|, dest));
      }
    }
  }

  /** More elements than an array has are never taken: if the first are, the next is a fault. */
  lemma ArraysAreUnfit(t1: Ty, t2: Ty, vs: seq<Val>, rest: bytes, dest: Val)
    requires t1.IsList() && t2.Array? && t1.elem.Base? == t2.elem.Base? && (t1.elem.Base? ==> t1.elem == t2.elem)
    requires !t1.elem.IsList() && !t2.elem.IsList() && HasType(t1, VList(vs)) && Fits(VList(vs)) && |vs| > t2.len
    ensures Dump(t2, Enc(t1, VList(vs)) + rest, dest).st != Ok
    ensures t1.elem.Base? || Compatible(t1.elem, t2.elem) ==>
      Dump(t2, Enc(t1, VList(vs)) + rest, dest).st == Fault
  {
    hide Dump, DumpBody, Enc, HasType, Fits, Compatible;
    ArrayFaults(t1, t2, vs, rest, dest);
    ListStarts(t1, t2, VList(vs), rest, dest);
  }

  lemma LongWitness(t1: Ty, t2: Ty) returns (v: Val)
    requires WellFormed(t1) && WellFormed(t2) && ShapeOf(t1) == ShapeOf(t2) && t1.IsList() && t2.IsList()
        && !HasRoom(t1, t2)
    ensures HasType(t1, v) && Fits(v) && Refuses(t2, Enc(t1, v)) && !v.VNil?
  {
    hide Dump, DumpBody, Enc, Zero;
    var n := if t1.Array? then t1.len else MAX16;
    ZeroFits(t1.elem);
    v := Repeat(n, Zero(t1.elem));
    RepeatTyped(t1, n, Zero(t1.elem));
    SameElem(t1, t2);
    ValueMark(t1, v);
    SameTag(t1, t2);
    forall rest, dest ensures DumpBody(t2, Enc(t1, v)[1..] + rest, dest).st != Ok {
      ArrayFaults(t1, t2, v.elems, rest, dest);
    }
    BodyRefuses(t2, Enc(t1, v));
  }

  lemma SameElem(t1: Ty, t2: Ty)
    requires t1.IsList() && t2.IsList() && ShapeOf(t1) == ShapeOf(t2)
    ensures ShapeOf(t1.elem) == ShapeOf(t2.elem) && t1.elem.Base? == t2.elem.Base?
        && (t1.elem.Base? ==> t1.elem == t2.elem)
  {
  }

  lemma {:induction false} ElemWitness(t1: Ty, t2: Ty) returns (v: Val)
    requires WellFormed(t1) && WellFormed(t2) && ShapeOf(t1) == ShapeOf(t2) && t1.IsList() && t2.IsList()
    requires !Takes(t1, t2) && HasRoom(t1, t2)
    ensures HasType(t1, v) && Fits(v) && Refuses(t2, Enc(t1, v)) && !v.VNil?
    decreases t1, t2, 0, 0
  {
    hide Dump, DumpBody, Enc, Zero, Refuses, ShapeOf;
    SameElem(t1, t2);
    var w := Witness(t1.elem, t2.elem);
    var n := if t1.Array? then t1.len else 1;
    v := Repeat(n, w);
    RepeatTyped(t1, n, w);
    ValueMark(t1, v);
    SameTag(t1, t2);
    BaseTaken(t1.elem, t2.elem);
    forall rest, dest ensures DumpBody(t2, Enc(t1, v)[1..] + rest, dest).st != Ok {
      ElemRefused(t1, t2, v.elems, rest, dest);
    }
    BodyRefuses(t2, Enc(t1, v));
  }

  lemma BaseTaken(t1: Ty, t2: Ty)
    ensures t1.Base? && t2.Base? ==> Takes(t1, t2)
  {
  }

  /** The first element does not get through. */
  lemma ElemRefused(t1: Ty, t2: Ty, vs: seq<Val>, rest: bytes, dest: Val)
    requires t1.IsList() && t2.IsList() && !t1.elem.Base? && !t2.elem.Base? && !t1.elem.IsList() && !t2.elem.IsList()
    requires HasRoom(t1, t2) && HasType(t1, VList(vs)) && Fits(VList(vs)) && vs != []
        && Refuses(t2.elem, Enc(t1.elem, vs[0]))
    ensures |Enc(t1, VList(vs))| > 0 && DumpBody(t2, Enc(t1, VList(vs))[1..] + rest, dest).st != Ok
  {
    hide Dump, Enc, CheckSize, Wrap16;
    SurvivesField(|vs|);
    ListRead(t1, vs, rest);
    var s, tail, cur := EncElems(t1, vs, 0) + rest, EncElems(t1, vs, 1) + rest, OldElems(t2, |vs|, dest);
    assert s == Enc(t1.elem, vs[0]) + tail;
    assert Dump(t2.elem, Enc(t1.elem, vs[0]) + tail, cur[0]).st != Ok;
    assert DumpElems(t2, |vs|, s, cur, 0).st != Ok;
  }

  // Structs and maps with a part that is not taken.

  /** The first field that is not taken. */
  lemma {:induction false} FirstRefused(t1: Ty, t2: Ty, i: nat) returns (k: nat)
    requires t1.Obj? && t2.Obj? && |t1.fields| == |t2.fields| && i <= |t1.fields|
    requires (forall j :: 0 <= j < i ==> Takes(t1.fields[j], t2.fields[j])) && !Takes(t1, t2)
    ensures k < |t1.fields| && !Takes(t1.fields[k], t2.fields[k])
    ensures forall j :: 0 <= j < k ==> Takes(t1.fields[j], t2.fields[j])
    decreases |t1.fields| - i
  {
    if i < |t1.fields| && Takes(t1.fields[i], t2.fields[i]) {
      k := FirstRefused(t1, t2, i + 1);
    } else {
      k := i;
    }
  }

  /** A struct of zeros but for one field. */
  function OneField(ty: Ty, k: nat, w: Val): Val
    requires ty.Obj?
  {
    VObj(seq(|ty.fields|, i requires 0 <= i < |ty.fields| => if i == k then w else Zero(ty.fields[i])))
  }

  lemma OneFieldTyped(ty: Ty, k: nat, w: Val)
    requires ty.Obj? && WellFormed(ty) && k < |ty.fields| && HasType(ty.fields[k], w) && Fits(w)
    ensures HasType(ty, OneField(ty, k, w)) && Fits(OneField(ty, k, w))
  {
    hide Zero;
    forall i | 0 <= i < |ty.fields| ensures HasType(ty.fields[i], Zero(ty.fields[i])) && Fits(Zero(ty.fields[i])) {
      ZeroFits(ty.fields[i]);
    }
  }

  lemma {:induction false} ObjWitness(t1: Ty, t2: Ty) returns (v: Val)
    requires WellFormed(t1) && WellFormed(t2) && ShapeOf(t1) == ShapeOf(t2) && !Takes(t1, t2) && t1.Obj? && t2.Obj?
    ensures HasType(t1, v) && Fits(v) && Refuses(t2, Enc(t1, v)) && !v.VNil?
    decreases t1, t2, 0, 0
  {
    hide Dump, DumpBody, Enc, Zero, Refuses, ShapeOf, Takes;
    FieldShapes(t1, t2);
    var k := FirstRefused(t1, t2, 0);
    var w := Witness(t1.fields[k], t2.fields[k]);
    v := OneField(t1, k, w);
    OneFieldTyped(t1, k, w);
    ValueMark(t1, v);
    SameTag(t1, t2);
    forall rest, dest ensures DumpBody(t2, Enc(t1, v)[1..] + rest, dest).st != Ok {
      ObjRefused(t1, t2, v.fields, k, rest, dest);
    }
    BodyRefuses(t2, Enc(t1, v));
  }

  lemma ObjRefused(t1: Ty, t2: Ty, vs: seq<Val>, k: nat, rest: bytes, dest: Val)
    requires t1.Obj? && t2.Obj? && WellFormed(t1) && WellFormed(t2) && ShapeOf(t1) == ShapeOf(t2)
    requires HasType(t1, VObj(vs)) && Fits(VObj(vs)) && k < |t1.fields| == |t2.fields|
    requires (forall j :: 0 <= j < k ==> Takes(t1.fields[j], t2.fields[j]))
        && Refuses(t2.fields[k], Enc(t1.fields[k], vs[k]))
    ensures |Enc(t1, VObj(vs))| > 0 && DumpBody(t2, Enc(t1, VObj(vs))[1..] + rest, dest).st != Ok
  {
    hide Enc, EncFields, DumpFields, CheckSize, Wrap16, Takes, Refuses;
    ObjRead(t1, vs, rest);
    SurvivesField(|vs|);
    FieldRefused(t1, t2, vs, 0, k, rest, OldFields(t2, dest));
  }

  /** The fields in front get through, and that one does not. */
  lemma {:induction false} FieldRefused(t1: Ty, t2: Ty, vs: seq<Val>, i: nat, k: nat, rest: bytes, cur: seq<Val>)
    requires t1.Obj? && t2.Obj? && WellFormed(t1) && WellFormed(t2) && ShapeOf(t1) == ShapeOf(t2)
    requires HasType(t1, VObj(vs)) && Fits(VObj(vs)) && i <= k < |t1.fields| == |t2.fields| == |cur|
    requires (forall j :: 0 <= j < k ==> Takes(t1.fields[j], t2.fields[j]))
        && Refuses(t2.fields[k], Enc(t1.fields[k], vs[k]))
    ensures DumpFields(t2, EncFields(t1, vs, i) + rest, cur, i).st != Ok
    decreases k - i
  {
    hide Dump, Enc, Convert, Takes;
    FieldShapes(t1, t2);
    var tail := EncFields(t1, vs, i + 1) + rest;
    assert EncFields(t1, vs, i) + rest == Enc(t1.fields[i], vs[i]) + tail;
    if i < k {
      DumpsUnder(t1.fields[i], t2.fields[i], vs[i], tail, cur[i]);
      FieldRefused(t1, t2, vs, i + 1, k, rest, cur[i := Convert(t1.fields[i], t2.fields[i], vs[i], cur[i])]);
    } else {
      assert Dump(t2.fields[k], Enc(t1.fields[k], vs[k]) + tail, cur[k]).st != Ok;
    }
  }

  lemma {:induction false} DictWitness(t1: Ty, t2: Ty) returns (v: Val)
    requires WellFormed(t1) && WellFormed(t2) && ShapeOf(t1) == ShapeOf(t2) && !Takes(t1, t2) && t1.Dict? && t2.Dict?
    ensures HasType(t1, v) && Fits(v) && Refuses(t2, Enc(t1, v)) && !v.VNil?
    decreases t1, t2, 0, 0
  {
    hide Dump, DumpBody, Enc, Zero, Refuses, Takes;
    TakesParts(t1, t2);
    ZeroFits(t1.key);
    ZeroFits(t1.value);
    var e := Pair(Zero(t1.key), Zero(t1.value));
    if Takes(t1.key, t2.key) {
      var w := Witness(t1.value, t2.value);
      e := e.(v := w);
    } else {
      var w := Witness(t1.key, t2.key);
      e := e.(k := w);
    }
    v := VDict([e]);
    ValueMark(t1, v);
    SameTag(t1, t2);
    forall rest, dest ensures DumpBody(t2, Enc(t1, v)[1..] + rest, dest).st != Ok {
      DictRefused(t1, t2, e, rest, dest);
    }
    BodyRefuses(t2, Enc(t1, v));
  }

  lemma DictRefused(t1: Ty, t2: Ty, e: Pair, rest: bytes, dest: Val)
    requires t1.Dict? && t2.Dict? && WellFormed(t1) && WellFormed(t2) && ShapeOf(t1) == ShapeOf(t2)
    requires HasType(t1, VDict([e])) && Fits(VDict([e]))
    requires if Takes(t1.key, t2.key) then Refuses(t2.value, Enc(t1.value, e.v)) else Refuses(t2.key, Enc(t1.key, e.k))
    ensures |Enc(t1, VDict([e]))| > 0 && DumpBody(t2, Enc(t1, VDict([e]))[1..] + rest, dest).st != Ok
  {
    hide Enc, EncPairs, DumpPairs, CheckSize, Wrap16, Takes, Refuses;
    DictRead(t1, [e], rest);
    SurvivesField(1);
    EntryRefused(t1, t2, [e], rest);
  }

  lemma EntryRefused(t1: Ty, t2: Ty, es: seq<Pair>, rest: bytes)
    requires t1.Dict? && t2.Dict? && WellFormed(t1) && WellFormed(t2) && ShapeOf(t1) == ShapeOf(t2)
    requires HasType(t1, VDict(es)) && Fits(VDict(es)) && |es| == 1
    requires if Takes(t1.key, t2.key) then Refuses(t2.value, Enc(t1.value, es[0].v))
             else Refuses(t2.key, Enc(t1.key, es[0].k))
    ensures DumpPairs(t2, 1, EncPairs(t1, es, 0) + rest, []).st != Ok
  {
    hide Dump, Enc, MapEnc, EncPairs, Takes, HasType, Fits, WellFormed, ShapeOf, Convert, Zero;
    var s, tail := EncPairs(t1, es, 0) + rest, EncPairs(t1, es, 1) + rest;
    var vtail := [TDICTV] + (MapEnc(t1.value, es[0].v) + tail);
    EntrySplit(t1, es, 0, rest);
    EntryParts(t1, t2, es, 0);
    if Takes(t1.key, t2.key) {
      DumpsUnder(t1.key, t2.key, es[0].k, vtail, Zero(t2.key));
      assert Dump(t2.value, Enc(t1.value, es[0].v) + tail, Zero(t2.value)).st != Ok;
    } else {
      assert Dump(t2.key, Enc(t1.key, es[0].k) + vtail, Zero(t2.key)).st != Ok;
    }
  }

  // ---------------------------------------------------------------- the theorem

  /**
    Types with equal streams, or equal hashes that stand for them: every value saved under
    the first is dumped under the second, whatever follows and whatever the destination
    held, to its exact end, if and only if the second takes the first.
   */
  lemma SameStreamExactly(t1: Ty, t2: Ty)
    requires WellFormed(t1) && WellFormed(t2) && Stream(t1) == Stream(t2)
    ensures Takes(t1, t2)
      <==> forall v, rest, dest :: HasType(t1, v) && Fits(v) ==> Ends(Dump(t2, Enc(t1, v) + rest, dest), rest)
  {
    hide Dump, Enc, HasType, Fits, Stream, ShapeOf, Takes, WellFormed, Convert;
    StreamTellsShape(t1, t2, [], []);
    if Takes(t1, t2) {
      forall v, rest, dest | HasType(t1, v) && Fits(v) ensures Ends(Dump(t2, Enc(t1, v) + rest, dest), rest) {
        DumpsUnder(t1, t2, v, rest, dest);
      }
    } else {
      var v := Witness(t1, t2);
      assert Dump(t2, Enc(t1, v) + [], VNil).st != Ok;
    }
  }

  // ---------------------------------------------------------------- one type on both sides

  lemma {:induction false} TakesBehind(t1: Ty, t2: Ty)
    requires Takes(t1, t2)
    ensures Takes(t1, Ptr(t2))
    decreases t1
  {
    if t1.Ptr? { TakesBehind(t1.target, t2); }
  }

  /** Every type takes itself, with all its pointers and arrays. */
  lemma {:induction false} TakesItself(ty: Ty)
    ensures Takes(ty, ty)
  {
    match ty
    case Obj(fields) =>
      forall i | 0 <= i < |fields| ensures Takes(fields[i], fields[i]) {
        TakesItself(fields[i]);
      }
    case Slice(elem) => TakesItself(elem);
    case Array(elem, _) => TakesItself(elem);
    case Dict(key, value) =>
      TakesItself(key);
      TakesItself(value);
    case Ptr(target) =>
      TakesItself(target);
      TakesBehind(target, target);
    case _ =>
  }

  /** There the conversion is the normal form, over any destination. */
  lemma ConversionToItself(ty: Ty, v: Val, dest: Val)
    requires WellFormed(ty) && HasType(ty, v) && Fits(v)
    ensures Convert(ty, ty, v, dest) == Norm(ty, v)
  {
    hide *;
    TakesItself(ty);
    assert Compatible(ty, ty) by { CompatibleIs(ty, ty); }
    DumpsUnder(ty, ty, v, [], dest);
    Forward(ty, v, [], dest);
  }

  lemma CompatibleIs(t1: Ty, t2: Ty)
    requires WellFormed(t1) && WellFormed(t2) && ShapeOf(t1) == ShapeOf(t2) && Takes(t1, t2)
    ensures Compatible(t1, t2)
  {
  }
}
