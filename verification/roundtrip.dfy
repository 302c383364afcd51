/**
  Dumping an encoding gives the normalised value back, over any destination and in
  front of any bytes, exactly when every count and length fits its field.
 */
module RoundTrip {
  import opened Wire
  import opened Types
  import opened Codec

  // ---------------------------------------------------------------- fields

  lemma ContainerRead(count: nat, body: bytes, rest: bytes)
    ensures CheckSize(Container(count, body) + rest) == Sizes(Ok, Wrap16(count), body + rest)
  {
    hide Le16, Le32, Int16, Int32, Wrap16, Wrap32;
    var size := 2 + |body|;
    var s := Container(count, body) + rest;
    var u := Le16(count) + (body + rest);
    assert s == Le32(size) + u;
    ReadBack32(size, u);
    WrapAtMost(size);
    assert s[4..] == u;
    ReadBack16(count, body + rest);
    assert s[6..] == body + rest;
  }

  lemma ObjRead(ty: Ty, vs: seq<Val>, rest: bytes)
    requires ty.Obj? && |vs| == |ty.fields|
    ensures |Enc(ty, VObj(vs))| > 0
    ensures CheckSize(Enc(ty, VObj(vs))[1..] + rest) == Sizes(Ok, Wrap16(|vs|), EncFields(ty, vs, 0) + rest)
  {
    hide EncFields, CheckSize, Wrap16;
    var body := EncFields(ty, vs, 0);
    assert Enc(ty, VObj(vs))[1..] + rest == Container(|vs|, body) + rest;
    ContainerRead(|vs|, body, rest);
  }

  lemma ListRead(ty: Ty, vs: seq<Val>, rest: bytes)
    requires ty.IsList() && !ty.elem.Base?
    ensures |Enc(ty, VList(vs))| > 0
    ensures CheckSize(Enc(ty, VList(vs))[1..] + rest) == Sizes(Ok, Wrap16(|vs|), EncElems(ty, vs, 0) + rest)
  {
    hide EncElems, CheckSize, Wrap16;
    var body := EncElems(ty, vs, 0);
    assert Enc(ty, VList(vs))[1..] + rest == Container(|vs|, body) + rest;
    ContainerRead(|vs|, body, rest);
  }

  lemma DictRead(ty: Ty, es: seq<Pair>, rest: bytes)
    requires ty.Dict?
    ensures |Enc(ty, VDict(es))| > 0
    ensures CheckSize(Enc(ty, VDict(es))[1..] + rest) == Sizes(Ok, Wrap16(|es|), EncPairs(ty, es, 0) + rest)
  {
    hide EncPairs, CheckSize, Wrap16;
    var body := EncPairs(ty, es, 0);
    assert Enc(ty, VDict(es))[1..] + rest == Container(|es|, body) + rest;
    ContainerRead(|es|, body, rest);
  }

  lemma TextRead(text: bytes, rest: bytes)
    ensures |text| < LIMIT32 ==> DumpText(Text(text) + rest) == TextOut(Ok, text, rest)
    ensures |text| >= LIMIT32 ==> DumpText(Text(text) + rest).st != Ok || DumpText(Text(text) + rest).text != text
  {
    hide Le32, Int32, Wrap32;
    var s := Text(text) + rest;
    assert s == Le32(|text|) + (text + rest);
    ReadBack32(|text|, text + rest);
    SurvivesField(|text|);
    WrapAtMost(|text|);
    assert s[4..] == text + rest;
    if |text| < LIMIT32 {
      assert (text + rest)[..|text|] == text;
      assert (text + rest)[|text|..] == rest;
    }
  }

  // ---------------------------------------------------------------- first bytes

  /** The first byte tells a nil from a value. */
  lemma {:induction false} FirstByte(ty: Ty, v: Val)
    requires WellFormed(ty) && HasType(ty, v)
    ensures |Enc(ty, v)| > 0
    ensures !ty.Ptr? ==> Enc(ty, v)[0] == if v.VNil? then Neg(Tag(ty)) else Tag(ty)
    ensures ty.Ptr? ==> (Enc(ty, v)[0] == Neg(Tag(ty.target)) <==> Norm(ty, v) == VNil)
    ensures ty.Ptr? && !ty.target.Ptr? ==> Enc(ty, v)[0] != 0
  {
    if ty.Ptr? {
      if v.VPtr? {
        FirstByte(ty.target, v.target);
      }
    }
  }

  // ---------------------------------------------------------------- forward

  /** Whatever fits comes back normalised, and nothing of what follows is touched. */
  lemma {:induction false} Forward(ty: Ty, v: Val, rest: bytes, dest: Val)
    requires WellFormed(ty) && HasType(ty, v) && Fits(v)
    ensures Dump(ty, Enc(ty, v) + rest, dest) == Out(Ok, Norm(ty, v), rest)
    decreases ty, 1, 0
  {
    hide HasType, WellFormed, Fits, Norm, DumpBody, Enc;
    if ty.Ptr? {
      ForwardPtr(ty, v, rest, dest);
    } else {
      FirstByte(ty, v);
      var s := Enc(ty, v) + rest;
      if v.VNil? {
        NilByte(ty, v);
        assert s[1..] == rest;
      } else {
        ForwardBody(ty, v, rest, dest);
        assert s[1..] == Enc(ty, v)[1..] + rest;
        TagsDiffer(ty);
      }
    }
  }

  lemma TagsDiffer(ty: Ty)
    requires WellFormed(ty) && !ty.Ptr?
    ensures Tag(ty) != Neg(Tag(ty))
  {
  }

  lemma NilByte(ty: Ty, v: Val)
    requires HasType(ty, v) && v.VNil?
    ensures !ty.Ptr? ==> Enc(ty, v) == [Neg(Tag(ty))] && (ty.Slice? || ty.Dict?) && Norm(ty, v) == VNil
  {
  }

  lemma {:induction false} ForwardPtr(ty: Ty, v: Val, rest: bytes, dest: Val)
    requires WellFormed(ty) && HasType(ty, v) && Fits(v) && ty.Ptr?
    ensures Dump(ty, Enc(ty, v) + rest, dest) == Out(Ok, Norm(ty, v), rest)
    decreases ty, 0, 0
  {
    hide DumpBody;
    FirstByte(ty, v);
    var s := Enc(ty, v) + rest;
    assert s[0] == Enc(ty, v)[0];
    if Norm(ty, v) == VNil {
      ForwardNil(ty, v);
      assert s[1..] == rest;
    } else {
      Forward(ty.target, v.target, rest, if dest.VPtr? then dest.target else Zero(ty.target));
    }
  }

  /** A nil pointer, or a pointer that is written like one, is a single byte. */
  lemma {:induction false} ForwardNil(ty: Ty, v: Val)
    requires WellFormed(ty) && HasType(ty, v) && ty.Ptr? && Norm(ty, v) == VNil
    ensures |Enc(ty, v)| == 1
  {
    if v.VPtr? && ty.target.Ptr? {
      ForwardNil(ty.target, v.target);
    }
  }

  lemma {:induction false} ForwardBody(ty: Ty, v: Val, rest: bytes, dest: Val)
    requires WellFormed(ty) && HasType(ty, v) && Fits(v) && !ty.Ptr? && !v.VNil?
    ensures |Enc(ty, v)| > 0
    ensures DumpBody(ty, Enc(ty, v)[1..] + rest, dest) == Out(Ok, Norm(ty, v), rest)
    decreases ty, 0, 0x2_0000
  {
    match ty
    case Obj(_) => ForwardObj(ty, v.fields, rest, dest);
    case Slice(elem) =>
      if elem.Base? {
        ForwardMerged(ty, v.elems, rest, dest);
        NormBase(elem, v.elems);
      } else {
        ForwardList(ty, v.elems, rest, dest);
      }
    case Array(elem, _) =>
      if elem.Base? {
        ForwardMerged(ty, v.elems, rest, dest);
        NormBase(elem, v.elems);
      } else {
        ForwardList(ty, v.elems, rest, dest);
      }
    case Dict(_, _) => ForwardDict(ty, v.entries, rest, dest);
    case _ => ForwardLeaf(ty, v, rest, dest);
  }

  lemma ForwardLeaf(ty: Ty, v: Val, rest: bytes, dest: Val)
    requires HasType(ty, v) && Fits(v) && (ty.Base? || ty.Str? || ty.Time?)
    ensures DumpBody(ty, Enc(ty, v)[1..] + rest, dest) == Out(Ok, v, rest)
  {
    var s := Enc(ty, v)[1..] + rest;
    match ty
    case Base(tag) =>
      assert s == v.raw + rest;
    case Str =>
      assert s == Text(v.text) + rest;
      TextRead(v.text, rest);
    case Time =>
      assert s == [TSTRING] + (Text(v.text) + rest);
      assert s[1..] == Text(v.text) + rest;
      TextRead(v.text, rest);
  }

  lemma {:induction false} ForwardObj(ty: Ty, vs: seq<Val>, rest: bytes, dest: Val)
    requires ty.Obj? && WellFormed(ty) && HasType(ty, VObj(vs)) && Fits(VObj(vs))
    ensures |Enc(ty, VObj(vs))| > 0
    ensures DumpBody(ty, Enc(ty, VObj(vs))[1..] + rest, dest) == Out(Ok, Norm(ty, VObj(vs)), rest)
    decreases ty, 0, 0x1_0000
  {
    hide Enc, EncFields, DumpFields, CheckSize, Wrap16;
    ObjRead(ty, vs, rest);
    SurvivesField(|vs|);
    ForwardFields(ty, vs, 0, rest, OldFields(ty, dest));
  }

  lemma {:induction false} ForwardDict(ty: Ty, es: seq<Pair>, rest: bytes, dest: Val)
    requires ty.Dict? && WellFormed(ty) && HasType(ty, VDict(es)) && Fits(VDict(es))
    ensures |Enc(ty, VDict(es))| > 0
    ensures DumpBody(ty, Enc(ty, VDict(es))[1..] + rest, dest) == Out(Ok, Norm(ty, VDict(es)), rest)
    decreases ty, 0, 0x1_0000
  {
    hide Enc, EncPairs, DumpPairs, CheckSize, Wrap16;
    DictRead(ty, es, rest);
    SurvivesField(|es|);
    ForwardPairs(ty, es, 0, rest, []);
  }

  lemma {:induction false} ForwardFields(ty: Ty, vs: seq<Val>, i: nat, rest: bytes, cur: seq<Val>)
    requires ty.Obj? && WellFormed(ty) && HasType(ty, VObj(vs)) && Fits(VObj(vs))
    requires i <= |ty.fields| == |cur|
    requires forall j :: 0 <= j < i ==> cur[j] == Norm(ty.fields[j], vs[j])
    ensures DumpFields(ty, EncFields(ty, vs, i) + rest, cur, i) == Out(Ok, Norm(ty, VObj(vs)), rest)
    decreases ty, 0, |ty.fields| - i
  {
    hide Dump, Enc;
    if i == |ty.fields| {
      assert cur == Norm(ty, VObj(vs)).fields;
      assert [] + rest == rest;
    } else {
      var tail := EncFields(ty, vs, i + 1) + rest;
      assert EncFields(ty, vs, i) + rest == Enc(ty.fields[i], vs[i]) + tail;
      Forward(ty.fields[i], vs[i], tail, cur[i]);
      ForwardFields(ty, vs, i + 1, rest, cur[i := Norm(ty.fields[i], vs[i])]);
    }
  }

  lemma {:induction false} ForwardList(ty: Ty, vs: seq<Val>, rest: bytes, dest: Val)
    requires ty.IsList() && !ty.elem.Base? && WellFormed(ty) && HasType(ty, VList(vs)) && Fits(VList(vs))
    ensures |Enc(ty, VList(vs))| > 0
    ensures DumpList(ty, Enc(ty, VList(vs))[1..] + rest, dest) == Out(Ok, Norm(ty, VList(vs)), rest)
    decreases ty, 0, 0x1_0000
  {
    hide Enc, EncElems, DumpElems, CheckSize, Wrap16;
    ListRead(ty, vs, rest);
    SurvivesField(|vs|);
    ForwardElems(ty, vs, 0, rest, OldElems(ty, |vs|, dest));
  }

  lemma {:induction false} ForwardElems(ty: Ty, vs: seq<Val>, i: nat, rest: bytes, cur: seq<Val>)
    requires ty.IsList() && WellFormed(ty) && HasType(ty, VList(vs)) && Fits(VList(vs))
    requires i <= |vs| == |cur|
    requires forall j :: 0 <= j < i ==> cur[j] == Norm(ty.elem, vs[j])
    ensures DumpElems(ty, |vs|, EncElems(ty, vs, i) + rest, cur, i) == Out(Ok, VList(NormAll(ty.elem, vs)), rest)
    decreases ty, 0, |vs| - i
  {
    hide Dump, Enc;
    if i == |vs| {
      assert cur == NormAll(ty.elem, vs);
      assert [] + rest == rest;
    } else {
      var tail := EncElems(ty, vs, i + 1) + rest;
      assert EncElems(ty, vs, i) + rest == Enc(ty.elem, vs[i]) + tail;
      Forward(ty.elem, vs[i], tail, cur[i]);
      ForwardElems(ty, vs, i + 1, rest, cur[i := Norm(ty.elem, vs[i])]);
    }
  }

  lemma {:induction false} RawLength(vs: seq<Val>, i: nat, size: nat)
    requires i <= |vs|
    requires forall j :: 0 <= j < |vs| ==> vs[j].VBase? && |vs[j].raw| == size
    ensures |Raw(vs, i)| == Total(|vs| - i, size)
    decreases |vs| - i
  {
    if i < |vs| {
      RawLength(vs, i + 1, size);
    }
  }

  /** Merged elements are cut apart again at their common size. */
  lemma {:induction false} ChunksOfRaw(vs: seq<Val>, i: nat, size: nat, rest: bytes)
    requires i <= |vs|
    requires forall j :: 0 <= j < |vs| ==> vs[j].VBase? && |vs[j].raw| == size
    ensures Chunks(Raw(vs, i) + rest, size, |vs| - i) == vs[i..]
    decreases |vs| - i
  {
    hide Chunks, Raw;
    if i < |vs| {
      ChunksOfRaw(vs, i + 1, size, rest);
      var tail := Raw(vs, i + 1) + rest;
      RawFront(vs, i, rest);
      ChunksFront(vs[i].raw, tail, |vs| - i - 1);
      assert vs[i] == VBase(vs[i].raw);
      assert vs[i..] == [vs[i]] + vs[i + 1..];
    } else {
      NoChunks(Raw(vs, i) + rest, size);
    }
  }

  lemma RawFront(vs: seq<Val>, i: nat, rest: bytes)
    requires i < |vs| && vs[i].VBase?
    ensures Raw(vs, i) + rest == vs[i].raw + (Raw(vs, i + 1) + rest)
  {
  }

  lemma ChunksFront(raw: bytes, tail: bytes, n: nat)
    ensures Chunks(raw + tail, |raw|, n + 1) == [VBase(raw)] + Chunks(tail, |raw|, n)
  {
    assert (raw + tail)[..|raw|] == raw && (raw + tail)[|raw|..] == tail;
  }

  lemma NoChunks(s: bytes, size: nat)
    ensures Chunks(s, size, 0) == []
  {
  }

  lemma NormBase(elem: Ty, vs: seq<Val>)
    requires elem.Base?
    ensures NormAll(elem, vs) == vs
  {
  }

  lemma ForwardMerged(ty: Ty, vs: seq<Val>, rest: bytes, dest: Val)
    requires ty.IsMerged() && WellFormed(ty) && HasType(ty, VList(vs)) && Fits(VList(vs))
    ensures |Enc(ty, VList(vs))| > 0
    ensures DumpMerged(ty, Enc(ty, VList(vs))[1..] + rest, dest) == Out(Ok, VList(vs), rest)
  {
    hide DumpMerged, Enc, WellFormed, Chunks, CheckSize, Raw, Total;
    MergedRead(ty, vs, rest);
    SurvivesField(|vs|);
    MergedSteps(ty, Enc(ty, VList(vs))[1..] + rest, dest, |vs|, Raw(vs, 0) + rest);
    MergedData(ty, vs, rest, dest);
  }

  lemma MergedData(ty: Ty, vs: seq<Val>, rest: bytes, dest: Val)
    requires ty.IsMerged() && HasType(ty, VList(vs))
    ensures var u, cur, size := Raw(vs, 0) + rest, OldElems(ty, |vs|, dest), SizeOf(ty.elem.tag);
      if |vs| == 0 then cur == vs && u == rest
      else
        Total(|vs|, size) <= |u| && |vs| <= |cur| && Chunks(u, size, |vs|) + cur[|vs|..] == vs
        && u[Total(|vs|, size)..] == rest
  {
    hide Chunks, Total;
    var u, cur, size := Raw(vs, 0) + rest, OldElems(ty, |vs|, dest), SizeOf(ty.elem.tag);
    if |vs| == 0 {
      assert u == rest;
    } else {
      ChunksOfRaw(vs, 0, size, rest);
      RawLength(vs, 0, size);
      assert vs[0..] == vs;
      assert u[|Raw(vs, 0)|..] == rest;
      assert vs + cur[|vs|..] == vs;
    }
  }

  lemma MergedSteps(ty: Ty, s: bytes, dest: Val, n: nat, u: bytes)
    requires ty.IsMerged() && |s| > 0 && s[0] == ty.elem.tag && CheckSize(s[1..]) == Sizes(Ok, n, u)
    ensures n == 0 ==> DumpMerged(ty, s, dest) == Out(Ok, VList(OldElems(ty, n, dest)), u)
    ensures var size := SizeOf(ty.elem.tag);
      n > 0 && |u| >= Total(n, size) && n <= |OldElems(ty, n, dest)| ==>
        DumpMerged(ty, s, dest) == Out(Ok, VList(Chunks(u, size, n) + OldElems(ty, n, dest)[n..]), u[Total(n, size)..])
  {
  }

  lemma MergedRead(ty: Ty, vs: seq<Val>, rest: bytes)
    requires ty.IsMerged()
    ensures |Enc(ty, VList(vs))| > 0
    ensures var s := Enc(ty, VList(vs))[1..] + rest;
      |s| > 0 && s[0] == ty.elem.tag && CheckSize(s[1..]) == Sizes(Ok, Wrap16(|vs|), Raw(vs, 0) + rest)
  {
    var s := Enc(ty, VList(vs))[1..] + rest;
    assert s == [ty.elem.tag] + (Container(|vs|, Raw(vs, 0)) + rest);
    assert s[1..] == Container(|vs|, Raw(vs, 0)) + rest;
    ContainerRead(|vs|, Raw(vs, 0), rest);
  }

  lemma {:induction false} PutFresh(es: seq<Pair>, k: Val, v: Val)
    requires forall i :: 0 <= i < |es| ==> es[i].k != k
    ensures DictPut(es, k, v) == es + [Pair(k, v)]
  {
    if es != [] {
      PutFresh(es[1..], k, v);
      assert es + [Pair(k, v)] == [es[0]] + (es[1..] + [Pair(k, v)]);
    }
  }

  /** One entry in front of the others, and where its dump passes by. */
  lemma EntrySplit(ty: Ty, es: seq<Pair>, i: nat, rest: bytes)
    requires ty.Dict? && i < |es|
    ensures var tail := EncPairs(ty, es, i + 1) + rest;
      var vtail := [TDICTV] + (MapEnc(ty.value, es[i].v) + tail);
      var s := EncPairs(ty, es, i) + rest;
      |s| > 0 && s[0] == TDICTK && s[1..] == MapEnc(ty.key, es[i].k) + vtail
          && vtail[1..] == MapEnc(ty.value, es[i].v) + tail
  {
    var tail := EncPairs(ty, es, i + 1) + rest;
    var vtail := [TDICTV] + (MapEnc(ty.value, es[i].v) + tail);
    assert EncPairs(ty, es, i) + rest == [TDICTK] + (MapEnc(ty.key, es[i].k) + vtail);
  }

  /** One round of the entry loop. */
  lemma PairsStep(ty: Ty, n: int, s: bytes, acc: seq<Pair>, p: Pair, rest: bytes)
    requires ty.Dict? && n > 0 && |s| > 0 && s[0] == TDICTK
    requires var k := Dump(ty.key, s[1..], Zero(ty.key));
      k.st == Ok && k.val == p.k && |k.rest| > 0 && k.rest[0] == TDICTV
      && Dump(ty.value, k.rest[1..], Zero(ty.value)) == Out(Ok, p.v, rest)
    requires forall j :: 0 <= j < |acc| ==> acc[j].k != p.k
    ensures DumpPairs(ty, n, s, acc) == DumpPairs(ty, n - 1, rest, acc + [p])
  {
    PutFresh(acc, p.k, p.v);
  }

  /** Where the dump of an entry that fits passes by. */
  lemma {:induction false} EntryFits(ty: Ty, es: seq<Pair>, i: nat, rest: bytes)
    requires ty.Dict? && WellFormed(ty) && i < |es|
    requires HasType(ty.key, es[i].k) && HasType(ty.value, es[i].v) && Fits(es[i].k) && Fits(es[i].v)
    ensures var s := EncPairs(ty, es, i) + rest;
      |s| > 0 && s[0] == TDICTK
      && var k := Dump(ty.key, s[1..], Zero(ty.key));
         k.st == Ok && k.val == es[i].k && |k.rest| > 0 && k.rest[0] == TDICTV
         && Dump(ty.value, k.rest[1..], Zero(ty.value))
            == Out(Ok, Norm(ty.value, es[i].v), EncPairs(ty, es, i + 1) + rest)
    decreases ty, 0, 0
  {
    hide DumpPairs, EncPairs, HasType, Fits, Norm, Dump, Enc, MapEnc;
    var tail := EncPairs(ty, es, i + 1) + rest;
    EntrySplit(ty, es, i, rest);
    EncodersAgree(ty.key, es[i].k);
    EncodersAgree(ty.value, es[i].v);
    KeyNorm(ty.key, es[i].k);
    Forward(ty.key, es[i].k, [TDICTV] + (MapEnc(ty.value, es[i].v) + tail), Zero(ty.key));
    Forward(ty.value, es[i].v, tail, Zero(ty.value));
  }

  lemma EntryTyped(ty: Ty, es: seq<Pair>, i: nat)
    requires ty.Dict? && HasType(ty, VDict(es)) && i < |es|
    ensures HasType(ty.key, es[i].k) && HasType(ty.value, es[i].v)
    ensures forall j :: 0 <= j < i ==> es[j].k != es[i].k
  {
  }

  lemma {:induction false} ForwardPairs(ty: Ty, es: seq<Pair>, i: nat, rest: bytes, acc: seq<Pair>)
    requires ty.Dict? && WellFormed(ty) && HasType(ty, VDict(es)) && Fits(VDict(es))
    requires i <= |es|
    requires |acc| == i && forall j :: 0 <= j < i ==> acc[j] == Pair(es[j].k, Norm(ty.value, es[j].v))
    ensures DumpPairs(ty, |es| - i, EncPairs(ty, es, i) + rest, acc) == Out(Ok, Norm(ty, VDict(es)), rest)
    decreases ty, 0, |es| - i
  {
    hide Dump, DumpPairs, EncPairs, MapEnc, HasType, Fits, Norm, WellFormed;
    if i == |es| {
      AllPairs(ty, es, rest, acc);
    } else {
      EntryTyped(ty, es, i);
      EntryKept(ty, es, i);
      var p := Pair(es[i].k, Norm(ty.value, es[i].v));
      EntryFits(ty, es, i, rest);
      PairsStep(ty, |es| - i, EncPairs(ty, es, i) + rest, acc, p, EncPairs(ty, es, i + 1) + rest);
      ForwardPairs(ty, es, i + 1, rest, acc + [p]);
    }
  }

  lemma AllPairs(ty: Ty, es: seq<Pair>, rest: bytes, acc: seq<Pair>)
    requires ty.Dict? && |acc| == |es| && forall j :: 0 <= j < |es| ==> acc[j] == Pair(es[j].k, Norm(ty.value, es[j].v))
    ensures DumpPairs(ty, 0, EncPairs(ty, es, |es|) + rest, acc) == Out(Ok, Norm(ty, VDict(es)), rest)
  {
    assert acc == Norm(ty, VDict(es)).entries;
    assert [] + rest == rest;
  }

  lemma EntryKept(ty: Ty, es: seq<Pair>, i: nat)
    requires ty.Dict? && Fits(VDict(es)) && i < |es|
    ensures Fits(es[i].k) && Fits(es[i].v)
  {
  }

  /** Keys come back as they are. */
  lemma {:induction false} KeyNorm(ty: Ty, v: Val)
    requires KeyTy(ty) && HasType(ty, v)
    ensures Norm(ty, v) == v
  {
    match ty
    case Obj(fields) =>
      forall i | 0 <= i < |fields| ensures Norm(fields[i], v.fields[i]) == v.fields[i] {
        KeyNorm(fields[i], v.fields[i]);
      }
      assert Norm(ty, v).fields == v.fields;
    case Array(elem, _) =>
      forall i | 0 <= i < |v.elems| ensures Norm(elem, v.elems[i]) == v.elems[i] {
        KeyNorm(elem, v.elems[i]);
      }
      assert Norm(ty, v).elems == v.elems;
    case _ =>
  }

  // ---------------------------------------------------------------- the two encoders

  /** The reflective save functions append the same bytes as the address-based ones. */
  lemma {:induction false} EncodersAgree(ty: Ty, v: Val)
    requires WellFormed(ty) && HasType(ty, v)
    ensures MapEnc(ty, v) == Enc(ty, v)
    decreases ty, 1, 0
  {
    match ty
    case Obj(fields) => FieldsAgree(ty, v.fields, 0);
    case Slice(elem) => if v.VList? && !elem.Base? { ElemsAgree(ty, v.elems, 0); }
    case Array(elem, _) => if !elem.Base? { ElemsAgree(ty, v.elems, 0); }
    case _ =>
  }

  lemma {:induction false} FieldsAgree(ty: Ty, vs: seq<Val>, i: nat)
    requires ty.Obj? && WellFormed(ty) && HasType(ty, VObj(vs)) && i <= |vs|
    ensures MapEncFields(ty, vs, i) == EncFields(ty, vs, i)
    decreases ty, 0, |vs| - i
  {
    if i < |vs| {
      EncodersAgree(ty.fields[i], vs[i]);
      FieldsAgree(ty, vs, i + 1);
    }
  }

  lemma {:induction false} ElemsAgree(ty: Ty, vs: seq<Val>, i: nat)
    requires ty.IsList() && WellFormed(ty) && HasType(ty, VList(vs)) && i <= |vs|
    ensures MapEncElems(ty, vs, i) == EncElems(ty, vs, i)
    decreases ty, 0, |vs| - i
  {
    if i < |vs| {
      EncodersAgree(ty.elem, vs[i]);
      ElemsAgree(ty, vs, i + 1);
    }
  }
}
