/**
  The save functions: the address-based family and its reflective twin, both writing a
  container's size only after its content, into fragments the size field may straddle.
 */
module Saving {
  import opened Wire
  import opened Types
  import opened Codec
  import opened RoundTrip
  import opened Frames
  import opened Pieces
  import opened Buffers

  /** The length field of a container filled in behind what was there before. */
  lemma PutSize(pre: bytes, n: int, body: bytes)
    ensures Put(pre + Le32(0) + Le16(n) + body, |pre|, Le32(2 + |body|)) == pre + (Le32(2 + |body|) + Le16(n) + body)
  {
    hide Le16, Le32;
    var c := pre + Le32(0) + Le16(n) + body;
    assert c[..|pre|] == pre;
    assert c[|pre| + 4..] == Le16(n) + body;
  }

  lemma {:induction false} TotalIsProduct(n: nat, size: nat)
    ensures Total(n, size) == size * n
  {
    if n > 0 {
      TotalIsProduct(n - 1, size);
      assert size * n == size + size * (n - 1);
    }
  }

  /** Remember where the size goes, leave it zero, and write the count. */
  method Begin(buf: Buffer, n: int) returns (i: nat, p: nat, size: int)
    requires buf.Writable() && buf.Settled()
    modifies buf, buf.Repr
    ensures buf.Writable() && buf.Settled() && fresh(buf.Repr - old(buf.Repr)) && buf.Kept()
    ensures buf.Contents() == old(buf.Contents()) + Le32(0) + Le16(n)
    ensures Full(i, buf.Avail()) + p == |old(buf.Contents())| && p < buf.Avail() && size == old(buf.size)
  {
    hide Buffer.Writable, Buffer.Contents, Le16, Le32, Full;
    i, p := buf.WritePos();
    size := buf.size;
    buf.AppendSize4(0);
    buf.AppendSize2(n);
  }

  /** Fill in the size of a container whose content is written. */
  method End(buf: Buffer, i: nat, p: nat, size: int, ghost pre: bytes, ghost n: int, ghost body: bytes)
    requires buf.Writable() && buf.Settled() && p < buf.Avail() && Full(i, buf.Avail()) + p == |pre|
    requires buf.Contents() == pre + Le32(0) + Le16(n) + body && buf.size - size == 6 + |body|
    modifies buf, buf.Repr
    ensures buf.Writable() && buf.Settled() && fresh(buf.Repr - old(buf.Repr)) && buf.Kept()
    ensures buf.Contents() == pre + (Le32(2 + |body|) + Le16(n) + body)
  {
    hide Buffer.Writable, Buffer.Contents, Le16, Le32, Full, Put;
    PutSize(pre, n, body);
    buf.UpdateSize(i, p, buf.size - size - 4);
  }

  method SaveText(buf: Buffer, text: bytes)
    requires buf.Writable()
    modifies buf, buf.Repr
    ensures buf.Writable() && buf.Settled() && fresh(buf.Repr - old(buf.Repr)) && buf.Kept()
    ensures buf.Contents() == old(buf.Contents()) + Text(text)
  {
    hide Buffer.Writable, Buffer.Contents, Le32;
    buf.AppendSize4(|text|);
    buf.Append(text);
  }

  /** Tags, size and count of a merged list. */
  method SaveMergedHead(buf: Buffer, tag: byte, total: int, n: int)
    requires buf.Writable()
    modifies buf, buf.Repr
    ensures buf.Writable() && buf.Settled() && fresh(buf.Repr - old(buf.Repr)) && buf.Kept()
    ensures buf.Contents() == old(buf.Contents()) + ([TARRAYM, tag] + Le32(total) + Le16(n))
  {
    hide Buffer.Writable, Buffer.Contents, Le16, Le32;
    buf.AppendByte(TARRAYM);
    buf.AppendByte(tag);
    buf.AppendSize4(total);
    buf.AppendSize2(n);
  }

  lemma MergedTyped(ty: Ty, vs: seq<Val>)
    requires ty.IsMerged() && HasType(ty, VList(vs))
    ensures forall i :: 0 <= i < |vs| ==> vs[i].VBase? && |vs[i].raw| == SizeOf(ty.elem.tag)
    ensures |Raw(vs, 0)| == SizeOf(ty.elem.tag) * |vs|
  {
    RawLength(vs, 0, SizeOf(ty.elem.tag));
    TotalIsProduct(|vs|, SizeOf(ty.elem.tag));
  }

  lemma ObjTyped(ty: Ty, vs: seq<Val>)
    requires ty.Obj? && HasType(ty, VObj(vs))
    ensures |vs| == |ty.fields|
  {
  }

  lemma PartTyped(ty: Ty, vs: seq<Val>, i: nat)
    requires i < |vs|
    ensures ty.IsList() && HasType(ty, VList(vs)) ==> HasType(ty.elem, vs[i])
    ensures ty.Obj? && HasType(ty, VObj(vs)) ==> |vs| == |ty.fields| && HasType(ty.fields[i], vs[i])
  {
  }

  lemma FieldsNext(c: bytes, ty: Ty, vs: seq<Val>, k: nat)
    requires ty.Obj? && k < |vs| == |ty.fields|
    ensures c + EncFields(ty, vs, k) == c + Enc(ty.fields[k], vs[k]) + EncFields(ty, vs, k + 1)
    ensures EncFields(ty, vs, |vs|) == []
  {
    hide Enc;
  }

  lemma ElemsNext(c: bytes, ty: Ty, vs: seq<Val>, k: nat)
    requires ty.IsList() && k < |vs|
    ensures c + EncElems(ty, vs, k) == c + Enc(ty.elem, vs[StrideIndex(ty.elem, k)]) + EncElems(ty, vs, k + 1)
  {
    hide Enc;
  }

  lemma MapFieldsNext(c: bytes, ty: Ty, vs: seq<Val>, k: nat)
    requires ty.Obj? && k < |vs| == |ty.fields|
    ensures c + MapEncFields(ty, vs, k) == c + MapEnc(ty.fields[k], vs[k]) + MapEncFields(ty, vs, k + 1)
    ensures MapEncFields(ty, vs, |vs|) == []
  {
    hide MapEnc;
  }

  lemma MapElemsNext(c: bytes, ty: Ty, vs: seq<Val>, k: nat)
    requires ty.IsList() && k < |vs|
    ensures c + MapEncElems(ty, vs, k) == c + MapEnc(ty.elem, vs[k]) + MapEncElems(ty, vs, k + 1)
  {
    hide MapEnc;
  }

  /** Base values, texts and times; both families save them in the same way. */
  method SaveLeaf(ty: Ty, v: Val, buf: Buffer)
    requires (ty.Base? || ty.Str? || ty.Time?) && HasType(ty, v) && buf.Writable()
    modifies buf, buf.Repr
    ensures buf.Writable() && buf.Settled() && fresh(buf.Repr - old(buf.Repr)) && buf.Kept()
    ensures buf.Contents() == old(buf.Contents()) + Enc(ty, v) && Enc(ty, v) == MapEnc(ty, v)
  {
    hide Buffer.Writable, Buffer.Contents, Text;
    match ty
    case Base(tag) =>
      buf.AppendByte(tag);
      buf.Append(v.raw);
    case Str =>
      buf.AppendByte(TSTRING);
      SaveText(buf, v.text);
    case Time =>
      buf.Append([TTIME, TSTRING]);
      SaveText(buf, v.text);
  }

  // ---------------------------------------------------------------- by address

  method Save(ty: Ty, v: Val, buf: Buffer)
    requires HasType(ty, v) && buf.Writable()
    modifies buf, buf.Repr
    ensures buf.Writable() && buf.Settled() && fresh(buf.Repr - old(buf.Repr)) && buf.Kept()
    ensures buf.Contents() == old(buf.Contents()) + Enc(ty, v)
    decreases ty, 1, 0
  {
    hide Buffer.Writable, Buffer.Contents, Le16, Le32, EncFields, EncElems, EncPairs, Raw;
    match ty
    case Base(_) => SaveLeaf(ty, v, buf);
    case Str => SaveLeaf(ty, v, buf);
    case Time => SaveLeaf(ty, v, buf);
    case Obj(_) => SaveObj(ty, v.fields, buf);
    case Slice(elem) =>
      if v.VNil? {
        buf.AppendByte(Neg(Tag(ty)));
      } else if elem.Base? {
        SaveMerged(ty, v.elems, buf);
      } else {
        SaveList(ty, v.elems, buf);
      }
    case Array(elem, _) =>
      if elem.Base? { SaveMerged(ty, v.elems, buf); } else { SaveList(ty, v.elems, buf); }
    case Dict(_, _) =>
      if v.VNil? { buf.AppendByte(Neg(Tag(ty))); } else { SaveDict(ty, v.entries, buf); }
    case Ptr(target) =>
      if v.VNil? { buf.AppendByte(Neg(Tag(target))); } else { Save(target, v.target, buf); }
  }

  method SaveObj(ty: Ty, vs: seq<Val>, buf: Buffer)
    requires ty.Obj? && HasType(ty, VObj(vs)) && buf.Writable()
    modifies buf, buf.Repr
    ensures buf.Writable() && buf.Settled() && fresh(buf.Repr - old(buf.Repr)) && buf.Kept()
    ensures buf.Contents() == old(buf.Contents()) + ([TOBJECT] + Container(|vs|, EncFields(ty, vs, 0)))
    decreases ty, 0, 0x1_0000
  {
    hide Buffer.Writable, Buffer.Contents, Le16, Le32, Enc, HasType;
    buf.AppendByte(TOBJECT);
    ghost var pre, body := buf.Contents(), EncFields(ty, vs, 0);
    ObjTyped(ty, vs);
    var i, p, size := Begin(buf, |ty.fields|);
    ghost var start := buf.Contents();
    var k := 0;
    while k < |ty.fields|
      invariant 0 <= k <= |vs|
      invariant buf.Writable() && buf.Settled() && fresh(buf.Repr - old(buf.Repr)) && buf.Kept()
      invariant buf.Contents() + EncFields(ty, vs, k) == start + body
    {
      ghost var c := buf.Contents();
      PartTyped(ty, vs, k);
      Save(ty.fields[k], vs[k], buf);
      FieldsNext(c, ty, vs, k);
      k := k + 1;
    }
    assert buf.Contents() + [] == buf.Contents();
    assert start + body == pre + Le32(0) + Le16(|vs|) + body;
    End(buf, i, p, size, pre, |vs|, body);
  }

  method SaveList(ty: Ty, vs: seq<Val>, buf: Buffer)
    requires ty.IsList() && !ty.elem.Base? && HasType(ty, VList(vs)) && buf.Writable()
    modifies buf, buf.Repr
    ensures buf.Writable() && buf.Settled() && fresh(buf.Repr - old(buf.Repr)) && buf.Kept()
    ensures buf.Contents() == old(buf.Contents()) + ([TARRAY] + Container(|vs|, EncElems(ty, vs, 0)))
    decreases ty, 0, 0x1_0000
  {
    hide Buffer.Writable, Buffer.Contents, Le16, Le32, Enc, HasType;
    buf.AppendByte(TARRAY);
    ghost var pre, body := buf.Contents(), EncElems(ty, vs, 0);
    var i, p, size := Begin(buf, |vs|);
    ghost var start := buf.Contents();
    var k := 0;
    while k < |vs|
      invariant 0 <= k <= |vs|
      invariant buf.Writable() && buf.Settled() && fresh(buf.Repr - old(buf.Repr)) && buf.Kept()
      invariant buf.Contents() + EncElems(ty, vs, k) == start + body
    {
      ghost var c := buf.Contents();
      var j := StrideIndex(ty.elem, k);
      PartTyped(ty, vs, j);
      Save(ty.elem, vs[j], buf);
      ElemsNext(c, ty, vs, k);
      k := k + 1;
    }
    assert buf.Contents() + [] == buf.Contents();
    assert start + body == pre + Le32(0) + Le16(|vs|) + body;
    End(buf, i, p, size, pre, |vs|, body);
  }

  /** Merged elements lie in a row in memory and are appended at once. */
  method SaveMerged(ty: Ty, vs: seq<Val>, buf: Buffer)
    requires ty.IsMerged() && HasType(ty, VList(vs)) && buf.Writable()
    modifies buf, buf.Repr
    ensures buf.Writable() && buf.Settled() && fresh(buf.Repr - old(buf.Repr)) && buf.Kept()
    ensures buf.Contents() == old(buf.Contents()) + ([TARRAYM, ty.elem.tag] + Container(|vs|, Raw(vs, 0)))
  {
    hide Buffer.Writable, Buffer.Contents, Le16, Le32, Raw, HasType, Total, SizeOf;
    MergedTyped(ty, vs);
    var total := SizeOf(ty.elem.tag) * |vs|;
    SaveMergedHead(buf, ty.elem.tag, 2 + total, |vs|);
    buf.Append(Raw(vs, 0));
  }

  method SaveDict(ty: Ty, es: seq<Pair>, buf: Buffer)
    requires ty.Dict? && HasType(ty, VDict(es)) && buf.Writable()
    modifies buf, buf.Repr
    ensures buf.Writable() && buf.Settled() && fresh(buf.Repr - old(buf.Repr)) && buf.Kept()
    ensures buf.Contents() == old(buf.Contents()) + ([TDICT] + Container(|es|, EncPairs(ty, es, 0)))
    decreases ty, 0, 0x1_0000
  {
    hide Buffer.Writable, Buffer.Contents, Le16, Le32, MapEnc;
    buf.AppendByte(TDICT);
    ghost var pre, body := buf.Contents(), EncPairs(ty, es, 0);
    var i, p, size := Begin(buf, |es|);
    ghost var start := buf.Contents();
    var k := 0;
    while k < |es|
      invariant 0 <= k <= |es|
      invariant buf.Writable() && buf.Settled() && fresh(buf.Repr - old(buf.Repr)) && buf.Kept()
      invariant buf.Contents() + EncPairs(ty, es, k) == start + body
    {
      ghost var c := buf.Contents();
      SaveEntry(ty, es[k], buf);
      EntryNext(c, ty, es, k);
      k := k + 1;
    }
    assert buf.Contents() + [] == buf.Contents();
    assert start + body == pre + Le32(0) + Le16(|es|) + body;
    End(buf, i, p, size, pre, |es|, body);
  }

  lemma EntryNext(c: bytes, ty: Ty, es: seq<Pair>, k: nat)
    requires ty.Dict? && k < |es|
    ensures c + EncPairs(ty, es, k)
      == c + ([TDICTK] + MapEnc(ty.key, es[k].k) + [TDICTV] + MapEnc(ty.value, es[k].v)) + EncPairs(ty, es, k + 1)
  {
    hide MapEnc;
  }

  method SaveEntry(ty: Ty, e: Pair, buf: Buffer)
    requires ty.Dict? && HasType(ty.key, e.k) && HasType(ty.value, e.v) && buf.Writable()
    modifies buf, buf.Repr
    ensures buf.Writable() && buf.Settled() && fresh(buf.Repr - old(buf.Repr)) && buf.Kept()
    ensures buf.Contents() == old(buf.Contents()) + ([TDICTK] + MapEnc(ty.key, e.k) + [TDICTV] + MapEnc(ty.value, e.v))
    decreases ty, 0, 0
  {
    hide Buffer.Writable, Buffer.Contents, MapEnc;
    buf.AppendByte(TDICTK);
    MapSave(ty.key, e.k, buf);
    buf.AppendByte(TDICTV);
    MapSave(ty.value, e.v, buf);
  }

  // ---------------------------------------------------------------- by reflection

  method MapSave(ty: Ty, v: Val, buf: Buffer)
    requires HasType(ty, v) && buf.Writable()
    modifies buf, buf.Repr
    ensures buf.Writable() && buf.Settled() && fresh(buf.Repr - old(buf.Repr)) && buf.Kept()
    ensures buf.Contents() == old(buf.Contents()) + MapEnc(ty, v)
    decreases ty, 1, 0
  {
    hide Buffer.Writable, Buffer.Contents, Le16, Le32, MapEncFields, MapEncElems, EncPairs, Raw;
    match ty
    case Base(_) => SaveLeaf(ty, v, buf);
    case Str => SaveLeaf(ty, v, buf);
    case Time => SaveLeaf(ty, v, buf);
    case Obj(_) => MapSaveObj(ty, v.fields, buf);
    case Slice(elem) =>
      if v.VNil? {
        buf.AppendByte(Neg(Tag(ty)));
      } else if elem.Base? {
        MapSaveMerged(ty, v.elems, buf);
      } else {
        MapSaveList(ty, v.elems, buf);
      }
    case Array(elem, _) =>
      if elem.Base? { MapSaveMerged(ty, v.elems, buf); } else { MapSaveList(ty, v.elems, buf); }
    case Dict(_, _) =>
      if v.VNil? { buf.AppendByte(Neg(Tag(ty))); } else { SaveDict(ty, v.entries, buf); }
    case Ptr(target) =>
      if v.VNil? { buf.AppendByte(Neg(Tag(target))); } else { Save(target, v.target, buf); }
  }

  method MapSaveObj(ty: Ty, vs: seq<Val>, buf: Buffer)
    requires ty.Obj? && HasType(ty, VObj(vs)) && buf.Writable()
    modifies buf, buf.Repr
    ensures buf.Writable() && buf.Settled() && fresh(buf.Repr - old(buf.Repr)) && buf.Kept()
    ensures buf.Contents() == old(buf.Contents()) + ([TOBJECT] + Container(|vs|, MapEncFields(ty, vs, 0)))
    decreases ty, 0, 0x1_0000
  {
    hide Buffer.Writable, Buffer.Contents, Le16, Le32, MapEnc, HasType;
    buf.AppendByte(TOBJECT);
    ghost var pre, body := buf.Contents(), MapEncFields(ty, vs, 0);
    ObjTyped(ty, vs);
    var i, p, size := Begin(buf, |ty.fields|);
    ghost var start := buf.Contents();
    var k := 0;
    while k < |ty.fields|
      invariant 0 <= k <= |vs|
      invariant buf.Writable() && buf.Settled() && fresh(buf.Repr - old(buf.Repr)) && buf.Kept()
      invariant buf.Contents() + MapEncFields(ty, vs, k) == start + body
    {
      ghost var c := buf.Contents();
      PartTyped(ty, vs, k);
      MapSave(ty.fields[k], vs[k], buf);
      MapFieldsNext(c, ty, vs, k);
      k := k + 1;
    }
    assert buf.Contents() + [] == buf.Contents();
    assert start + body == pre + Le32(0) + Le16(|vs|) + body;
    End(buf, i, p, size, pre, |vs|, body);
  }

  method MapSaveList(ty: Ty, vs: seq<Val>, buf: Buffer)
    requires ty.IsList() && !ty.elem.Base? && HasType(ty, VList(vs)) && buf.Writable()
    modifies buf, buf.Repr
    ensures buf.Writable() && buf.Settled() && fresh(buf.Repr - old(buf.Repr)) && buf.Kept()
    ensures buf.Contents() == old(buf.Contents()) + ([TARRAY] + Container(|vs|, MapEncElems(ty, vs, 0)))
    decreases ty, 0, 0x1_0000
  {
    hide Buffer.Writable, Buffer.Contents, Le16, Le32, MapEnc, HasType;
    buf.AppendByte(TARRAY);
    ghost var pre, body := buf.Contents(), MapEncElems(ty, vs, 0);
    var i, p, size := Begin(buf, |vs|);
    ghost var start := buf.Contents();
    var k := 0;
    while k < |vs|
      invariant 0 <= k <= |vs|
      invariant buf.Writable() && buf.Settled() && fresh(buf.Repr - old(buf.Repr)) && buf.Kept()
      invariant buf.Contents() + MapEncElems(ty, vs, k) == start + body
    {
      ghost var c := buf.Contents();
      PartTyped(ty, vs, k);
      MapSave(ty.elem, vs[k], buf);
      MapElemsNext(c, ty, vs, k);
      k := k + 1;
    }
    assert buf.Contents() + [] == buf.Contents();
    assert start + body == pre + Le32(0) + Le16(|vs|) + body;
    End(buf, i, p, size, pre, |vs|, body);
  }

  /** Here merged elements are appended one by one. */
  method MapSaveMerged(ty: Ty, vs: seq<Val>, buf: Buffer)
    requires ty.IsMerged() && HasType(ty, VList(vs)) && buf.Writable()
    modifies buf, buf.Repr
    ensures buf.Writable() && buf.Settled() && fresh(buf.Repr - old(buf.Repr)) && buf.Kept()
    ensures buf.Contents() == old(buf.Contents()) + ([TARRAYM, ty.elem.tag] + Container(|vs|, Raw(vs, 0)))
  {
    hide Buffer.Writable, Buffer.Contents, Le16, Le32, HasType, Total, SizeOf, Raw;
    MergedTyped(ty, vs);
    var total := SizeOf(ty.elem.tag) * |vs| + 2;
    SaveMergedHead(buf, ty.elem.tag, total, |vs|);
    ghost var start := buf.Contents();
    var k := 0;
    while k < |vs|
      invariant 0 <= k <= |vs|
      invariant buf.Writable() && buf.Settled() && fresh(buf.Repr - old(buf.Repr)) && buf.Kept()
      invariant buf.Contents() + Raw(vs, k) == start + Raw(vs, 0)
    {
      ghost var c := buf.Contents();
      RawStep(vs, k, c);
      buf.Append(vs[k].raw);
      k := k + 1;
    }
    RawEnd(vs, buf.Contents());
  }

  lemma RawStep(vs: seq<Val>, k: nat, c: bytes)
    requires k < |vs| && vs[k].VBase?
    ensures c + Raw(vs, k) == c + vs[k].raw + Raw(vs, k + 1)
  {
  }

  lemma RawEnd(vs: seq<Val>, c: bytes)
    ensures c + Raw(vs, |vs|) == c
  {
  }
}
