/**
  The wire format in plain numbers: which bytes every value, every schema stream and every
  frame is made of.
 */
module Layout {
  import opened Wire
  import opened Types
  import opened Codec
  import opened Shapes
  import opened Frames
  import opened Framing

  // ---------------------------------------------------------------- numbers

  /** Fields are little-endian: their bytes have these weights, and what is above is lost. */
  lemma WrittenFields(n: int)
    ensures var b := Le16(n); |b| == 2 && n == b[0] as int + 256 * (b[1] as int) + 65536 * (n / 65536)
    ensures var b := Le32(n);
      |b| == 4
      && n == b[0] as int + 256 * (b[1] as int) + 65536 * (b[2] as int) + 16777216 * (b[3] as int)
              + 4294967296 * (n / 4294967296)
  {
    Halves(n, 256);
    Halves(n, 65536);
    Halves(n, 16777216);
  }

  lemma Halves(n: int, m: int)
    requires m == 256 || m == 65536 || m == 16777216
    ensures n / m == n / m % 256 + 256 * (n / (m * 256)) && (m == 256 ==> n == n % 256 + 256 * (n / 256))
  {
  }

  /** Read as signed numbers: the only ones of that width that are congruent to the bytes. */
  lemma ReadFields(b: bytes)
    ensures |b| >= 2 ==> -32768 <= Int16(b) < 32768 && (b[0] as int + 256 * (b[1] as int) - Int16(b)) % 65536 == 0
    ensures |b| >= 4 ==>
      -2147483648 <= Int32(b) < 2147483648
      && (b[0] as int + 256 * (b[1] as int) + 65536 * (b[2] as int) + 16777216 * (b[3] as int) - Int32(b))
         % 4294967296 == 0
  {
  }

  /** A negated tag is its negative as an int8. */
  lemma NegatedTag(tag: byte)
    ensures (tag + Neg(tag)) % 256 == 0
  {
  }

  // ---------------------------------------------------------------- values

  /** Size and count in front of what a container holds. */
  function Sized(count: nat, body: bytes): bytes {
    Le32(|body| + 2) + Le16(count) + body
  }

  lemma ContainerLayout(count: nat, body: bytes)
    ensures Container(count, body) == Sized(count, body)
  {
  }

  /** What a value is written as, by its type. */
  lemma ValueLayout(ty: Ty, v: Val)
    requires HasType(ty, v)
    ensures ty.Base? ==> Enc(ty, v) == [ty.tag] + v.raw
    ensures ty.Str? ==> Enc(ty, v) == [22] + Le32(|v.text|) + v.text
    ensures ty.Time? ==> Enc(ty, v) == [23, 22] + Le32(|v.text|) + v.text
    ensures ty.Obj? ==> Enc(ty, v) == [27] + Sized(|ty.fields|, EncFields(ty, v.fields, 0))
    ensures ty.IsList() && !v.VNil? && ty.elem.Base? ==>
      Enc(ty, v) == [26, ty.elem.tag] + Sized(|v.elems|, Raw(v.elems, 0))
    ensures ty.IsList() && !v.VNil? && !ty.elem.Base? ==>
      Enc(ty, v) == [25] + Sized(|v.elems|, EncElems(ty, v.elems, 0))
    ensures ty.IsList() && v.VNil? ==> Enc(ty, v) == [if ty.elem.Base? then 230 else 231]
    ensures ty.Dict? ==> Enc(ty, v) == if v.VNil? then [228] else [28] + Sized(|v.entries|, EncPairs(ty, v.entries, 0))
    ensures ty.Ptr? && v.VPtr? ==> Enc(ty, v) == Enc(ty.target, v.target)
  {
    hide EncFields, EncElems, EncPairs, Raw, Le16, Le32;
  }

  /** What a nil pointer is written as, by the type behind it. */
  lemma NilPointerLayout(target: Ty)
    ensures Enc(Ptr(target), VNil) == [
        match target
        case Base(tag) => if tag == 0 then 0 else 256 - tag
        case Str => 234
        case Time => 233
        case Obj(_) => 229
        case Slice(elem) => if elem.Base? then 230 else 231
        case Array(elem, _) => if elem.Base? then 230 else 231
        case Dict(_, _) => 228
        case Ptr(_) => 0
      ]
  {
  }

  /** Parts of containers follow each other, entries with a tag in front of key and value. */
  lemma PartsLayout(ty: Ty, v: Val, i: nat)
    requires HasType(ty, v)
    ensures ty.Obj? ==>
      EncFields(ty, v.fields, i)
        == if i >= |ty.fields| then [] else Enc(ty.fields[i], v.fields[i]) + EncFields(ty, v.fields, i + 1)
    ensures ty.IsMerged() && !v.VNil? && i < |v.elems| ==>
      v.elems[i].VBase? && Raw(v.elems, i) == v.elems[i].raw + Raw(v.elems, i + 1)
    ensures ty.IsList() && !v.VNil? && i >= |v.elems| ==> Raw(v.elems, i) == [] && EncElems(ty, v.elems, i) == []
    ensures ty.IsList() && !ty.elem.Slice? && !v.VNil? && i < |v.elems| ==>
      EncElems(ty, v.elems, i) == Enc(ty.elem, v.elems[i]) + EncElems(ty, v.elems, i + 1)
    ensures ty.Dict? && v.VDict? && i >= |v.entries| ==> EncPairs(ty, v.entries, i) == []
    ensures ty.Dict? && v.VDict? && i < |v.entries| ==>
      EncPairs(ty, v.entries, i)
        == [29] + MapEnc(ty.key, v.entries[i].k) + [30] + MapEnc(ty.value, v.entries[i].v)
           + EncPairs(ty, v.entries, i + 1)
  {
    hide Enc, MapEnc;
    if ty.IsMerged() && !v.VNil? && i < |v.elems| {
      assert HasType(ty.elem, v.elems[i]);
    }
  }

  // ---------------------------------------------------------------- schema streams

  /** What a type contributes to the schema stream. */
  lemma StreamLayout(ty: Ty)
    ensures Stream(ty) == match ty
      case Base(tag) => [tag]
      case Str => [22]
      case Time => [23, 22]
      case Obj(fields) => [27] + Le16(|fields|) + StreamFields(ty, 0)
      case Slice(elem) => [if elem.Base? then 26 else 25] + Stream(elem)
      case Array(elem, _) => [if elem.Base? then 26 else 25] + Stream(elem)
      case Dict(key, value) => [28, 29] + Stream(key) + [30] + Stream(value)
      case Ptr(target) => Stream(target)
  {
    hide StreamFields, Le16;
  }

  // ---------------------------------------------------------------- frames

  /** The format's name as it stands in front of every frame: "TSSDV", and version 1.0. */
  const OPENING: bytes := [84, 83, 83, 68, 86, 1, 0]

  function TextField(text: bytes): bytes {
    [22] + Le32(|text|) + text
  }

  /** A fragment's schema as a struct of four fields. */
  function SchemaBytes(s: Schema): bytes {
    [27] + Le32(20 + |s.types| + |s.tid| + |s.info|) + Le16(4)
    + [14] + Le16(s.fid) + TextField(s.types) + TextField(s.tid) + TextField(s.info)
  }

  function ArrayHead(n: nat): bytes {
    [26, 13] + Le32(n + 2) + Le16(n)
  }

  /** All bytes of a frame, from the magic word to the checksum. */
  lemma FrameLayout(ck: Checksum, s: Schema, payload: bytes)
    ensures var heads := OPENING + [77] + SchemaBytes(s) + ArrayHead(|payload|);
      var sum := ck(heads + payload);
      FrameOf(ck, s, payload) == heads + payload + ArrayHead(|sum|) + sum
  {
    hide Lead;
    HeadsLayout(s, |payload|);
  }

  lemma HeadsLayout(s: Schema, n: nat)
    ensures HeadsFor(s, n) == OPENING + [77] + SchemaBytes(s) + ArrayHead(n)
  {
    hide Lead, Le16, Le32, SchemaTail;
    LeadForm(s);
    TailLayout(s);
  }

  lemma TailLayout(s: Schema)
    ensures SchemaTail(s) == TextField(s.types) + TextField(s.tid) + TextField(s.info)
    ensures |SchemaTail(s)| == 15 + |s.types| + |s.tid| + |s.info|
  {
    hide Le32;
  }
}
