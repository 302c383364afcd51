/**
  The schema stream of a type, and which parts of a type it tells apart.
 */
module Shapes {
  import opened Wire
  import opened Types
  import opened Codec
  import opened RoundTrip

  // ---------------------------------------------------------------- streams

  /** The type tags of a tree, parents first; a pointer leaves no trace. */
  function Stream(ty: Ty): bytes
    decreases ty, 1, 0
  {
    match ty
    case Base(tag) => [tag]
    case Str => [TSTRING]
    case Time => [TTIME, TSTRING]
    case Obj(fields) => [TOBJECT] + Le16(|fields|) + StreamFields(ty, 0)
    case Slice(elem) => [Tag(ty)] + Stream(elem)
    case Array(elem, _) => [Tag(ty)] + Stream(elem)
    case Dict(key, value) => [TDICT] + ([TDICTK] + Stream(key)) + ([TDICTV] + Stream(value))
    case Ptr(target) => Stream(target)
  }

  function StreamFields(ty: Ty, i: nat): bytes
    requires ty.Obj?
    decreases ty, 0, |ty.fields| - i
  {
    if i >= |ty.fields| then [] else Stream(ty.fields[i]) + StreamFields(ty, i + 1)
  }

  /** What of a type shows on the wire: no pointers, and an array is a slice. */
  datatype Shape =
    | SBase(tag: byte)
    | SStr
    | STime
    | SObj(fields: seq<Shape>)
    | SList(merged: bool, elem: Shape)
    | SDict(key: Shape, value: Shape)

  function ShapeOf(ty: Ty): Shape {
    match ty
    case Base(tag) => SBase(tag)
    case Str => SStr
    case Time => STime
    case Obj(fields) => SObj(seq(|fields|, i requires 0 <= i < |fields| => ShapeOf(fields[i])))
    case Slice(elem) => SList(elem.Base?, ShapeOf(elem))
    case Array(elem, _) => SList(elem.Base?, ShapeOf(elem))
    case Dict(key, value) => SDict(ShapeOf(key), ShapeOf(value))
    case Ptr(target) => ShapeOf(target)
  }

  /** Streams are uniquely decodable: one in front of anything tells exactly the shape, and where it ends. */
  lemma StreamTellsShape(t1: Ty, t2: Ty, r1: bytes, r2: bytes)
    requires WellFormed(t1) && WellFormed(t2)
    ensures Stream(t1) + r1 == Stream(t2) + r2 <==> ShapeOf(t1) == ShapeOf(t2) && r1 == r2
  {
    if Stream(t1) + r1 == Stream(t2) + r2 { Unique(t1, t2, r1, r2); }
    if ShapeOf(t1) == ShapeOf(t2) { SameStream(t1, t2); }
  }

  lemma {:induction false} SameStream(t1: Ty, t2: Ty)
    requires ShapeOf(t1) == ShapeOf(t2)
    ensures Stream(t1) == Stream(t2)
    decreases t1, t2, 1, 0
  {
    if t1.Ptr? {
      SameStream(t1.target, t2);
    } else if t2.Ptr? {
      SameStream(t1, t2.target);
    } else if t1.Obj? {
      SameFields(t1, t2, 0);
    } else if t1.IsList() {
      SameStream(t1.elem, t2.elem);
    } else if t1.Dict? {
      SameStream(t1.key, t2.key);
      SameStream(t1.value, t2.value);
    }
  }

  lemma FieldShapes(t1: Ty, t2: Ty)
    requires t1.Obj? && t2.Obj?
    ensures ShapeOf(t1) == ShapeOf(t2) <==>
      |t1.fields| == |t2.fields| && forall i :: 0 <= i < |t1.fields| ==> ShapeOf(t1.fields[i]) == ShapeOf(t2.fields[i])
  {
    if ShapeOf(t1) == ShapeOf(t2) {
      forall i | 0 <= i < |t1.fields| ensures ShapeOf(t1.fields[i]) == ShapeOf(t2.fields[i]) {
        assert ShapeOf(t1).fields[i] == ShapeOf(t2).fields[i];
      }
    }
  }

  lemma {:induction false} SameFields(t1: Ty, t2: Ty, i: nat)
    requires t1.Obj? && t2.Obj? && ShapeOf(t1) == ShapeOf(t2) && i <= |t1.fields|
    ensures |t1.fields| == |t2.fields| && StreamFields(t1, i) == StreamFields(t2, i)
    decreases t1, t2, 0, |t1.fields| - i
  {
    FieldShapes(t1, t2);
    if i < |t1.fields| {
      SameStream(t1.fields[i], t2.fields[i]);
      SameFields(t1, t2, i + 1);
    }
  }

  /** The first byte of a stream is the tag. */
  lemma {:induction false} StreamHead(ty: Ty)
    requires WellFormed(ty)
    ensures |Stream(ty)| > 0
    ensures !ty.Ptr? ==> Stream(ty)[0] == Tag(ty)
  {
    if ty.Ptr? { StreamHead(ty.target); }
  }

  lemma {:induction false} Unique(t1: Ty, t2: Ty, r1: bytes, r2: bytes)
    requires WellFormed(t1) && WellFormed(t2) && Stream(t1) + r1 == Stream(t2) + r2
    ensures ShapeOf(t1) == ShapeOf(t2) && r1 == r2
    decreases t1, t2, 1, 0
  {
    hide Le16;
    var s := Stream(t1) + r1;
    StreamHead(t1);
    StreamHead(t2);
    if t1.Ptr? {
      Unique(t1.target, t2, r1, r2);
    } else if t2.Ptr? {
      Unique(t1, t2.target, r1, r2);
    } else {
      assert Tag(t1) == s[0] == Tag(t2);
      if t1.Obj? {
        UniqueObj(t1, t2, r1, r2);
      } else if t1.IsList() {
        assert s[1..] == Stream(t1.elem) + r1 == Stream(t2.elem) + r2;
        Unique(t1.elem, t2.elem, r1, r2);
      } else if t1.Dict? {
        UniqueDict(t1, t2, r1, r2);
      } else {
        UniqueLeaf(t1, t2, r1, r2);
      }
    }
  }

  lemma UniqueLeaf(t1: Ty, t2: Ty, r1: bytes, r2: bytes)
    requires WellFormed(t1) && WellFormed(t2) && Stream(t1) + r1 == Stream(t2) + r2 && Tag(t1) == Tag(t2)
    requires t1.Base? || t1.Str? || t1.Time?
    requires !t2.Ptr?
    ensures t1 == t2 && r1 == r2
  {
    var n := |Stream(t1)|;
    assert (Stream(t1) + r1)[n..] == r1;
    assert (Stream(t2) + r2)[n..] == r2;
  }

  lemma {:induction false} UniqueDict(t1: Ty, t2: Ty, r1: bytes, r2: bytes)
    requires t1.Dict? && t2.Dict? && WellFormed(t1) && WellFormed(t2) && Stream(t1) + r1 == Stream(t2) + r2
    ensures ShapeOf(t1) == ShapeOf(t2) && r1 == r2
    decreases t1, t2, 0, 0
  {
    hide Stream, WellFormed;
    DictStream(t1, r1);
    DictStream(t2, r2);
    var w1, w2 := Stream(t1.value) + r1, Stream(t2.value) + r2;
    var v1, v2 := [TDICTV] + w1, [TDICTV] + w2;
    WellFormedParts(t1);
    WellFormedParts(t2);
    Unique(t1.key, t2.key, v1, v2);
    assert v1[1..] == w1 && v2[1..] == w2;
    Unique(t1.value, t2.value, r1, r2);
  }

  lemma DictStream(ty: Ty, r: bytes)
    requires ty.Dict?
    ensures |Stream(ty)| >= 2 && (Stream(ty) + r)[2..] == Stream(ty.key) + ([TDICTV] + (Stream(ty.value) + r))
  {
  }

  lemma WellFormedParts(ty: Ty)
    requires ty.Dict? && WellFormed(ty)
    ensures WellFormed(ty.key) && WellFormed(ty.value)
  {
  }

  lemma {:induction false} UniqueObj(t1: Ty, t2: Ty, r1: bytes, r2: bytes)
    requires t1.Obj? && t2.Obj? && WellFormed(t1) && WellFormed(t2) && Stream(t1) + r1 == Stream(t2) + r2
    ensures ShapeOf(t1) == ShapeOf(t2) && r1 == r2
    decreases t1, t2, 0, 0x1_0000
  {
    hide Stream, StreamFields, ShapeOf;
    ObjStream(t1, r1);
    ObjStream(t2, r2);
    UniqueFields(t1, t2, 0, r1, r2);
    FieldShapes(t1, t2);
  }

  /** The number of fields can be read off a struct's stream, and then come the fields. */
  lemma ObjStream(ty: Ty, r: bytes)
    requires ty.Obj? && WellFormed(ty)
    ensures var s := Stream(ty) + r;
      |s| >= 3 && Int16(s[1..]) == |ty.fields| && s[3..] == StreamFields(ty, 0) + r
  {
    hide Le16, Int16, StreamFields;
    var s, u := Stream(ty) + r, StreamFields(ty, 0) + r;
    assert s[1..] == Le16(|ty.fields|) + u;
    ReadBack16(|ty.fields|, u);
    SurvivesField(|ty.fields|);
    assert s[3..] == s[1..][2..] == u;
  }

  lemma {:induction false} UniqueFields(t1: Ty, t2: Ty, i: nat, r1: bytes, r2: bytes)
    requires t1.Obj? && t2.Obj? && WellFormed(t1) && WellFormed(t2)
    requires i <= |t1.fields| == |t2.fields| && StreamFields(t1, i) + r1 == StreamFields(t2, i) + r2
    ensures r1 == r2 && forall j :: i <= j < |t1.fields| ==> ShapeOf(t1.fields[j]) == ShapeOf(t2.fields[j])
    decreases t1, t2, 0, |t1.fields| - i
  {
    if i < |t1.fields| {
      var u1, u2 := StreamFields(t1, i + 1) + r1, StreamFields(t2, i + 1) + r2;
      assert StreamFields(t1, i) + r1 == Stream(t1.fields[i]) + u1;
      assert StreamFields(t2, i) + r2 == Stream(t2.fields[i]) + u2;
      Unique(t1.fields[i], t2.fields[i], u1, u2);
      UniqueFields(t1, t2, i + 1, r1, r2);
    } else {
      assert [] + r1 == r1 && [] + r2 == r2;
    }
  }
}
