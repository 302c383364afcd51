/**
  The type trees that TSSD builds from Go types, the values they describe, and
  the value that a save followed by a dump is expected to give.
 */
module Types {
  import opened Wire

  /**
    A type tree. `Slice` and `Array` share a tag; their elements are merged into
    one run of bytes when the element is a base type. A pointer has no tag.
   */
  datatype Ty =
    | Base(tag: byte)
    | Str
    | Time
    | Obj(fields: seq<Ty>)
    | Slice(elem: Ty)
    | Array(elem: Ty, len: nat)
    | Dict(key: Ty, value: Ty)
    | Ptr(target: Ty)
  {
    predicate IsList() { Slice? || Array? }
    predicate IsMerged() { IsList() && elem.Base? }
  }

  datatype Pair = Pair(k: Val, v: Val)

  /**
    A value. `VNil` is a nil slice, map or pointer; a map is the list of its
    entries in iteration order; a time is its RFC 3339 text.
   */
  datatype Val =
    | VBase(raw: bytes)
    | VStr(text: bytes)
    | VTime(text: bytes)
    | VObj(fields: seq<Val>)
    | VNil
    | VList(elems: seq<Val>)
    | VDict(entries: seq<Pair>)
    | VPtr(target: Val)

  /** The bytes a base value takes: bool, the sized ints and uints, the floats. */
  function SizeOf(tag: byte): nat {
    if tag <= 13 then 1
    else if tag <= 15 then 2
    else if tag == 16 || tag == 17 || tag == 20 then 4
    else 8
  }

  function Tag(ty: Ty): byte {
    match ty
    case Base(tag) => tag
    case Str => TSTRING
    case Time => TTIME
    case Obj(_) => TOBJECT
    case Slice(elem) => if elem.Base? then TARRAYM else TARRAY
    case Array(elem, _) => if elem.Base? then TARRAYM else TARRAY
    case Dict(_, _) => TDICT
    case Ptr(_) => 0
  }

  /** Types that may be map keys: their values are equal exactly when their encodings are. */
  predicate KeyTy(ty: Ty) {
    match ty
    case Obj(fields) => forall i :: 0 <= i < |fields| ==> KeyTy(fields[i])
    case Array(elem, _) => KeyTy(elem)
    case _ => ty.Base? || ty.Str? || ty.Time?
  }

  /**
    The supported types. Counts known from the type fit their two-byte fields, and no
    list is directly the element of a list: the element stride is then not its width.
   */
  predicate WellFormed(ty: Ty) {
    match ty
    case Base(tag) => 11 <= tag <= 21
    case Obj(fields) => |fields| <= MAX16 && forall i :: 0 <= i < |fields| ==> WellFormed(fields[i])
    case Slice(elem) => !elem.IsList() && WellFormed(elem)
    case Array(elem, len) => len <= MAX16 && !elem.IsList() && WellFormed(elem)
    case Dict(key, value) => KeyTy(key) && WellFormed(key) && WellFormed(value)
    case Ptr(target) => WellFormed(target)
    case _ => true
  }

  predicate DistinctKeys(entries: seq<Pair>) {
    forall i, j :: 0 <= i < j < |entries| ==> entries[i].k != entries[j].k
  }

  predicate HasType(ty: Ty, v: Val) {
    match ty
    case Base(tag) => v.VBase? && |v.raw| == SizeOf(tag)
    case Str => v.VStr?
    case Time => v.VTime?
    case Obj(fields) => v.VObj? && |v.fields| == |fields|
        && forall i :: 0 <= i < |fields| ==> HasType(fields[i], v.fields[i])
    case Slice(elem) => v.VNil? || (v.VList? && forall i :: 0 <= i < |v.elems| ==> HasType(elem, v.elems[i]))
    case Array(elem, len) => v.VList? && |v.elems| == len
        && forall i :: 0 <= i < |v.elems| ==> HasType(elem, v.elems[i])
    case Dict(key, value) =>
      v.VNil? || (v.VDict? && DistinctKeys(v.entries)
                  && forall i :: 0 <= i < |v.entries| ==>
                    HasType(key, v.entries[i].k)
                    && HasType(value, v.entries[i].v))
    case Ptr(target) => v.VNil? || (v.VPtr? && HasType(target, v.target))
  }

  /** 0001-01-01T00:00:00Z */
  const ZERO_TIME: bytes :=
    [48, 48, 48, 49, 45, 48, 49, 45, 48, 49, 84, 48, 48, 58, 48, 48, 58, 48, 48, 90]

  function Zero(ty: Ty): Val {
    match ty
    case Base(tag) => VBase(seq(SizeOf(tag), _ => 0))
    case Str => VStr([])
    case Time => VTime(ZERO_TIME)
    case Obj(fields) => VObj(seq(|fields|, i requires 0 <= i < |fields| => Zero(fields[i])))
    case Array(elem, len) => VList(seq(len, _ => Zero(elem)))
    case _ => VNil
  }

  lemma {:induction false} ZeroHasType(ty: Ty)
    ensures HasType(ty, Zero(ty))
  {
    match ty
    case Obj(fields) =>
      forall i | 0 <= i < |fields| ensures HasType(fields[i], Zero(fields[i])) {
        ZeroHasType(fields[i]);
      }
    case Array(elem, len) => ZeroHasType(elem);
    case _ =>
  }

  /** A nil child and a nil pointer to it are written as the same byte. */
  predicate NilLooksNil(target: Ty) {
    target.Slice? || target.Dict? || (target.Ptr? && target.target.Ptr?)
  }

  /** The value that comes back: as saved, but a pointer to such a nil is a nil pointer. */
  function Norm(ty: Ty, v: Val): Val
    decreases ty, 0
  {
    match ty
    case Obj(fields) =>
      if v.VObj? && |v.fields| == |fields| then
        VObj(seq(|fields|, i requires 0 <= i < |fields| => Norm(fields[i], v.fields[i])))
      else v
    case Slice(elem) => if v.VList? then VList(NormAll(elem, v.elems)) else v
    case Array(elem, len) => if v.VList? then VList(NormAll(elem, v.elems)) else v
    case Dict(key, value) =>
      if v.VDict? then
        VDict(seq(|v.entries|, i requires 0 <= i < |v.entries| => Pair(v.entries[i].k, Norm(value, v.entries[i].v))))
      else v
    case Ptr(target) =>
      if v.VPtr? then
        var t := Norm(target, v.target);
        if t.VNil? && NilLooksNil(target) then VNil else VPtr(t)
      else v
    case _ => v
  }

  function NormAll(elem: Ty, vs: seq<Val>): seq<Val>
    decreases elem, 1
  {
    seq(|vs|, i requires 0 <= i < |vs| => Norm(elem, vs[i]))
  }

  /** Every count fits an int16 and every text length an int32. */
  predicate Fits(v: Val) {
    match v
    case VBase(_) => true
    case VStr(text) => |text| < LIMIT32
    case VTime(text) => |text| < LIMIT32
    case VObj(fields) => forall i :: 0 <= i < |fields| ==> Fits(fields[i])
    case VNil => true
    case VList(elems) => |elems| <= MAX16 && forall i :: 0 <= i < |elems| ==> Fits(elems[i])
    case VDict(entries) =>
      |entries| <= MAX16 && forall i :: 0 <= i < |entries| ==> Fits(entries[i].k) && Fits(entries[i].v)
    case VPtr(target) => Fits(target)
  }
}
