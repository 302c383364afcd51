/**
  The codec on plain byte strings: the encoding written by the save functions, the
  encoding written by their reflective twins, and the effect of the dump functions.
 */
module Codec {
  import opened Wire
  import opened Types

  // ---------------------------------------------------------------- encoding

  /** The element that a list of `elem` reads and writes as its i-th: a nested slice has stride 0. */
  function StrideIndex(elem: Ty, i: nat): nat {
    if elem.Slice? then 0 else i
  }

  function Text(s: bytes): bytes {
    Le32(|s|) + s
  }

  /** A length-prefixed container: the size counts everything behind itself. */
  function Container(count: nat, body: bytes): bytes {
    Le32(2 + |body|) + Le16(count) + body
  }

  /** What the address-based save functions append. */
  function Enc(ty: Ty, v: Val): bytes
    decreases ty, 1, 0
  {
    match (ty, v)
    case (Base(tag), VBase(raw)) => [tag] + raw
    case (Str, VStr(text)) => [TSTRING] + Text(text)
    case (Time, VTime(text)) => [TTIME, TSTRING] + Text(text)
    case (Obj(fields), VObj(vs)) => [TOBJECT] + Container(|fields|, EncFields(ty, vs, 0))
    case (Slice(elem), VList(vs)) =>
      if elem.Base? then [TARRAYM, elem.tag] + Container(|vs|, Raw(vs, 0))
      else [TARRAY] + Container(|vs|, EncElems(ty, vs, 0))
    case (Array(elem, _), VList(vs)) =>
      if elem.Base? then [TARRAYM, elem.tag] + Container(|vs|, Raw(vs, 0))
      else [TARRAY] + Container(|vs|, EncElems(ty, vs, 0))
    case (Dict(_, _), VDict(es)) => [TDICT] + Container(|es|, EncPairs(ty, es, 0))
    case (Ptr(target), VPtr(w)) => Enc(target, w)
    case (Ptr(target), _) => [Neg(Tag(target))]
    case _ => [Neg(Tag(ty))]
  }

  function EncFields(ty: Ty, vs: seq<Val>, i: nat): bytes
    requires ty.Obj?
    decreases ty, 0, |ty.fields| - i
  {
    if i >= |ty.fields| || i >= |vs| then []
    else Enc(ty.fields[i], vs[i]) + EncFields(ty, vs, i + 1)
  }

  function EncElems(ty: Ty, vs: seq<Val>, i: nat): bytes
    requires ty.IsList()
    decreases ty, 0, |vs| - i
  {
    if i >= |vs| then []
    else Enc(ty.elem, vs[StrideIndex(ty.elem, i)]) + EncElems(ty, vs, i + 1)
  }

  /** Keys and values of a map are saved by the reflective functions. */
  function EncPairs(ty: Ty, es: seq<Pair>, i: nat): bytes
    requires ty.Dict?
    decreases ty, 0, |es| - i
  {
    if i >= |es| then []
    else [TDICTK] + MapEnc(ty.key, es[i].k) + [TDICTV] + MapEnc(ty.value, es[i].v) + EncPairs(ty, es, i + 1)
  }

  function Raw(vs: seq<Val>, i: nat): bytes
    decreases |vs| - i
  {
    if i >= |vs| then [] else (if vs[i].VBase? then vs[i].raw else []) + Raw(vs, i + 1)
  }

  /** What the reflective save functions append. A pointer goes back to the address-based ones. */
  function MapEnc(ty: Ty, v: Val): bytes
    decreases ty, 1, 0
  {
    match (ty, v)
    case (Base(tag), VBase(raw)) => [tag] + raw
    case (Str, VStr(text)) => [TSTRING] + Text(text)
    case (Time, VTime(text)) => [TTIME, TSTRING] + Text(text)
    case (Obj(fields), VObj(vs)) => [TOBJECT] + Container(|fields|, MapEncFields(ty, vs, 0))
    case (Slice(elem), VList(vs)) =>
      if elem.Base? then [TARRAYM, elem.tag] + Container(|vs|, Raw(vs, 0))
      else [TARRAY] + Container(|vs|, MapEncElems(ty, vs, 0))
    case (Array(elem, _), VList(vs)) =>
      if elem.Base? then [TARRAYM, elem.tag] + Container(|vs|, Raw(vs, 0))
      else [TARRAY] + Container(|vs|, MapEncElems(ty, vs, 0))
    case (Dict(_, _), VDict(es)) => [TDICT] + Container(|es|, EncPairs(ty, es, 0))
    case (Ptr(target), VPtr(w)) => Enc(target, w)
    case (Ptr(target), _) => [Neg(Tag(target))]
    case _ => [Neg(Tag(ty))]
  }

  function MapEncFields(ty: Ty, vs: seq<Val>, i: nat): bytes
    requires ty.Obj?
    decreases ty, 0, |ty.fields| - i
  {
    if i >= |ty.fields| || i >= |vs| then []
    else MapEnc(ty.fields[i], vs[i]) + MapEncFields(ty, vs, i + 1)
  }

  function MapEncElems(ty: Ty, vs: seq<Val>, i: nat): bytes
    requires ty.IsList()
    decreases ty, 0, |vs| - i
  {
    if i >= |vs| then []
    else MapEnc(ty.elem, vs[i]) + MapEncElems(ty, vs, i + 1)
  }

  // ---------------------------------------------------------------- decoding

  /**
    How a dump ends: done, out of data, malformed data, or outside what Go defines
    (a runtime panic, or a write past the end of a fixed array).
   */
  datatype Status = Ok | Short | Bad | Fault

  /** A finished dump: its status, the destination as it left it, and the bytes not read. */
  datatype Out = Out(st: Status, val: Val, rest: bytes)

  datatype Sizes = Sizes(st: Status, count: int, rest: bytes)

  /** The size and count fields of a container; the size is only compared with what is there. */
  function CheckSize(s: bytes): Sizes {
    if |s| < 4 then Sizes(Short, 0, s)
    else if |s| - 4 < Int32(s) then Sizes(Short, 0, s[4..])
    else if |s| < 6 then Sizes(Short, 0, s[4..])
    else Sizes(Ok, Int16(s[4..]), s[6..])
  }

  datatype TextOut = TextOut(st: Status, text: bytes, rest: bytes)

  function DumpText(s: bytes): TextOut {
    if |s| < 4 then TextOut(Short, [], s)
    else
      var n, u := Int32(s), s[4..];
      if |u| < n then TextOut(Short, [], u)
      else if n < 0 then TextOut(Fault, [], u)
      else TextOut(Ok, u[..n], u[n..])
  }

  function Zeros(elem: Ty, n: nat): seq<Val> {
    seq(n, _ => Zero(elem))
  }

  /** The fields a struct destination holds. */
  function OldFields(ty: Ty, old_: Val): (r: seq<Val>)
    requires ty.Obj?
    ensures |r| == |ty.fields|
  {
    if old_.VObj? && |old_.fields| == |ty.fields| then old_.fields else Zero(ty).fields
  }

  /**
    The elements a list destination offers for n incoming ones. A slice whose backing
    store (its elements up to capacity) is too short is replaced by a fresh one.
   */
  function OldElems(ty: Ty, n: nat, old_: Val): (r: seq<Val>)
    requires ty.IsList()
    ensures |r| == if ty.Slice? then n else ty.len
  {
    if ty.Slice? then
      if old_.VList? && |old_.elems| >= n then old_.elems[..n] else Zeros(ty.elem, n)
    else
      if old_.VList? && |old_.elems| == ty.len then old_.elems else Zeros(ty.elem, ty.len)
  }

  /** The bytes that n elements of one size take. */
  function Total(n: nat, size: nat): nat {
    if n == 0 then 0 else size + Total(n - 1, size)
  }

  /** n base values cut from the front of s. */
  function Chunks(s: bytes, size: nat, n: nat): (r: seq<Val>)
    ensures |r| == n
    decreases n
  {
    if n == 0 then []
    else if |s| < size then [VBase(s)] + Chunks([], size, n - 1)
    else [VBase(s[..size])] + Chunks(s[size..], size, n - 1)
  }

  /** A map assignment: the value of an existing key is replaced in place. */
  function DictPut(es: seq<Pair>, k: Val, v: Val): seq<Pair> {
    if es == [] then [Pair(k, v)]
    else if es[0].k == k then [Pair(k, v)] + es[1..]
    else [es[0]] + DictPut(es[1..], k, v)
  }

  /** What a negated tag does: nil for what can be nil, zeros for an array, nothing otherwise. */
  function Skip(ty: Ty, old_: Val): Val {
    if ty.Slice? || ty.Dict? then VNil
    else if ty.Array? then Zero(ty)
    else old_
  }

  /** The destination behind a pointer. */
  function Behind(ty: Ty, dest: Val): Val
    requires ty.Ptr?
  {
    if dest.VPtr? then dest.target else Zero(ty.target)
  }

  /** The effect of dumping a value of type ty from s over the destination old_. */
  function Dump(ty: Ty, s: bytes, old_: Val): Out
    decreases ty, 2, 0
  {
    if |s| == 0 then Out(Short, old_, s)
    else if ty.Ptr? then
      if s[0] == Neg(Tag(ty.target)) then Out(Ok, VNil, s[1..])
      else
        var o := Dump(ty.target, s, if old_.VPtr? then old_.target else Zero(ty.target));
        Out(o.st, VPtr(o.val), o.rest)
    else if s[0] == Tag(ty) then DumpBody(ty, s[1..], old_)
    else if s[0] == Neg(Tag(ty)) then Out(Ok, Skip(ty, old_), s[1..])
    else Out(Bad, old_, s[1..])
  }

  /** Dumping behind the tag. */
  function DumpBody(ty: Ty, s: bytes, old_: Val): Out
    requires !ty.Ptr?
    decreases ty, 1, 0
  {
    match ty
    case Base(tag) =>
      var n := SizeOf(tag);
      if |s| < n then Out(Short, old_, s) else Out(Ok, VBase(s[..n]), s[n..])
    case Str =>
      var t := DumpText(s);
      Out(t.st, if t.st == Ok then VStr(t.text) else old_, t.rest)
    case Time =>
      if |s| == 0 then Out(Short, old_, s)
      else if s[0] != TSTRING then Out(Bad, old_, s[1..])
      else
        var t := DumpText(s[1..]);
        Out(t.st, if t.st == Ok then VTime(t.text) else old_, t.rest)
    case Obj(fields) =>
      var z := CheckSize(s);
      if z.st != Ok then Out(z.st, old_, z.rest)
      else if z.count != |fields| then Out(Bad, old_, z.rest)
      else DumpFields(ty, z.rest, OldFields(ty, old_), 0)
    case Slice(elem) => if elem.Base? then DumpMerged(ty, s, old_) else DumpList(ty, s, old_)
    case Array(elem, _) => if elem.Base? then DumpMerged(ty, s, old_) else DumpList(ty, s, old_)
    case Dict(_, _) =>
      var z := CheckSize(s);
      if z.st != Ok then Out(z.st, old_, z.rest)
      else
        var o := DumpPairs(ty, z.count, z.rest, []);
        Out(o.st, if o.st == Ok then o.val else old_, o.rest)
  }

  function DumpFields(ty: Ty, s: bytes, cur: seq<Val>, i: nat): Out
    requires ty.Obj? && |cur| == |ty.fields|
    decreases ty, 0, |ty.fields| - i
  {
    if i >= |ty.fields| then Out(Ok, VObj(cur), s)
    else
      var o := Dump(ty.fields[i], s, cur[i]);
      if o.st != Ok then Out(o.st, VObj(cur[i := o.val]), o.rest)
      else DumpFields(ty, o.rest, cur[i := o.val], i + 1)
  }

  function DumpList(ty: Ty, s: bytes, old_: Val): Out
    requires ty.IsList()
    decreases ty, 0, 0x1_0000
  {
    var z := CheckSize(s);
    if z.st != Ok then Out(z.st, old_, z.rest)
    else if ty.Slice? && z.count < 0 then Out(Fault, old_, z.rest)
    else
      var n: nat := if z.count < 0 then 0 else z.count;
      DumpElems(ty, n, z.rest, OldElems(ty, n, old_), 0)
  }

  /** Element by element; one that begins behind the end of an array is a fault. */
  function DumpElems(ty: Ty, n: nat, s: bytes, cur: seq<Val>, i: nat): Out
    requires ty.IsList()
    decreases ty, 0, n - i
  {
    var j := StrideIndex(ty.elem, i);
    if i >= n then Out(Ok, VList(cur), s)
    else if j >= |cur| then if |s| == 0 then Out(Short, VList(cur), s) else Out(Fault, VList(cur), s[1..])
    else
      var o := Dump(ty.elem, s, cur[j]);
      if o.st != Ok then Out(o.st, VList(cur[j := o.val]), o.rest)
      else DumpElems(ty, n, o.rest, cur[j := o.val], i + 1)
  }

  /** A merged list is copied in one read, whose failure is not looked at. */
  function DumpMerged(ty: Ty, s: bytes, old_: Val): Out
    requires ty.IsMerged()
  {
    if |s| == 0 then Out(Short, old_, s)
    else if s[0] != ty.elem.tag then Out(Bad, old_, s[1..])
    else
      var z := CheckSize(s[1..]);
      if z.st != Ok then Out(z.st, old_, z.rest)
      else if z.count < 0 then Out(Fault, old_, z.rest)
      else
        var size, n := SizeOf(ty.elem.tag), z.count;
        var cur := OldElems(ty, n, old_);
        var total := Total(n, size);
        if n == 0 || |z.rest| < total then Out(Ok, VList(cur), z.rest)
        else if n > |cur| then Out(Fault, old_, z.rest)
        else Out(Ok, VList(Chunks(z.rest, size, n) + cur[n..]), z.rest[total..])
  }

  function DumpPairs(ty: Ty, n: int, s: bytes, es: seq<Pair>): Out
    requires ty.Dict?
    decreases ty, 0, n
  {
    if n <= 0 then Out(Ok, VDict(es), s)
    else if |s| == 0 then Out(Short, VDict(es), s)
    else if s[0] != TDICTK then Out(Bad, VDict(es), s[1..])
    else
      var k := Dump(ty.key, s[1..], Zero(ty.key));
      if k.st != Ok then Out(k.st, VDict(es), k.rest)
      else if |k.rest| == 0 then Out(Short, VDict(es), k.rest)
      else if k.rest[0] != TDICTV then Out(Bad, VDict(es), k.rest[1..])
      else
        var v := Dump(ty.value, k.rest[1..], Zero(ty.value));
        if v.st != Ok then Out(v.st, VDict(es), v.rest)
        else DumpPairs(ty, n - 1, v.rest, DictPut(es, k.val, v.val))
  }
}
