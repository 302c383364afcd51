/**
  Building a type tree from a Go type: the schema stream is appended to one shared root,
  and field counts and list tags are patched in it once the children are known.
 */
module Parsing {
  import opened Wire
  import opened Types
  import opened Shapes
  import opened Nesting

  datatype Kind =
    | Bool | Int | Int8 | Int16 | Int32 | Int64 | Uint | Uint8 | Uint16 | Uint32 | Uint64 | Float32 | Float64

  /** The tag of a base kind: int and uint travel as their 64-bit forms. */
  function ToTssdType(kind: Kind): (tag: byte)
    ensures 11 <= tag <= 21
    ensures kind == Bool <==> tag == 11
    ensures kind == Int8 <==> tag == 12
    ensures kind == Uint8 <==> tag == 13
    ensures kind == Int16 <==> tag == 14
    ensures kind == Uint16 <==> tag == 15
    ensures kind == Int32 <==> tag == 16
    ensures kind == Uint32 <==> tag == 17
    ensures kind == Int64 || kind == Int <==> tag == 18
    ensures kind == Uint64 || kind == Uint <==> tag == 19
    ensures kind == Float32 <==> tag == 20
    ensures kind == Float64 <==> tag == 21
  {
    match kind
    case Bool => 11
    case Int8 => 12
    case Uint8 => TUINT8
    case Int16 => TINT16
    case Uint16 => 15
    case Int32 => 16
    case Uint32 => 17
    case Int64 => 18
    case Int => 18
    case Uint64 => 19
    case Uint => 19
    case Float32 => 20
    case Float64 => 21
  }

  /** The bytes a value of a kind takes in Go, on machines with 64-bit words. */
  function GoWidth(kind: Kind): nat {
    match kind
    case Bool => 1
    case Int => 8
    case Int8 => 1
    case Int16 => 2
    case Int32 => 4
    case Int64 => 8
    case Uint => 8
    case Uint8 => 1
    case Uint16 => 2
    case Uint32 => 4
    case Uint64 => 8
    case Float32 => 4
    case Float64 => 8
  }

  /** Values travel in as many bytes as they take in memory, and what shares a tag is alike. */
  lemma TagsTellKinds(k1: Kind, k2: Kind)
    ensures SizeOf(ToTssdType(k1)) == GoWidth(k1)
    ensures ToTssdType(k1) == ToTssdType(k2) <==>
      k1 == k2 || {k1, k2} == {Int, Int64} || {k1, k2} == {Uint, Uint64}
  {
    if {k1, k2} == {Int, Int64} {
      assert k1 in {Int, Int64} && k2 in {Int, Int64};
    }
    if {k1, k2} == {Uint, Uint64} {
      assert k1 in {Uint, Uint64} && k2 in {Uint, Uint64};
    }
  }

  /** The Go types that are parsed. */
  datatype GoType =
    | GBase(kind: Kind)
    | GString
    | GTime
    | GStruct(fields: seq<GoField>)
    | GSlice(elem: GoType)
    | GArray(elem: GoType, len: nat)
    | GMap(key: GoType, value: GoType)
    | GPointer(target: GoType)

  /** A struct field: whether it is exported, the name of its type, and the parts of its tag. */
  datatype GoField = GoField(exported: bool, typeName: string, tags: seq<string>, ty: GoType)

  const FLAT_KIND := "tssd.Flat"
  const IGNORE := "-"

  /** Fields that are not part of the data. */
  predicate Ignored(f: GoField) {
    !f.exported || FLAT_KIND <= f.typeName || IGNORE in f.tags
  }

  /** The fields that are. */
  function Kept(fields: seq<GoField>): seq<GoField> {
    if fields == [] then [] else (if Ignored(fields[0]) then [] else [fields[0]]) + Kept(fields[1..])
  }

  /** The tree of a Go type. */
  function TreeOf(g: GoType): Ty
    decreases g, 1
  {
    match g
    case GBase(kind) => Base(ToTssdType(kind))
    case GString => Str
    case GTime => Time
    case GStruct(fields) => Obj(TreesOf(g, 0))
    case GSlice(elem) => Slice(TreeOf(elem))
    case GArray(elem, len) => Array(TreeOf(elem), len)
    case GMap(key, value) => Dict(TreeOf(key), TreeOf(value))
    case GPointer(target) => Ptr(TreeOf(target))
  }

  /** The trees of the fields kept, from field i on. */
  function TreesOf(g: GoType, i: nat): seq<Ty>
    requires g.GStruct?
    decreases g, 0, |g.fields| - i
  {
    if i >= |g.fields| then []
    else if Ignored(g.fields[i]) then TreesOf(g, i + 1)
    else [TreeOf(g.fields[i].ty)] + TreesOf(g, i + 1)
  }

  lemma {:induction false} TreesAreKept(g: GoType, i: nat)
    requires g.GStruct? && i <= |g.fields|
    ensures |TreesOf(g, i)| == |Kept(g.fields[i..])|
    ensures forall j :: 0 <= j < |TreesOf(g, i)| ==> TreesOf(g, i)[j] == TreeOf(Kept(g.fields[i..])[j].ty)
    decreases |g.fields| - i
  {
    if i < |g.fields| {
      TreesAreKept(g, i + 1);
      assert g.fields[i..][1..] == g.fields[i + 1..];
    }
  }

  /** What is kept is in the data, what is ignored is not, and the order stays. */
  lemma {:induction false} KeptIs(fields: seq<GoField>, f: GoField)
    ensures f in Kept(fields) <==> f in fields && !Ignored(f)
    ensures |fields| == 1 ==> Kept(fields) == if Ignored(fields[0]) then [] else fields
  {
    hide Ignored;
    if fields != [] {
      KeptIs(fields[1..], f);
      assert f in fields <==> f == fields[0] || f in fields[1..];
      if |fields| == 1 {
        assert fields[1..] == [] && [fields[0]] == fields;
      }
    }
  }

  lemma {:induction false} KeptInOrder(a: seq<GoField>, b: seq<GoField>)
    ensures Kept(a + b) == Kept(a) + Kept(b)
  {
    hide Kept;
    if a == [] {
      assert a + b == b;
      KeptStep(a);
      assert [] + Kept(b) == Kept(b);
    } else {
      KeptInOrder(a[1..], b);
      assert (a + b)[1..] == a[1..] + b && (a + b)[0] == a[0];
      KeptStep(a);
      KeptStep(a + b);
      Regroup(if Ignored(a[0]) then [] else [a[0]], Kept(a[1..]), Kept(b));
    }
  }

  lemma KeptStep(fields: seq<GoField>)
    ensures Kept(fields) ==
      if fields == [] then [] else (if Ignored(fields[0]) then [] else [fields[0]]) + Kept(fields[1..])
  {
  }

  lemma Regroup<T>(a: seq<T>, b: seq<T>, c: seq<T>)
    ensures a + (b + c) == a + b + c
  {
  }

  /** The tree says of each type what the Go type says. */
  lemma TreeIs(g: GoType)
    ensures g.GBase? ==> TreeOf(g) == Base(ToTssdType(g.kind)) && SizeOf(TreeOf(g).tag) == GoWidth(g.kind)
    ensures g.GString? <==> TreeOf(g).Str?
    ensures g.GTime? <==> TreeOf(g).Time?
    ensures g.GStruct? ==>
      TreeOf(g).Obj? && |TreeOf(g).fields| == |Kept(g.fields)|
      && forall i :: 0 <= i < |Kept(g.fields)| ==> TreeOf(g).fields[i] == TreeOf(Kept(g.fields)[i].ty)
    ensures g.GSlice? ==> TreeOf(g) == Slice(TreeOf(g.elem))
    ensures g.GArray? ==> TreeOf(g) == Array(TreeOf(g.elem), g.len)
    ensures g.GMap? ==> TreeOf(g) == Dict(TreeOf(g.key), TreeOf(g.value))
    ensures g.GPointer? ==> TreeOf(g) == Ptr(TreeOf(g.target))
  {
    if g.GBase? {
      TagsTellKinds(g.kind, g.kind);
    } else if g.GStruct? {
      TreesAreKept(g, 0);
      assert g.fields[0..] == g.fields;
    }
  }

  // ---------------------------------------------------------------- the types that are supported

  /** A Go type whose values a map can have as keys: base values, texts, times, and structs and arrays of these. */
  predicate MayBeKey(g: GoType) {
    match g
    case GStruct(fields) => forall i :: 0 <= i < |fields| ==> Ignored(fields[i]) || MayBeKey(fields[i].ty)
    case GArray(elem, _) => MayBeKey(elem)
    case _ => g.GBase? || g.GString? || g.GTime?
  }

  /** The Go types the theorems are about: no array directly in a list, counts that fit, and keys as above. */
  predicate Supported(g: GoType) {
    match g
    case GStruct(fields) =>
      |Kept(fields)| <= 32767 && forall i :: 0 <= i < |fields| ==> Ignored(fields[i]) || Supported(fields[i].ty)
    case GSlice(elem) => !elem.GArray? && Supported(elem)
    case GArray(elem, len) => len <= 32767 && !elem.GArray? && Supported(elem)
    case GMap(key, value) => MayBeKey(key) && Supported(key) && Supported(value)
    case GPointer(target) => Supported(target)
    case _ => true
  }

  /** Without slices directly in lists as well. */
  predicate Flat(g: GoType) {
    match g
    case GStruct(fields) => forall i :: 0 <= i < |fields| ==> Ignored(fields[i]) || Flat(fields[i].ty)
    case GSlice(elem) => !elem.GSlice? && Flat(elem)
    case GArray(elem, _) => !elem.GSlice? && Flat(elem)
    case GMap(key, value) => Flat(key) && Flat(value)
    case GPointer(target) => Flat(target)
    case _ => true
  }

  /** The fields kept are those not ignored, in trees as in lists. */
  lemma {:induction false} EveryKept(g: GoType, i: nat, p: Ty -> bool, q: GoType -> bool)
    requires g.GStruct? && i <= |g.fields|
    requires forall j :: i <= j < |g.fields| && !Ignored(g.fields[j]) ==>
      (p(TreeOf(g.fields[j].ty)) <==> q(g.fields[j].ty))
    ensures (forall j :: 0 <= j < |TreesOf(g, i)| ==> p(TreesOf(g, i)[j]))
      <==> forall j :: i <= j < |g.fields| ==> Ignored(g.fields[j]) || q(g.fields[j].ty)
    decreases |g.fields| - i
  {
    hide Ignored, TreeOf;
    if i < |g.fields| {
      EveryKept(g, i + 1, p, q);
      if !Ignored(g.fields[i]) {
        AllOf(TreeOf(g.fields[i].ty), TreesOf(g, i + 1), p);
        assert TreesOf(g, i) == [TreeOf(g.fields[i].ty)] + TreesOf(g, i + 1);
        assert (forall j :: i <= j < |g.fields| ==> Ignored(g.fields[j]) || q(g.fields[j].ty))
          <==> q(g.fields[i].ty) && forall j :: i + 1 <= j < |g.fields| ==> Ignored(g.fields[j]) || q(g.fields[j].ty);
      } else {
        assert TreesOf(g, i) == TreesOf(g, i + 1);
        assert (forall j :: i <= j < |g.fields| ==> Ignored(g.fields[j]) || q(g.fields[j].ty))
          <==> forall j :: i + 1 <= j < |g.fields| ==> Ignored(g.fields[j]) || q(g.fields[j].ty);
      }
    }
  }

  lemma AllOf(first: Ty, rest: seq<Ty>, p: Ty -> bool)
    ensures (forall j :: 0 <= j < |[first] + rest| ==> p(([first] + rest)[j]))
      <==> p(first) && forall j :: 0 <= j < |rest| ==> p(rest[j])
  {
    var all := [first] + rest;
    if forall j :: 0 <= j < |all| ==> p(all[j]) {
      assert p(all[0]);
      forall j | 0 <= j < |rest| ensures p(rest[j]) {
        assert p(all[j + 1]);
      }
    }
  }

  lemma {:induction false} KeyTreeIsKey(g: GoType)
    ensures KeyTy(TreeOf(g)) <==> MayBeKey(g)
  {
    match g
    case GStruct(fields) =>
      forall j | 0 <= j < |fields| ensures KeyTy(TreeOf(fields[j].ty)) <==> MayBeKey(fields[j].ty) {
        KeyTreeIsKey(fields[j].ty);
      }
      EveryKept(g, 0, KeyTy, MayBeKey);
    case GArray(elem, _) => KeyTreeIsKey(elem);
    case _ =>
  }

  lemma {:induction false} KeysAreFlat(g: GoType)
    requires MayBeKey(g)
    ensures Supported(g) ==> Flat(g)
  {
    match g
    case GStruct(fields) =>
      forall j | 0 <= j < |fields| && !Ignored(fields[j]) && Supported(fields[j].ty) ensures Flat(fields[j].ty) {
        KeysAreFlat(fields[j].ty);
      }
    case GArray(elem, _) => KeysAreFlat(elem);
    case _ =>
  }

  /** The trees of the supported types are exactly those that the theorems are about. */
  lemma {:induction false} SupportedIsNestable(g: GoType)
    ensures Nestable(TreeOf(g)) <==> Supported(g)
    ensures WellFormed(TreeOf(g)) <==> Supported(g) && Flat(g)
    decreases g, 1
  {
    hide KeyTy, MayBeKey, Kept, TreesOf;
    match g
    case GStruct(_) => StructSupported(g);
    case GSlice(elem) => SupportedIsNestable(elem);
    case GArray(elem, _) => SupportedIsNestable(elem);
    case GMap(key, value) =>
      SupportedIsNestable(key);
      SupportedIsNestable(value);
      KeyTreeIsKey(key);
      if MayBeKey(key) { KeysAreFlat(key); }
    case GPointer(target) => SupportedIsNestable(target);
    case _ =>
  }

  lemma {:induction false} StructSupported(g: GoType)
    requires g.GStruct?
    ensures Nestable(TreeOf(g)) <==> Supported(g)
    ensures WellFormed(TreeOf(g)) <==> Supported(g) && Flat(g)
    decreases g, 0
  {
    hide Kept, Ignored;
    forall j | 0 <= j < |g.fields|
      ensures Nestable(TreeOf(g.fields[j].ty)) <==> Supported(g.fields[j].ty)
      ensures WellFormed(TreeOf(g.fields[j].ty)) <==> Supported(g.fields[j].ty) && Flat(g.fields[j].ty)
    {
      SupportedIsNestable(g.fields[j].ty);
    }
    hide TreesOf;
    TreeIs(g);
    StructParts(g);
    EveryKept(g, 0, Nestable, Supported);
    EveryKept(g, 0, WellFormed, h => Supported(h) && Flat(h));
  }

  lemma StructParts(g: GoType)
    requires g.GStruct?
    ensures TreeOf(g) == Obj(TreesOf(g, 0)) && |TreesOf(g, 0)| == |Kept(g.fields)|
  {
    TreesAreKept(g, 0);
    assert g.fields[0..] == g.fields;
  }

  method ShouldIgnore(f: GoField) returns (yes: bool)
    ensures yes == Ignored(f)
    ensures !yes <==>
      f.exported && !(|f.typeName| >= 9 && f.typeName[..9] == "tssd.Flat")
      && forall i :: 0 <= i < |f.tags| ==> f.tags[i] != "-"
  {
    if !f.exported {
      return true;
    }
    if FLAT_KIND <= f.typeName {
      return true;
    }
    for i := 0 to |f.tags|
      invariant IGNORE !in f.tags[..i]
    {
      if f.tags[i] == IGNORE {
        return true;
      }
    }
    assert f.tags[..|f.tags|] == f.tags;
    return false;
  }

  /** The streams of some types, one behind the other. */
  function Streams(tys: seq<Ty>): bytes {
    if tys == [] then [] else Stream(tys[0]) + Streams(tys[1..])
  }

  lemma NoStreams()
    ensures Streams([]) == []
  {
  }

  lemma {:induction false} StreamsSnoc(tys: seq<Ty>, ty: Ty)
    ensures Streams(tys + [ty]) == Streams(tys) + Stream(ty)
  {
    hide Stream;
    if tys == [] {
      assert [ty][1..] == [] && tys + [ty] == [ty];
      assert Streams([ty]) == Stream(ty) + Streams([]);
    } else {
      StreamsSnoc(tys[1..], ty);
      assert (tys + [ty])[1..] == tys[1..] + [ty];
    }
  }

  lemma {:induction false} StreamsAreFields(ty: Ty, i: nat)
    requires ty.Obj? && i <= |ty.fields|
    ensures Streams(ty.fields[i..]) == StreamFields(ty, i)
    decreases |ty.fields| - i
  {
    hide Stream;
    if i < |ty.fields| {
      StreamsAreFields(ty, i + 1);
      assert ty.fields[i..][1..] == ty.fields[i + 1..];
    }
  }

  /** The root all parts of a type share; it holds the schema stream. */
  class Root {
    var stype: bytes

    constructor ()
      ensures stype == []
    {
      stype := [];
    }

    /** Append a tag, and say where it went; a time brings the tag of its text with it. */
    method SetType(tag: byte) returns (pos: nat)
      modifies this
      ensures pos == old(|stype|) && stype == old(stype) + (if tag == TTIME then [TTIME, TSTRING] else [tag])
    {
      pos := |stype|;
      stype := stype + [tag];
      if tag == TTIME {
        stype := stype + [TSTRING];
      }
    }

    /** Replace the tag at a position. */
    method UpdateType(tag: byte, pos: nat)
      requires pos < |stype|
      modifies this
      ensures stype == old(stype)[pos := tag]
    {
      stype := stype[pos := tag];
    }

    /** Replace the two bytes of a count at a position. */
    method UpdateCount(pos: nat, n: nat)
      requires pos + 2 <= |stype|
      modifies this
      ensures stype == old(stype)[..pos] + Le16(n) + old(stype)[pos + 2..]
    {
      stype := stype[..pos] + Le16(n) + stype[pos + 2..];
    }

    /**
      Parse a type. Whatever the patching in between, in the end the root has grown by the
      tags asked for in front, and by the stream of the tree that is returned.
     */
    method DoParse(g: GoType, typs: bytes) returns (ty: Ty)
      modifies this
      ensures ty == TreeOf(g) && stype == old(stype) + typs + Stream(ty)
      decreases g, 1
    {
      hide Stream, TreeOf;
      stype := stype + typs;
      ty := ParseKind(g);
    }

    method ParseKind(g: GoType) returns (ty: Ty)
      modifies this
      ensures ty == TreeOf(g) && stype == old(stype) + Stream(ty)
      decreases g, 0, 1
    {
      match g
      case GBase(kind) =>
        var tag := ToTssdType(kind);
        var _ := SetType(tag);
        ty := Base(tag);
      case GPointer(target) =>
        var t := DoParse(target, []);
        ty := Ptr(t);
        assert stype == old(stype) + Stream(ty);
      case GString =>
        var _ := SetType(TSTRING);
        ty := Str;
      case GTime =>
        var _ := SetType(TTIME);
        ty := Time;
        assert stype == old(stype) + Stream(ty);
      case GStruct(_) => ty := ParseStruct(g);
      case GSlice(elem) =>
        var t := ParseList(elem);
        ty := Slice(t);
        assert stype == old(stype) + Stream(ty);
      case GArray(elem, len) =>
        var t := ParseList(elem);
        ty := Array(t, len);
        assert stype == old(stype) + Stream(ty);
      case GMap(key, value) =>
        ty := ParseMap(key, value);
    }

    method ParseMap(key: GoType, value: GoType) returns (ty: Ty)
      modifies this
      ensures ty == Dict(TreeOf(key), TreeOf(value)) && stype == old(stype) + Stream(ty)
      decreases GMap(key, value), 0, 0
    {
      hide TreeOf, Stream;
      ghost var was := stype;
      var _ := SetType(TDICT);
      var k := DoParse(key, [TDICTK]);
      var v := DoParse(value, [TDICTV]);
      ty := Dict(k, v);
      MapIs(was, k, v);
    }

    static lemma MapIs(was: bytes, k: Ty, v: Ty)
      ensures was + [TDICT] + [TDICTK] + Stream(k) + [TDICTV] + Stream(v) == was + Stream(Dict(k, v))
    {
    }

    /** The tag of a list is known for sure only when its element has been parsed. */
    method ParseList(elem: GoType) returns (ty: Ty)
      modifies this
      ensures ty == TreeOf(elem) && stype == old(stype) + ([if ty.Base? then TARRAYM else TARRAY] + Stream(ty))
      decreases elem, 2
    {
      hide Stream, TreeOf;
      var pos := SetType(TARRAY);
      ty := DoParse(elem, []);
      assert stype == old(stype) + ([TARRAY] + Stream(ty));
      if ty.Base? {
        UpdateType(TARRAYM, pos);
      }
    }

    /** The number of fields is written first, and patched when the ignored ones are known. */
    method ParseStruct(g: GoType) returns (ty: Ty)
      requires g.GStruct?
      modifies this
      ensures ty == TreeOf(g) && stype == old(stype) + Stream(ty)
      decreases g, 0, 0
    {
      hide Stream, TreeOf, Le16, Streams;
      ghost var was := stype;
      var num := |g.fields|;
      var _ := SetType(TOBJECT);
      var pos := |stype|;
      stype := stype + Le16(num);
      ghost var lead := stype;
      var info: seq<Ty> := [];
      var j := 0;
      NoStreams();
      for i := 0 to num
        invariant j == |info| && info + TreesOf(g, i) == TreesOf(g, 0)
        invariant stype == lead + Streams(info)
      {
        var skip := ShouldIgnore(g.fields[i]);
        if skip {
          continue;
        }
        ghost var before := stype;
        var t := DoParse(g.fields[i].ty, []);
        StreamsSnoc(info, t);
        assert before + [] + Stream(t) == lead + (Streams(info) + Stream(t));
        info := info + [t];
        j := j + 1;
      }
      PatchCount(was, num, j, Streams(info));
      UpdateCount(pos, j);
      ty := Obj(info);
      StructIs(g, info);
    }

    /** The patch replaces the count that was written first. */
    static lemma PatchCount(was: bytes, num: nat, n: nat, rest: bytes)
      ensures var s, pos := was + [TOBJECT] + Le16(num) + rest, |was| + 1;
        s[..pos] + Le16(n) + s[pos + 2..] == was + ([TOBJECT] + Le16(n) + rest)
    {
      hide Le16;
      var s, pos := was + [TOBJECT] + Le16(num) + rest, |was| + 1;
      assert s[..pos] == was + [TOBJECT] && s[pos + 2..] == rest;
    }

    static lemma StructIs(g: GoType, info: seq<Ty>)
      requires g.GStruct? && info == TreesOf(g, 0)
      ensures Obj(info) == TreeOf(g) && Stream(Obj(info)) == [TOBJECT] + Le16(|info|) + Streams(info)
    {
      StreamsAreFields(Obj(info), 0);
      assert info[0..] == info;
    }
  }

  /** Parse a type on a root of its own. */
  method Parse(g: GoType) returns (ty: Ty, stype: bytes)
    ensures ty == TreeOf(g) && stype == Stream(ty)
  {
    var root := new Root();
    ty := root.DoParse(g, []);
    stype := root.stype;
  }
}
