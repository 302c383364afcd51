/**
  Dumping bytes that nobody encoded for the type at hand: which are refused, which leave the
  destination as it is, which are waited for, and which Go does not survive.
 */
module Refusals {
  import opened Wire
  import opened Types
  import opened Codec
  import opened RoundTrip
  import opened Stability

  // ---------------------------------------------------------------- the first byte

  /** Without data nothing happens; a byte that is neither the tag nor its negative is refused. */
  lemma OtherTagsAreRefused(ty: Ty, s: bytes, dest: Val)
    ensures s == [] ==> Dump(ty, s, dest) == Out(Short, dest, [])
    ensures s != [] && !ty.Ptr? && s[0] != Tag(ty) && (s[0] as int + Tag(ty) as int) % 256 != 0 ==>
      Dump(ty, s, dest) == Out(Bad, dest, s[1..])
  {
  }

  /** Zeros all the way down; 0001-01-01T00:00:00Z is Go's zero time. */
  predicate Blank(ty: Ty, v: Val) {
    match ty
    case Base(tag) => v.VBase? && |v.raw| == SizeOf(tag) && forall i :: 0 <= i < |v.raw| ==> v.raw[i] == 0
    case Str => v == VStr([])
    case Time =>
      v == VTime([48, 48, 48, 49, 45, 48, 49, 45, 48, 49, 84, 48, 48, 58, 48, 48, 58, 48, 48, 90])
    case Obj(fields) =>
      v.VObj? && |v.fields| == |fields| && forall i :: 0 <= i < |fields| ==> Blank(fields[i], v.fields[i])
    case Array(elem, len) => v.VList? && |v.elems| == len && forall i :: 0 <= i < len ==> Blank(elem, v.elems[i])
    case _ => v == VNil
  }

  lemma {:induction false} ZeroIsBlank(ty: Ty, v: Val)
    ensures Blank(ty, v) <==> v == Zero(ty)
  {
    match ty
    case Base(_) =>
      if Blank(ty, v) { assert v.raw == Zero(ty).raw; }
    case Obj(fields) =>
      forall i | 0 <= i < |fields| ensures Blank(fields[i], Zero(fields[i])) {
        ZeroIsBlank(fields[i], Zero(fields[i]));
      }
      if Blank(ty, v) {
        forall i | 0 <= i < |fields| ensures v.fields[i] == Zero(ty).fields[i] {
          ZeroIsBlank(fields[i], v.fields[i]);
        }
        assert v.fields == Zero(ty).fields;
      }
    case Array(elem, len) =>
      ZeroIsBlank(elem, Zero(elem));
      if Blank(ty, v) {
        forall i | 0 <= i < len ensures v.elems[i] == Zero(ty).elems[i] {
          ZeroIsBlank(elem, v.elems[i]);
        }
        assert v.elems == Zero(ty).elems;
      }
    case _ =>
  }

  /** What a negative tag leaves of a destination: only what can be nil becomes so, an array becomes zeros. */
  predicate LeftBy(ty: Ty, dest: Val, v: Val) {
    if ty.Slice? || ty.Dict? then v == VNil else if ty.Array? then Blank(ty, v) else v == dest
  }

  lemma NegativeTagsSkip(ty: Ty, rest: bytes, dest: Val)
    requires WellFormed(ty) && !ty.Ptr?
    ensures var o := Dump(ty, [(256 - Tag(ty) as int) as byte] + rest, dest);
      o.st == Ok && o.rest == rest && LeftBy(ty, dest, o.val)
  {
    hide Zero, Blank;
    var s := [(256 - Tag(ty) as int) as byte] + rest;
    assert s[1..] == rest;
    ZeroIsBlank(ty, Zero(ty));
  }

  /** So a nil pointer to a base value, text, time or struct leaves such a destination as it is. */
  lemma NilPointersLeaveValues(ty: Ty, rest: bytes, dest: Val)
    requires WellFormed(ty) && (ty.Base? || ty.Str? || ty.Time? || ty.Obj?)
    ensures Dump(ty, Enc(Ptr(ty), VNil) + rest, dest) == Out(Ok, dest, rest)
  {
    NegativeTagsSkip(ty, rest, dest);
  }

  /** And a nil slice empties an array: every element is zeros. */
  lemma NilSlicesClearArrays(elem: Ty, len: nat, rest: bytes, dest: Val)
    requires WellFormed(Array(elem, len))
    ensures var o := Dump(Array(elem, len), Enc(Slice(elem), VNil) + rest, dest);
      o.st == Ok && o.rest == rest && o.val.VList? && |o.val.elems| == len
      && forall i :: 0 <= i < len ==> Blank(elem, o.val.elems[i])
  {
    hide Blank, Zero;
    NegativeTagsSkip(Array(elem, len), rest, dest);
    assert Blank(Array(elem, len), Zero(Array(elem, len))) by { ZeroIsBlank(Array(elem, len), Zero(Array(elem, len))); }
    BlankElems(elem, len, Dump(Array(elem, len), Enc(Slice(elem), VNil) + rest, dest).val);
  }

  lemma BlankElems(elem: Ty, len: nat, v: Val)
    requires Blank(Array(elem, len), v)
    ensures v.VList? && |v.elems| == len && forall i :: 0 <= i < len ==> Blank(elem, v.elems[i])
  {
  }

  /** A pointer is nil at the negated tag behind it; else it goes on with what it points to, or with zeros. */
  lemma PointersPassOn(ty: Ty, s: bytes, dest: Val)
    requires s != []
    ensures (s[0] as int + Tag(ty) as int) % 256 == 0 ==> Dump(Ptr(ty), s, dest) == Out(Ok, VNil, s[1..])
    ensures (s[0] as int + Tag(ty) as int) % 256 != 0 && dest.VPtr? ==>
      var o := Dump(ty, s, dest.target); Dump(Ptr(ty), s, dest) == Out(o.st, VPtr(o.val), o.rest)
    ensures (s[0] as int + Tag(ty) as int) % 256 != 0 && dest == VNil ==>
      var o := Dump(ty, s, Zero(ty)); Dump(Ptr(ty), s, dest) == Out(o.st, VPtr(o.val), o.rest)
  {
    hide DumpBody;
  }

  // ---------------------------------------------------------------- sizes and counts

  /** A container's fields are there, or waited for; nothing else can be wrong with them. */
  lemma SizesAreThere(s: bytes)
    ensures var z := CheckSize(s);
      if |s| >= 6 && Int32(s) <= |s| - 4 then z == Sizes(Ok, Int16(s[4..]), s[6..])
      else z == Sizes(Short, 0, if |s| < 4 then s else s[4..])
  {
  }

  /** A struct with another number of fields is refused. */
  lemma OtherCountsAreRefused(fields: seq<Ty>, s: bytes, dest: Val)
    requires CheckSize(s).st == Ok && CheckSize(s).count != |fields|
    ensures DumpBody(Obj(fields), s, dest) == Out(Bad, dest, CheckSize(s).rest)
  {
  }

  /** A negative count: a panic for a slice, none for an array, and no entries for a map. */
  lemma NegativeCounts(ty: Ty, s: bytes, dest: Val)
    requires CheckSize(s).st == Ok && CheckSize(s).count < 0
    ensures ty.Slice? && !ty.elem.Base? ==> DumpBody(ty, s, dest) == Out(Fault, dest, CheckSize(s).rest)
    ensures ty.Array? && !ty.elem.Base? && dest.VList? && |dest.elems| == ty.len ==>
      DumpBody(ty, s, dest) == Out(Ok, dest, CheckSize(s).rest)
    ensures ty.Dict? ==> DumpBody(ty, s, dest) == Out(Ok, VDict([]), CheckSize(s).rest)
  {
    hide CheckSize, Dump;
    if ty.Array? && !ty.elem.Base? && dest.VList? && |dest.elems| == ty.len {
      assert OldElems(ty, 0, dest) == dest.elems;
      assert DumpList(ty, s, dest) == DumpElems(ty, 0, CheckSize(s).rest, dest.elems, 0);
    }
  }

  /** A merged list must name its element tag; a negative count is a panic. */
  lemma MergedIsRefused(ty: Ty, s: bytes, dest: Val)
    requires ty.IsMerged()
    ensures s == [] ==> DumpBody(ty, s, dest) == Out(Short, dest, [])
    ensures s != [] && s[0] != ty.elem.tag ==> DumpBody(ty, s, dest) == Out(Bad, dest, s[1..])
    ensures s != [] && s[0] == ty.elem.tag && CheckSize(s[1..]).st == Short ==>
      DumpBody(ty, s, dest).st == Short && DumpBody(ty, s, dest).val == dest
    ensures s != [] && s[0] == ty.elem.tag && CheckSize(s[1..]).st == Ok && CheckSize(s[1..]).count < 0 ==>
      DumpBody(ty, s, dest) == Out(Fault, dest, CheckSize(s[1..]).rest)
  {
    hide CheckSize, Chunks, Total;
  }

  /** The elements of a short merged list are not read, nor refused: a destination as long stays as it is. */
  lemma ShortMergedIsIgnored(ty: Ty, s: bytes, dest: Val)
    requires ty.IsMerged() && ShortMerged(ty, s)
    requires dest.VList? && |dest.elems| == if ty.Slice? then CheckSize(s[1..]).count else ty.len
    ensures DumpBody(ty, s, dest) == Out(Ok, dest, CheckSize(s[1..]).rest)
  {
    hide CheckSize, Chunks, Total;
  }

  // ---------------------------------------------------------------- texts

  /** A negative length is a panic, a long one is waited for, and any other is that of the text. */
  lemma TextLengths(s: bytes, dest: Val)
    requires |s| >= 4
    ensures Int32(s) < 0 ==> DumpBody(Str, s, dest) == Out(Fault, dest, s[4..])
    ensures Int32(s) > |s| - 4 ==> DumpBody(Str, s, dest) == Out(Short, dest, s[4..])
    ensures 0 <= Int32(s) <= |s| - 4 ==>
      DumpBody(Str, s, dest) == Out(Ok, VStr(s[4..4 + Int32(s)]), s[4 + Int32(s)..])
  {
    hide Int32;
    var n, u := Int32(s), s[4..];
    if 0 <= n <= |u| {
      assert u[..n] == s[4..4 + n] && u[n..] == s[4 + n..];
    }
  }

  /** A time is a text with a tag of its own. */
  lemma TimesAreTexts(s: bytes, dest: Val)
    ensures s == [] ==> DumpBody(Time, s, dest).st == Short
    ensures s != [] && s[0] != 22 ==> DumpBody(Time, s, dest) == Out(Bad, dest, s[1..])
    ensures s != [] && s[0] == 22 ==>
      var o := DumpBody(Str, s[1..], dest);
      DumpBody(Time, s, dest) == Out(o.st, if o.st == Ok then VTime(o.val.text) else dest, o.rest)
  {
    hide Int32;
  }

  // ---------------------------------------------------------------- what failures leave

  /** What is written in one go is left as it was by every failure. */
  lemma FailuresLeave(ty: Ty, s: bytes, dest: Val)
    requires ty.Base? || ty.Str? || ty.Time? || ty.Dict? || ty.IsMerged()
    ensures DumpBody(ty, s, dest).st != Ok ==> DumpBody(ty, s, dest).val == dest
  {
    hide Dump, DumpPairs, Chunks, Total, CheckSize, DumpText;
  }

  /** The encodings of the fields from i to k. */
  function Saved(ty: Ty, vs: seq<Val>, i: nat, k: nat): bytes
    requires ty.Obj? && k <= |vs| == |ty.fields|
    decreases k - i
  {
    if i >= k then [] else Enc(ty.fields[i], vs[i]) + Saved(ty, vs, i + 1, k)
  }

  /** Fields are dumped in order up to the first that fails, and those behind it stay. */
  lemma {:induction false} FieldsUpToFailure(ty: Ty, vs: seq<Val>, i: nat, k: nat, w: bytes, cur: seq<Val>)
    requires ty.Obj? && WellFormed(ty) && HasType(ty, VObj(vs)) && Fits(VObj(vs)) && i <= k < |vs| == |cur|
    requires Dump(ty.fields[k], w, cur[k]).st != Ok
    ensures var o, f := DumpFields(ty, Saved(ty, vs, i, k) + w, cur, i), Dump(ty.fields[k], w, cur[k]);
      && o.st == f.st && o.rest == f.rest && o.val.VObj? && |o.val.fields| == |cur|
      && forall j :: 0 <= j < |cur| ==>
           o.val.fields[j] == if i <= j < k then Norm(ty.fields[j], vs[j]) else if j == k then f.val else cur[j]
    decreases k - i
  {
    hide Dump, Enc, Norm;
    if i == k {
      assert [] + w == w;
    } else {
      var tail := Saved(ty, vs, i + 1, k) + w;
      assert Saved(ty, vs, i, k) + w == Enc(ty.fields[i], vs[i]) + tail;
      Forward(ty.fields[i], vs[i], tail, cur[i]);
      FieldsUpToFailure(ty, vs, i + 1, k, w, cur[i := Norm(ty.fields[i], vs[i])]);
    }
  }

  /** The encodings of the elements from i to k. */
  function SavedElems(elem: Ty, vs: seq<Val>, i: nat, k: nat): bytes
    requires k <= |vs|
    decreases k - i
  {
    if i >= k then [] else Enc(elem, vs[i]) + SavedElems(elem, vs, i + 1, k)
  }

  /** So are elements: those ahead of the failure come out, and what the failing one got stays. */
  lemma {:induction false} ElementsUpToFailure(
      ty: Ty, vs: seq<Val>, n: nat, i: nat, k: nat, w: bytes, cur: seq<Val>)
    requires ty.IsList() && WellFormed(ty.elem) && !ty.elem.Slice?
    requires i <= k < n && k <= |vs| && k < |cur|
    requires forall j :: i <= j < k ==> HasType(ty.elem, vs[j]) && Fits(vs[j])
    requires Dump(ty.elem, w, cur[k]).st != Ok
    ensures var o := DumpElems(ty, n, SavedElems(ty.elem, vs, i, k) + w, cur, i);
      var f := Dump(ty.elem, w, cur[k]);
      && o.st == f.st && o.rest == f.rest && o.val.VList? && |o.val.elems| == |cur|
      && forall j :: 0 <= j < |cur| ==>
           o.val.elems[j] == if i <= j < k then Norm(ty.elem, vs[j]) else if j == k then f.val else cur[j]
    decreases k - i
  {
    hide Dump, Enc, Norm;
    if i == k {
      assert [] + w == w;
    } else {
      var tail := SavedElems(ty.elem, vs, i + 1, k) + w;
      assert SavedElems(ty.elem, vs, i, k) + w == Enc(ty.elem, vs[i]) + tail;
      Forward(ty.elem, vs[i], tail, cur[i]);
      ElementsUpToFailure(ty, vs, n, i + 1, k, w, cur[i := Norm(ty.elem, vs[i])]);
    }
  }

  // ---------------------------------------------------------------- what stays in place

  /** n copies of a byte. */
  function Copies(c: byte, n: nat): bytes {
    seq(n, _ => c)
  }

  /**
    Elements that are all skipped stay what the destination had: a slice with enough of them
    is cut to the count, one with fewer is replaced by zeros.
   */
  lemma SkippedElements(fields: seq<Ty>, n: nat, rest: bytes, ds: seq<Val>)
    requires n <= MAX16
    ensures var elem := Obj(fields);
      DumpList(Slice(elem), Container(n, Copies(229, n)) + rest, VList(ds))
        == Out(Ok, VList(if |ds| >= n then ds[..n] else seq(n, _ => Zero(elem))), rest)
  {
    hide DumpElems, CheckSize, Wrap16, Container, Zero;
    var ty := Slice(Obj(fields));
    ContainerRead(n, Copies(229, n), rest);
    SurvivesField(n);
    var cur := OldElems(ty, n, VList(ds));
    assert cur == if |ds| >= n then ds[..n] else seq(n, _ => Zero(Obj(fields)));
    SkipElems(ty, n, 0, rest, cur);
  }

  lemma {:induction false} SkipElems(ty: Ty, n: nat, i: nat, rest: bytes, cur: seq<Val>)
    requires ty.IsList() && ty.elem.Obj? && i <= n == |cur|
    ensures DumpElems(ty, n, Copies(229, n - i) + rest, cur, i) == Out(Ok, VList(cur), rest)
    decreases n - i
  {
    hide DumpBody;
    if i < n {
      var s := Copies(229, n - i) + rest;
      assert s[1..] == Copies(229, n - i - 1) + rest;
      assert cur[i := cur[i]] == cur;
      SkipElems(ty, n, i + 1, rest, cur);
    } else {
      assert Copies(229, 0) + rest == rest;
    }
  }

  /** Fields that are all skipped stay as they were, or are zeros where there was no struct. */
  lemma SkippedFields(n: nat, rest: bytes, dest: Val)
    requires n <= MAX16
    ensures var ty := Obj(seq(n, _ => Str));
      && (dest.VObj? && |dest.fields| == n ==>
            DumpBody(ty, Container(n, Copies(234, n)) + rest, dest) == Out(Ok, dest, rest))
      && (!dest.VObj? ==>
            DumpBody(ty, Container(n, Copies(234, n)) + rest, dest) == Out(Ok, VObj(seq(n, _ => VStr([]))), rest))
  {
    hide DumpFields, CheckSize, Wrap16, Container;
    var ty := Obj(seq(n, _ => Str));
    ContainerRead(n, Copies(234, n), rest);
    SurvivesField(n);
    SkipFields(ty, n, 0, rest, OldFields(ty, dest));
    assert Zero(ty).fields == seq(n, _ => VStr([]));
  }

  lemma {:induction false} SkipFields(ty: Ty, n: nat, i: nat, rest: bytes, cur: seq<Val>)
    requires ty.Obj? && |ty.fields| == n && (forall j :: 0 <= j < n ==> ty.fields[j] == Str) && i <= n == |cur|
    ensures DumpFields(ty, Copies(234, n - i) + rest, cur, i) == Out(Ok, VObj(cur), rest)
    decreases n - i
  {
    hide DumpBody;
    if i < n {
      var s := Copies(234, n - i) + rest;
      assert s[1..] == Copies(234, n - i - 1) + rest;
      assert cur[i := cur[i]] == cur;
      SkipFields(ty, n, i + 1, rest, cur);
    } else {
      assert Copies(234, 0) + rest == rest;
    }
  }

  // ---------------------------------------------------------------- entries of maps

  /** Entries must come with their tags, and a map that fails is not assigned. */
  lemma EntryTags(ty: Ty, n: int, s: bytes, es: seq<Pair>)
    requires ty.Dict? && n > 0
    ensures s == [] ==> DumpPairs(ty, n, s, es).st == Short
    ensures s != [] && s[0] != 29 ==> DumpPairs(ty, n, s, es).st == Bad && DumpPairs(ty, n, s, es).rest == s[1..]
    ensures s != [] && s[0] == 29 ==>
      var k := Dump(ty.key, s[1..], Zero(ty.key));
      && (k.st != Ok ==> DumpPairs(ty, n, s, es).st == k.st)
      && (k.st == Ok && k.rest == [] ==> DumpPairs(ty, n, s, es).st == Short)
      && (k.st == Ok && k.rest != [] && k.rest[0] != 30 ==> DumpPairs(ty, n, s, es).st == Bad)
  {
    hide Dump;
  }

  /** A key that is there already keeps its place and gets the new value. */
  lemma {:induction false} PutReplaces(es: seq<Pair>, i: nat, k: Val, v: Val)
    requires i < |es| && es[i].k == k && forall j :: 0 <= j < i ==> es[j].k != k
    ensures DictPut(es, k, v) == es[i := Pair(k, v)]
  {
    if i > 0 {
      PutReplaces(es[1..], i - 1, k, v);
      assert es[i := Pair(k, v)] == [es[0]] + es[1..][i - 1 := Pair(k, v)];
    }
  }

  /** The entries of a map once the first n have been assigned, one after the other. */
  function Entered(ty: Ty, es: seq<Pair>, n: nat): seq<Pair>
    requires ty.Dict? && n <= |es|
  {
    if n == 0 then [] else DictPut(Entered(ty, es, n - 1), es[n - 1].k, Norm(ty.value, es[n - 1].v))
  }

  /** Entries that can be saved, with repeated keys or not. */
  predicate EntriesTyped(ty: Ty, es: seq<Pair>)
    requires ty.Dict?
  {
    forall i :: 0 <= i < |es| ==>
      HasType(ty.key, es[i].k) && HasType(ty.value, es[i].v) && Fits(es[i].k) && Fits(es[i].v)
  }

  /** They are all assigned in order, repeated keys included. */
  lemma {:induction false} EntriesAreEntered(ty: Ty, es: seq<Pair>, i: nat, rest: bytes)
    requires ty.Dict? && WellFormed(ty) && EntriesTyped(ty, es) && i <= |es|
    ensures DumpPairs(ty, |es| - i, EncPairs(ty, es, i) + rest, Entered(ty, es, i))
      == Out(Ok, VDict(Entered(ty, es, |es|)), rest)
    decreases |es| - i
  {
    hide Dump, EncPairs, HasType, Fits, Norm, DictPut, WellFormed;
    if i == |es| {
      NoneLeft(ty, es, rest);
    } else {
      EntryFits(ty, es, i, rest);
      EntriesAreEntered(ty, es, i + 1, rest);
    }
  }

  lemma NoneLeft(ty: Ty, es: seq<Pair>, rest: bytes)
    requires ty.Dict?
    ensures EncPairs(ty, es, |es|) + rest == rest
  {
  }

  /** One assignment: the key has the value, other entries are what they were, and no key is there twice. */
  lemma {:induction false} PutKeeps(was: seq<Pair>, k: Val, v: Val)
    requires DistinctKeys(was)
    ensures var m := DictPut(was, k, v);
      && DistinctKeys(m) && Pair(k, v) in m
      && (forall e :: e in was && e.k != k ==> e in m)
      && (forall e :: e in m ==> e == Pair(k, v) || (e in was && e.k != k))
  {
    hide DictPut;
    if p :| 0 <= p < |was| && was[p].k == k {
      PutReplaces(was, p, k, v);
      var m := was[p := Pair(k, v)];
      assert m[p] == Pair(k, v);
      forall e | e in was && e.k != k ensures e in m {
        var i :| 0 <= i < |was| && was[i] == e;
        assert m[i] == e;
      }
    } else {
      PutFresh(was, k, v);
    }
  }

  /** Every key is there once, with the value that was assigned last. */
  lemma {:induction false} LastAssigned(ty: Ty, es: seq<Pair>, n: nat)
    requires ty.Dict? && n <= |es|
    ensures var m := Entered(ty, es, n);
      && DistinctKeys(m)
      && (forall e :: e in m ==> exists i :: 0 <= i < n && es[i].k == e.k)
      && (forall i :: 0 <= i < n && (forall l :: i < l < n ==> es[l].k != es[i].k) ==>
            Pair(es[i].k, Norm(ty.value, es[i].v)) in m)
  {
    hide Norm, DictPut, DistinctKeys;
    if n == 0 {
      NoKeys();
    } else {
      LastAssigned(ty, es, n - 1);
      PutKeeps(Entered(ty, es, n - 1), es[n - 1].k, Norm(ty.value, es[n - 1].v));
      forall i | 0 <= i < n && (forall l :: i < l < n ==> es[l].k != es[i].k)
        ensures Pair(es[i].k, Norm(ty.value, es[i].v)) in Entered(ty, es, n)
      {
        if i < n - 1 {
          assert es[n - 1].k != es[i].k;
          assert Pair(es[i].k, Norm(ty.value, es[i].v)) in Entered(ty, es, n - 1);
        }
      }
    }
  }

  lemma NoKeys()
    ensures DistinctKeys([])
  {
  }
}
