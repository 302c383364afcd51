/**
  The converse of the forward direction: a value with a count above an int16 or a text
  above an int32 never comes back, so the round trip holds exactly for what fits.
 */
module Exactness {
  import opened Wire
  import opened Types
  import opened Codec
  import opened RoundTrip

  /** A dump went wrong: it failed or gave another value. */
  predicate Misses(o: Out, v: Val) {
    o.st != Ok || o.val != v
  }

  // ---------------------------------------------------------------- what loops keep

  lemma {:induction false} FieldsKeep(ty: Ty, s: bytes, cur: seq<Val>, i: nat)
    requires ty.Obj? && |cur| == |ty.fields|
    ensures var o := DumpFields(ty, s, cur, i);
      o.val.VObj? && |o.val.fields| == |cur| && forall j :: 0 <= j < i && j < |cur| ==> o.val.fields[j] == cur[j]
    decreases |ty.fields| - i
  {
    hide Dump;
    if i < |ty.fields| {
      var o := Dump(ty.fields[i], s, cur[i]);
      if o.st == Ok {
        FieldsKeep(ty, o.rest, cur[i := o.val], i + 1);
      }
    }
  }

  lemma {:induction false} ElemsKeep(ty: Ty, n: nat, s: bytes, cur: seq<Val>, i: nat)
    requires ty.IsList()
    ensures var o := DumpElems(ty, n, s, cur, i);
      o.val.VList? && |o.val.elems| == |cur|
      && (!ty.elem.Slice? ==> forall j :: 0 <= j < i && j < |cur| ==> o.val.elems[j] == cur[j])
    decreases n - i
  {
    hide Dump;
    var j := StrideIndex(ty.elem, i);
    if i < n && j < |cur| {
      var o := Dump(ty.elem, s, cur[j]);
      if o.st == Ok {
        ElemsKeep(ty, n, o.rest, cur[j := o.val], i + 1);
      }
    }
  }

  lemma {:induction false} PutGrows(es: seq<Pair>, k: Val, v: Val)
    ensures |es| <= |DictPut(es, k, v)| <= |es| + 1
    ensures |DictPut(es, k, v)| == |es| + 1 ==> DictPut(es, k, v) == es + [Pair(k, v)]
  {
    if es != [] && es[0].k != k {
      PutGrows(es[1..], k, v);
      assert es + [Pair(k, v)] == [es[0]] + (es[1..] + [Pair(k, v)]);
    }
  }

  /** A map grows by at most one entry a round, and only at its end. */
  lemma {:induction false} PairsKeep(ty: Ty, n: int, s: bytes, es: seq<Pair>)
    requires ty.Dict?
    ensures var o := DumpPairs(ty, n, s, es);
      o.val.VDict? && |o.val.entries| <= |es| + (if n > 0 then n else 0)
      && (n >= 0 && |o.val.entries| == |es| + n ==> o.st == Ok ==> es <= o.val.entries)
    decreases n
  {
    hide Dump;
    if n > 0 && |s| > 0 && s[0] == TDICTK {
      var k := Dump(ty.key, s[1..], Zero(ty.key));
      if k.st == Ok && |k.rest| > 0 && k.rest[0] == TDICTV {
        var v := Dump(ty.value, k.rest[1..], Zero(ty.value));
        if v.st == Ok {
          PutGrows(es, k.val, v.val);
          PairsKeep(ty, n - 1, v.rest, DictPut(es, k.val, v.val));
        }
      }
    }
  }

  // ---------------------------------------------------------------- backward

  lemma {:induction false} NilFits(ty: Ty, v: Val)
    requires HasType(ty, v) && Norm(ty, v) == VNil
    ensures Fits(v)
  {
    if ty.Ptr? && v.VPtr? {
      NilFits(ty.target, v.target);
    }
  }

  /** What does not fit does not come back. */
  lemma {:induction false} Backward(ty: Ty, v: Val, rest: bytes, dest: Val)
    requires WellFormed(ty) && HasType(ty, v) && !Fits(v)
    ensures Misses(Dump(ty, Enc(ty, v) + rest, dest), Norm(ty, v))
    decreases ty, 1, 0
  {
    FirstByte(ty, v);
    var s := Enc(ty, v) + rest;
    assert s[0] == Enc(ty, v)[0];
    if ty.Ptr? {
      if Norm(ty, v) == VNil {
        NilFits(ty, v);
      } else {
        Backward(ty.target, v.target, rest, if dest.VPtr? then dest.target else Zero(ty.target));
      }
    } else {
      assert s[1..] == Enc(ty, v)[1..] + rest;
      assert Tag(ty) != Neg(Tag(ty));
      BackwardBody(ty, v, rest, dest);
    }
  }

  lemma {:induction false} BackwardBody(ty: Ty, v: Val, rest: bytes, dest: Val)
    requires WellFormed(ty) && HasType(ty, v) && !Fits(v) && !ty.Ptr?
    ensures |Enc(ty, v)| > 0
    ensures Misses(DumpBody(ty, Enc(ty, v)[1..] + rest, dest), Norm(ty, v))
    decreases ty, 0, 0x2_0000
  {
    match ty
    case Base(_) =>
    case Str =>
      assert Enc(ty, v)[1..] + rest == Text(v.text) + rest;
      TextRead(v.text, rest);
    case Time =>
      var s := Enc(ty, v)[1..] + rest;
      assert s == [TSTRING] + (Text(v.text) + rest);
      assert s[1..] == Text(v.text) + rest;
      TextRead(v.text, rest);
    case Obj(_) => BackwardObj(ty, v.fields, rest, dest);
    case Slice(elem) =>
      if elem.Base? { BackwardMerged(ty, v.elems, rest, dest); } else { BackwardList(ty, v.elems, rest, dest); }
    case Array(elem, _) =>
      if elem.Base? { BackwardMerged(ty, v.elems, rest, dest); } else { BackwardList(ty, v.elems, rest, dest); }
    case Dict(_, _) => BackwardDict(ty, v.entries, rest, dest);
  }

  lemma {:induction false} BackwardObj(ty: Ty, vs: seq<Val>, rest: bytes, dest: Val)
    requires ty.Obj? && WellFormed(ty) && HasType(ty, VObj(vs)) && !Fits(VObj(vs))
    ensures |Enc(ty, VObj(vs))| > 0
    ensures Misses(DumpBody(ty, Enc(ty, VObj(vs))[1..] + rest, dest), Norm(ty, VObj(vs)))
    decreases ty, 0, 0x1_0000
  {
    hide Enc, EncFields, DumpFields, CheckSize, Wrap16;
    ObjRead(ty, vs, rest);
    SurvivesField(|vs|);
    var bad :| 0 <= bad < |vs| && !Fits(vs[bad]);
    BackwardFields(ty, vs, 0, bad, rest, OldFields(ty, dest));
  }

  lemma {:induction false} BackwardFields(ty: Ty, vs: seq<Val>, i: nat, bad: nat, rest: bytes, cur: seq<Val>)
    requires ty.Obj? && WellFormed(ty) && HasType(ty, VObj(vs))
    requires |ty.fields| == |cur| && i <= bad < |vs| && !Fits(vs[bad])
    ensures Misses(DumpFields(ty, EncFields(ty, vs, i) + rest, cur, i), Norm(ty, VObj(vs)))
    decreases ty, 0, |ty.fields| - i
  {
    hide Dump, Enc;
    var tail := EncFields(ty, vs, i + 1) + rest;
    var s := EncFields(ty, vs, i) + rest;
    assert s == Enc(ty.fields[i], vs[i]) + tail;
    var o := Dump(ty.fields[i], s, cur[i]);
    if Fits(vs[i]) {
      Forward(ty.fields[i], vs[i], tail, cur[i]);
      BackwardFields(ty, vs, i + 1, bad, rest, cur[i := o.val]);
    } else {
      Backward(ty.fields[i], vs[i], tail, cur[i]);
      if o.st == Ok {
        FieldsKeep(ty, o.rest, cur[i := o.val], i + 1);
        assert DumpFields(ty, s, cur, i).val.fields[i] != Norm(ty, VObj(vs)).fields[i];
      }
    }
  }

  lemma {:induction false} BackwardList(ty: Ty, vs: seq<Val>, rest: bytes, dest: Val)
    requires ty.IsList() && !ty.elem.Base? && WellFormed(ty) && HasType(ty, VList(vs)) && !Fits(VList(vs))
    ensures |Enc(ty, VList(vs))| > 0
    ensures Misses(DumpList(ty, Enc(ty, VList(vs))[1..] + rest, dest), Norm(ty, VList(vs)))
    decreases ty, 0, 0x1_0000
  {
    hide Enc, EncElems, DumpElems, CheckSize, Wrap16, Dump;
    ListRead(ty, vs, rest);
    SurvivesField(|vs|);
    var n := Wrap16(|vs|);
    if n == |vs| {
      var bad :| 0 <= bad < |vs| && !Fits(vs[bad]);
      BackwardElems(ty, vs, 0, bad, rest, OldElems(ty, n, dest));
    } else if n >= 0 {
      ElemsKeep(ty, n, EncElems(ty, vs, 0) + rest, OldElems(ty, n, dest), 0);
      assert |NormAll(ty.elem, vs)| == |vs|;
    }
  }

  lemma {:induction false} BackwardElems(ty: Ty, vs: seq<Val>, i: nat, bad: nat, rest: bytes, cur: seq<Val>)
    requires ty.IsList() && !ty.elem.Base? && WellFormed(ty) && HasType(ty, VList(vs))
    requires |vs| == |cur| && i <= bad < |vs| && !Fits(vs[bad])
    ensures Misses(DumpElems(ty, |vs|, EncElems(ty, vs, i) + rest, cur, i), Norm(ty, VList(vs)))
    decreases ty, 0, |vs| - i
  {
    hide Dump, Enc;
    var tail := EncElems(ty, vs, i + 1) + rest;
    var s := EncElems(ty, vs, i) + rest;
    assert s == Enc(ty.elem, vs[i]) + tail;
    assert StrideIndex(ty.elem, i) == i;
    var o := Dump(ty.elem, s, cur[i]);
    if Fits(vs[i]) {
      Forward(ty.elem, vs[i], tail, cur[i]);
      BackwardElems(ty, vs, i + 1, bad, rest, cur[i := o.val]);
    } else {
      Backward(ty.elem, vs[i], tail, cur[i]);
      WrongElem(ty, vs, i, s, cur);
    }
  }

  /** One wrong element is still there at the end. */
  lemma {:induction false} WrongElem(ty: Ty, vs: seq<Val>, i: nat, s: bytes, cur: seq<Val>)
    requires ty.IsList() && !ty.elem.Slice? && i < |vs| == |cur|
    requires Misses(Dump(ty.elem, s, cur[i]), Norm(ty.elem, vs[i]))
    ensures Misses(DumpElems(ty, |vs|, s, cur, i), Norm(ty, VList(vs)))
  {
    hide Dump;
    var o := Dump(ty.elem, s, cur[i]);
    assert Norm(ty, VList(vs)) == VList(NormAll(ty.elem, vs));
    assert NormAll(ty.elem, vs)[i] == Norm(ty.elem, vs[i]);
    if o.st == Ok {
      ElemsKeep(ty, |vs|, o.rest, cur[i := o.val], i + 1);
    }
  }

  lemma MergedElemsFit(ty: Ty, vs: seq<Val>)
    requires ty.IsMerged() && HasType(ty, VList(vs))
    ensures Fits(VList(vs)) <==> |vs| <= MAX16
  {
  }

  lemma {:induction false} BackwardMerged(ty: Ty, vs: seq<Val>, rest: bytes, dest: Val)
    requires ty.IsMerged() && WellFormed(ty) && HasType(ty, VList(vs)) && !Fits(VList(vs))
    ensures Misses(DumpMerged(ty, Enc(ty, VList(vs))[1..] + rest, dest), Norm(ty, VList(vs)))
  {
    MergedElemsFit(ty, vs);
    MergedRead(ty, vs, rest);
    SurvivesField(|vs|);
    assert |Norm(ty, VList(vs)).elems| == |vs|;
    MergedLength(ty, Enc(ty, VList(vs))[1..] + rest, dest);
  }

  lemma MergedLength(ty: Ty, s: bytes, dest: Val)
    requires ty.IsMerged() && ty.Slice?
    ensures var o := DumpMerged(ty, s, dest);
      o.st == Ok ==> |s| > 0 && o.val.VList? && |o.val.elems| == CheckSize(s[1..]).count
  {
  }

  lemma {:induction false} BackwardDict(ty: Ty, es: seq<Pair>, rest: bytes, dest: Val)
    requires ty.Dict? && WellFormed(ty) && HasType(ty, VDict(es)) && !Fits(VDict(es))
    ensures |Enc(ty, VDict(es))| > 0
    ensures Misses(DumpBody(ty, Enc(ty, VDict(es))[1..] + rest, dest), Norm(ty, VDict(es)))
    decreases ty, 0, 0x1_0000
  {
    hide Enc, EncPairs, DumpPairs, CheckSize, Wrap16, Dump, DumpBody, Norm, WellFormed;
    DictRead(ty, es, rest);
    var u := EncPairs(ty, es, 0) + rest;
    SurvivesField(|es|);
    DictSteps(ty, Enc(ty, VDict(es))[1..] + rest, dest, Wrap16(|es|), u);
    NormDictSize(ty, es);
    if Wrap16(|es|) == |es| {
      var bad :| 0 <= bad < |es| && !(Fits(es[bad].k) && Fits(es[bad].v));
      BackwardPairs(ty, es, 0, bad, rest, []);
    } else {
      WrapAtMost(|es|);
      PairsKeep(ty, Wrap16(|es|), u, []);
    }
  }

  lemma NormDictSize(ty: Ty, es: seq<Pair>)
    requires ty.Dict?
    ensures Norm(ty, VDict(es)).VDict? && |Norm(ty, VDict(es)).entries| == |es|
  {
  }

  lemma DictSteps(ty: Ty, s: bytes, dest: Val, n: int, u: bytes)
    requires ty.Dict? && CheckSize(s) == Sizes(Ok, n, u)
    ensures var p := DumpPairs(ty, n, u, []);
      DumpBody(ty, s, dest) == Out(p.st, if p.st == Ok then p.val else dest, p.rest)
  {
  }

  lemma {:induction false} BackwardPairs(ty: Ty, es: seq<Pair>, i: nat, bad: nat, rest: bytes, acc: seq<Pair>)
    requires ty.Dict? && WellFormed(ty) && HasType(ty, VDict(es))
    requires i <= bad < |es| && !(Fits(es[bad].k) && Fits(es[bad].v))
    requires |acc| == i && forall j :: 0 <= j < i ==> acc[j].k == es[j].k
    ensures Misses(DumpPairs(ty, |es| - i, EncPairs(ty, es, i) + rest, acc), Norm(ty, VDict(es)))
    decreases ty, 0, |es| - i
  {
    hide Dump, MapEnc, DumpPairs, Norm, EncPairs, HasType, WellFormed, Fits;
    EntryTyped(ty, es, i);
    var s := EncPairs(ty, es, i) + rest;
    var e := es[i];
    if Fits(e.k) && Fits(e.v) {
      var p := Pair(e.k, Norm(ty.value, e.v));
      EntryFits(ty, es, i, rest);
      PairsStep(ty, |es| - i, s, acc, p, EncPairs(ty, es, i + 1) + rest);
      BackwardPairs(ty, es, i + 1, bad, rest, acc + [p]);
    } else {
      EntryMisses(ty, es, i, rest);
      WrongEntry(ty, es, i, s, acc);
    }
  }

  lemma {:induction false} EntryMisses(ty: Ty, es: seq<Pair>, i: nat, rest: bytes)
    requires ty.Dict? && WellFormed(ty) && i < |es|
    requires HasType(ty.key, es[i].k) && HasType(ty.value, es[i].v) && !(Fits(es[i].k) && Fits(es[i].v))
    ensures var s := EncPairs(ty, es, i) + rest;
      |s| > 0 && s[0] == TDICTK
      && var k := Dump(ty.key, s[1..], Zero(ty.key));
         (Misses(k, es[i].k) || |k.rest| == 0 || k.rest[0] != TDICTV
          || Misses(Dump(ty.value, k.rest[1..], Zero(ty.value)), Norm(ty.value, es[i].v)))
    decreases ty, 0, 0
  {
    hide DumpPairs, EncPairs, HasType, Fits, Norm, Dump, Enc, MapEnc;
    var tail := EncPairs(ty, es, i + 1) + rest;
    var vtail := [TDICTV] + (MapEnc(ty.value, es[i].v) + tail);
    EntrySplit(ty, es, i, rest);
    EncodersAgree(ty.key, es[i].k);
    EncodersAgree(ty.value, es[i].v);
    KeyNorm(ty.key, es[i].k);
    if Fits(es[i].k) {
      Forward(ty.key, es[i].k, vtail, Zero(ty.key));
      Backward(ty.value, es[i].v, tail, Zero(ty.value));
    } else {
      Backward(ty.key, es[i].k, vtail, Zero(ty.key));
    }
  }

  /** One wrong key or value is still there at the end, or the map ends up too small. */
  lemma {:induction false} WrongEntry(ty: Ty, es: seq<Pair>, i: nat, s: bytes, acc: seq<Pair>)
    requires ty.Dict? && i < |es| && |acc| == i && |s| > 0 && s[0] == TDICTK
    requires var k := Dump(ty.key, s[1..], Zero(ty.key));
      Misses(k, es[i].k) || |k.rest| == 0 || k.rest[0] != TDICTV
      || Misses(Dump(ty.value, k.rest[1..], Zero(ty.value)), Norm(ty.value, es[i].v))
    ensures Misses(DumpPairs(ty, |es| - i, s, acc), Norm(ty, VDict(es)))
  {
    var k := Dump(ty.key, s[1..], Zero(ty.key));
    var final := Norm(ty, VDict(es)).entries;
    assert final[i] == Pair(es[i].k, Norm(ty.value, es[i].v)) && |final| == |es|;
    if k.st == Ok && |k.rest| > 0 && k.rest[0] == TDICTV {
      var v := Dump(ty.value, k.rest[1..], Zero(ty.value));
      if v.st == Ok {
        var acc' := DictPut(acc, k.val, v.val);
        PutGrows(acc, k.val, v.val);
        PairsKeep(ty, |es| - i - 1, v.rest, acc');
        assert |acc'| == i + 1 ==> acc'[i] == Pair(k.val, v.val);
      }
    }
  }

  // ---------------------------------------------------------------- the theorem

  /**
    The round trip, in front of any bytes and over any destination: an encoding is read
    to its exact end and gives the normalised value if and only if the value fits.
   */
  lemma RoundTripExactly(ty: Ty, v: Val, rest: bytes, dest: Val)
    requires WellFormed(ty) && HasType(ty, v)
    ensures Fits(v) <==> Dump(ty, Enc(ty, v) + rest, dest) == Out(Ok, Norm(ty, v), rest)
  {
    if Fits(v) {
      Forward(ty, v, rest, dest);
    } else {
      Backward(ty, v, rest, dest);
    }
  }
}
