/**
  Encodings delimit themselves: none is the start of another, each says where it ends, and
  a part of one is always taken for a part.
 */
module Incremental {
  import opened Wire
  import opened Types
  import opened Codec
  import opened RoundTrip
  import opened Exactness

  // ---------------------------------------------------------------- self-delimiting

  /** Equal encodings are encodings of equal normalised values, also in front of other bytes. */
  lemma SelfDelimiting(ty: Ty, v1: Val, v2: Val, rest1: bytes, rest2: bytes)
    requires WellFormed(ty) && HasType(ty, v1) && HasType(ty, v2) && Fits(v1) && Fits(v2)
    ensures Enc(ty, v1) + rest1 == Enc(ty, v2) + rest2 <==> Norm(ty, v1) == Norm(ty, v2) && rest1 == rest2
  {
    Forward(ty, v1, rest1, Zero(ty));
    Forward(ty, v2, rest2, Zero(ty));
    EncOfNorm(ty, v1);
    EncOfNorm(ty, v2);
  }

  /** Normalising does not change the encoding. */
  lemma {:induction false} EncOfNorm(ty: Ty, v: Val)
    requires WellFormed(ty) && HasType(ty, v)
    ensures Enc(ty, Norm(ty, v)) == Enc(ty, v)
    decreases ty, 1, 0
  {
    match ty
    case Obj(fields) => EncOfNormFields(ty, v.fields, 0);
    case Slice(elem) => if v.VList? { EncOfNormList(ty, v.elems); }
    case Array(elem, _) => EncOfNormList(ty, v.elems);
    case Dict(_, _) => if v.VDict? { EncOfNormPairs(ty, v.entries, 0); }
    case Ptr(target) =>
      FirstByte(ty, v);
      if Norm(ty, v) == VNil {
        ForwardNil(ty, v);
      } else {
        EncOfNorm(target, v.target);
      }
    case _ =>
  }

  lemma {:induction false} EncOfNormFields(ty: Ty, vs: seq<Val>, i: nat)
    requires ty.Obj? && WellFormed(ty) && HasType(ty, VObj(vs)) && i <= |vs|
    ensures EncFields(ty, Norm(ty, VObj(vs)).fields, i) == EncFields(ty, vs, i)
    decreases ty, 0, |vs| - i
  {
    if i < |vs| {
      EncOfNorm(ty.fields[i], vs[i]);
      EncOfNormFields(ty, vs, i + 1);
    }
  }

  lemma {:induction false} EncOfNormList(ty: Ty, vs: seq<Val>)
    requires ty.IsList() && WellFormed(ty) && HasType(ty, VList(vs))
    ensures Enc(ty, Norm(ty, VList(vs))) == Enc(ty, VList(vs))
    decreases ty, 0, 0x1_0000 + |vs|
  {
    if ty.elem.Base? {
      NormBase(ty.elem, vs);
    } else {
      EncOfNormElems(ty, vs, 0);
    }
  }

  lemma {:induction false} EncOfNormElems(ty: Ty, vs: seq<Val>, i: nat)
    requires ty.IsList() && WellFormed(ty) && HasType(ty, VList(vs)) && i <= |vs|
    ensures EncElems(ty, NormAll(ty.elem, vs), i) == EncElems(ty, vs, i)
    decreases ty, 0, |vs| - i
  {
    if i < |vs| {
      EncOfNorm(ty.elem, vs[i]);
      EncOfNormElems(ty, vs, i + 1);
    }
  }

  lemma {:induction false} EncOfNormPairs(ty: Ty, es: seq<Pair>, i: nat)
    requires ty.Dict? && WellFormed(ty) && HasType(ty, VDict(es)) && i <= |es|
    ensures EncPairs(ty, Norm(ty, VDict(es)).entries, i) == EncPairs(ty, es, i)
    decreases ty, 0, |es| - i
  {
    if i < |es| {
      var w := Norm(ty.value, es[i].v);
      EncOfNorm(ty.value, es[i].v);
      NormHasType(ty.value, es[i].v);
      EncodersAgree(ty.value, es[i].v);
      EncodersAgree(ty.value, w);
      EncOfNormPairs(ty, es, i + 1);
    }
  }

  lemma {:induction false} NormHasType(ty: Ty, v: Val)
    requires WellFormed(ty) && HasType(ty, v)
    ensures HasType(ty, Norm(ty, v))
  {
    match ty
    case Obj(fields) =>
      forall i | 0 <= i < |fields| ensures HasType(fields[i], Norm(ty, v).fields[i]) {
        NormHasType(fields[i], v.fields[i]);
      }
    case Slice(elem) =>
      if v.VList? {
        assert |Norm(ty, v).elems| == |v.elems|;
        forall i | 0 <= i < |v.elems| ensures HasType(elem, Norm(ty, v).elems[i]) {
          NormHasType(elem, v.elems[i]);
        }
      }
    case Array(elem, _) =>
      assert |Norm(ty, v).elems| == |v.elems|;
      forall i | 0 <= i < |v.elems| ensures HasType(elem, Norm(ty, v).elems[i]) {
        NormHasType(elem, v.elems[i]);
      }
    case Dict(_, value) =>
      if v.VDict? {
        forall i | 0 <= i < |v.entries| ensures HasType(value, Norm(ty, v).entries[i].v) {
          NormHasType(value, v.entries[i].v);
        }
      }
    case Ptr(target) => if v.VPtr? { NormHasType(target, v.target); }
    case _ =>
  }

  /** Every strict prefix of an encoding is reported as too short, never as anything else. */
  lemma {:induction false} PrefixIsShort(ty: Ty, v: Val, k: nat, dest: Val)
    requires WellFormed(ty) && HasType(ty, v)
    requires k < |Enc(ty, v)| <= LIMIT32
    ensures Dump(ty, Enc(ty, v)[..k], dest).st == Short
  {
    FirstByte(ty, v);
    var e := Enc(ty, v);
    var s := e[..k];
    if k == 0 {
    } else if ty.Ptr? {
      if Norm(ty, v) == VNil {
        ForwardNil(ty, v);
      } else {
        PrefixIsShort(ty.target, v.target, k, if dest.VPtr? then dest.target else Zero(ty.target));
      }
    } else if !v.VNil? {
      assert s[1..] == e[1..][..k - 1];
      assert Tag(ty) != Neg(Tag(ty));
      PrefixBody(ty, v, k - 1, dest);
    }
  }

  lemma {:induction false} PrefixBody(ty: Ty, v: Val, k: nat, dest: Val)
    requires HasType(ty, v) && !ty.Ptr? && !v.VNil?
    requires |Enc(ty, v)| > 0 && k < |Enc(ty, v)[1..]| < LIMIT32
    ensures DumpBody(ty, Enc(ty, v)[1..][..k], dest).st == Short
  {
    var e := Enc(ty, v)[1..];
    if ty.Str? {
      PrefixSize(e, |v.text|, v.text, k);
    } else if ty.Time? {
      if k > 0 {
        assert e[..k][1..] == e[1..][..k - 1];
        PrefixSize(e[1..], |v.text|, v.text, k - 1);
      }
    } else if ty.Obj? {
      PrefixContainer(e, |ty.fields|, EncFields(ty, v.fields, 0), k);
    } else if ty.Dict? {
      PrefixContainer(e, |v.entries|, EncPairs(ty, v.entries, 0), k);
    } else if ty.IsMerged() {
      if k > 0 {
        assert e[..k][1..] == e[1..][..k - 1];
        PrefixContainer(e[1..], |v.elems|, Raw(v.elems, 0), k - 1);
      }
    } else if ty.IsList() {
      PrefixContainer(e, |v.elems|, EncElems(ty, v.elems, 0), k);
    }
  }

  lemma PrefixSize(e: bytes, n: nat, body: bytes, k: nat)
    requires e == Le32(n) + body && |body| == n && k < |e| < LIMIT32
    ensures k >= 4 ==> Int32(e[..k]) == n
    ensures DumpText(e[..k]).st == Short && CheckSize(e[..k]).st == Short
  {
    if k >= 4 {
      ReadBack32(n, body[..k - 4]);
      SurvivesField(n);
      assert e[..k] == Le32(n) + body[..k - 4];
    }
  }

  lemma PrefixContainer(e: bytes, count: nat, body: bytes, k: nat)
    requires e == Container(count, body) && k < |e| < LIMIT32
    ensures CheckSize(e[..k]).st == Short
  {
    assert e == Le32(2 + |body|) + (Le16(count) + body);
    PrefixSize(e, 2 + |body|, Le16(count) + body, k);
  }
}
