/**
  Waiting for data is never in vain: some continuation always ends it. And what a sender cut
  off is always waited for, with the number of bytes that are missing.
 */
module Waiting {
  import opened Wire
  import opened Types
  import opened Codec
  import opened RoundTrip
  import opened Stability

  // ---------------------------------------------------------------- dumps

  /** The dump did not run out of data, and what follows makes no difference. */
  ghost predicate Final(ty: Ty, s: bytes, dest: Val) {
    Dump(ty, s, dest).st != Short && forall more :: Extends(Dump(ty, s, dest), Dump(ty, s + more, dest), more)
  }

  ghost predicate FinalBody(ty: Ty, s: bytes, dest: Val)
    requires !ty.Ptr?
  {
    DumpBody(ty, s, dest).st != Short
    && forall more :: Extends(DumpBody(ty, s, dest), DumpBody(ty, s + more, dest), more)
  }

  ghost predicate FinalFields(ty: Ty, s: bytes, cur: seq<Val>, i: nat)
    requires ty.Obj? && |cur| == |ty.fields|
  {
    DumpFields(ty, s, cur, i).st != Short
    && forall more :: Extends(DumpFields(ty, s, cur, i), DumpFields(ty, s + more, cur, i), more)
  }

  ghost predicate FinalElems(ty: Ty, n: nat, s: bytes, cur: seq<Val>, i: nat)
    requires ty.IsList()
  {
    DumpElems(ty, n, s, cur, i).st != Short
    && forall more :: Extends(DumpElems(ty, n, s, cur, i), DumpElems(ty, n, s + more, cur, i), more)
  }

  ghost predicate FinalPairs(ty: Ty, n: int, s: bytes, es: seq<Pair>)
    requires ty.Dict?
  {
    DumpPairs(ty, n, s, es).st != Short
    && forall more :: Extends(DumpPairs(ty, n, s, es), DumpPairs(ty, n, s + more, es), more)
  }

  function Zeroes(n: nat): bytes {
    seq(n, _ => 0)
  }

  /** Whatever came so far, something can follow that ends the dump. */
  lemma {:induction false} DumpCanEnd(ty: Ty, s: bytes, dest: Val) returns (t: bytes)
    ensures Final(ty, s + t, dest)
    decreases ty, 2, 0
  {
    hide DumpBody, FinalBody;
    if |s| == 0 {
      var u := [0];
      var w := StartedCanEnd(ty, u, dest);
      t := u + w;
      assert s + t == u + w;
    } else {
      t := StartedCanEnd(ty, s, dest);
    }
  }

  lemma {:induction false} StartedCanEnd(ty: Ty, s: bytes, dest: Val) returns (t: bytes)
    requires |s| > 0
    ensures Final(ty, s + t, dest)
    decreases ty, 1, 0x4_0000
  {
    hide DumpBody, FinalBody;
    t := [];
    if ty.Ptr? && s[0] != Neg(Tag(ty.target)) {
      t := StartedCanEnd(ty.target, s, Behind(ty, dest));
      PointerEnds(ty, s + t, dest);
    } else if !ty.Ptr? && s[0] == Tag(ty) {
      t := BodyCanEnd(ty, s[1..], dest);
      assert (s + t)[1..] == s[1..] + t;
      TagEnds(ty, s + t, dest);
    } else {
      assert s + t == s;
      forall more ensures Extends(Dump(ty, s, dest), Dump(ty, s + more, dest), more) {
        assert (s + more)[1..] == s[1..] + more;
      }
    }
  }

  lemma PointerEnds(ty: Ty, s: bytes, dest: Val)
    requires ty.Ptr? && |s| > 0 && s[0] != Neg(Tag(ty.target)) && Final(ty.target, s, Behind(ty, dest))
    ensures Final(ty, s, dest)
  {
    hide DumpBody;
    forall more ensures Extends(Dump(ty, s, dest), Dump(ty, s + more, dest), more) {
      assert Extends(Dump(ty.target, s, Behind(ty, dest)), Dump(ty.target, s + more, Behind(ty, dest)), more);
    }
  }

  lemma TagEnds(ty: Ty, s: bytes, dest: Val)
    requires !ty.Ptr? && |s| > 0 && s[0] == Tag(ty) && FinalBody(ty, s[1..], dest)
    ensures Final(ty, s, dest)
  {
    hide DumpBody;
    forall more ensures Extends(Dump(ty, s, dest), Dump(ty, s + more, dest), more) {
      assert (s + more)[1..] == s[1..] + more;
      assert Extends(DumpBody(ty, s[1..], dest), DumpBody(ty, s[1..] + more, dest), more);
    }
  }

  lemma {:induction false} BodyCanEnd(ty: Ty, s: bytes, dest: Val) returns (t: bytes)
    requires !ty.Ptr?
    ensures FinalBody(ty, s + t, dest)
    decreases ty, 1, 0x3_0000
  {
    hide Dump, DumpBody, FinalBody;
    if ty.Obj? {
      t := ObjCanEnd(ty, s, dest);
    } else if ty.Dict? {
      t := DictCanEnd(ty, s, dest);
    } else if ty.IsMerged() {
      t := MergedCanEnd(ty, s, dest);
    } else if ty.IsList() {
      t := ListCanEnd(ty, s, dest);
    } else {
      t := LeafCanEnd(ty, s, dest);
    }
  }

  lemma LeafCanEnd(ty: Ty, s: bytes, dest: Val) returns (t: bytes)
    requires ty.Base? || ty.Str? || ty.Time?
    ensures FinalBody(ty, s + t, dest)
  {
    hide Int32;
    t := Zeroes(LIMIT32 + 16);
    IntsAreBounded(s + t);
    IntsAreBounded((s + t)[1..]);
    forall more ensures Extends(DumpBody(ty, s + t, dest), DumpBody(ty, s + t + more, dest), more) {
      StableLeaf(ty, s + t, more, dest);
    }
  }

  lemma IntsAreBounded(s: bytes)
    ensures |s| >= 4 ==> Int32(s) < LIMIT32
  {
  }

  /** Size and count can be completed. */
  lemma SizesCanEnd(s: bytes) returns (t: bytes)
    ensures CheckSize(s + t).st == Ok
    ensures forall more :: CheckSize(s + t + more) == Sizes(Ok, CheckSize(s + t).count, CheckSize(s + t).rest + more)
  {
    hide Int32, Int16;
    t := Zeroes(LIMIT32 + 6);
    IntsAreBounded(s + t);
    forall more ensures CheckSize(s + t + more) == Sizes(Ok, CheckSize(s + t).count, CheckSize(s + t).rest + more) {
      CheckSizeStable(s + t, more);
    }
  }

  lemma {:induction false} ObjCanEnd(ty: Ty, s: bytes, dest: Val) returns (t: bytes)
    requires ty.Obj?
    ensures FinalBody(ty, s + t, dest)
    decreases ty, 1, 0x2_0000
  {
    hide CheckSize, DumpFields, FinalFields;
    t := SizesCanEnd(s);
    var z := CheckSize(s + t);
    if z.count == |ty.fields| {
      var w := FieldsCanEnd(ty, z.rest, OldFields(ty, dest), 0);
      FieldsEnd(ty, s + t, w, dest);
      assert s + (t + w) == s + t + w;
      t := t + w;
    }
  }

  lemma FieldsEnd(ty: Ty, s: bytes, w: bytes, dest: Val)
    requires ty.Obj? && CheckSize(s).st == Ok && CheckSize(s).count == |ty.fields|
    requires forall more :: CheckSize(s + more) == Sizes(Ok, CheckSize(s).count, CheckSize(s).rest + more)
    requires FinalFields(ty, CheckSize(s).rest + w, OldFields(ty, dest), 0)
    ensures FinalBody(ty, s + w, dest)
  {
    hide CheckSize, DumpFields;
    var u, cur := CheckSize(s).rest, OldFields(ty, dest);
    forall more ensures Extends(DumpBody(ty, s + w, dest), DumpBody(ty, s + w + more, dest), more) {
      assert s + w + more == s + (w + more) && u + (w + more) == u + w + more;
      assert Extends(DumpFields(ty, u + w, cur, 0), DumpFields(ty, u + w + more, cur, 0), more);
    }
  }

  lemma {:induction false} FieldsCanEnd(ty: Ty, s: bytes, cur: seq<Val>, i: nat) returns (t: bytes)
    requires ty.Obj? && |cur| == |ty.fields|
    ensures FinalFields(ty, s + t, cur, i)
    decreases ty, 0, |ty.fields| - i
  {
    hide Dump, Final, FinalFields;
    t := [];
    if i < |ty.fields| {
      t := DumpCanEnd(ty.fields[i], s, cur[i]);
      var o := Dump(ty.fields[i], s + t, cur[i]);
      if o.st == Ok {
        var w := FieldsCanEnd(ty, o.rest, cur[i := o.val], i + 1);
        OneFieldEnds(ty, s + t, w, cur, i);
        assert s + (t + w) == s + t + w;
        t := t + w;
      } else {
        LastFieldEnds(ty, s + t, cur, i);
      }
    } else {
      NoFieldEnds(ty, s + t, cur, i);
    }
  }

  lemma NoFieldEnds(ty: Ty, s: bytes, cur: seq<Val>, i: nat)
    requires ty.Obj? && |cur| == |ty.fields| <= i
    ensures FinalFields(ty, s, cur, i)
  {
  }

  lemma LastFieldEnds(ty: Ty, s: bytes, cur: seq<Val>, i: nat)
    requires ty.Obj? && i < |cur| == |ty.fields|
    requires Final(ty.fields[i], s, cur[i]) && Dump(ty.fields[i], s, cur[i]).st != Ok
    ensures FinalFields(ty, s, cur, i)
  {
    hide Dump;
    forall more ensures Extends(DumpFields(ty, s, cur, i), DumpFields(ty, s + more, cur, i), more) {
      assert Extends(Dump(ty.fields[i], s, cur[i]), Dump(ty.fields[i], s + more, cur[i]), more);
    }
  }

  lemma OneFieldEnds(ty: Ty, s: bytes, w: bytes, cur: seq<Val>, i: nat)
    requires ty.Obj? && i < |cur| == |ty.fields| && Final(ty.fields[i], s, cur[i])
    requires var o := Dump(ty.fields[i], s, cur[i]);
      o.st == Ok && FinalFields(ty, o.rest + w, cur[i := o.val], i + 1)
    ensures FinalFields(ty, s + w, cur, i)
  {
    hide Dump;
    var o := Dump(ty.fields[i], s, cur[i]);
    var next := cur[i := o.val];
    assert Extends(o, Dump(ty.fields[i], s + w, cur[i]), w);
    forall more ensures Extends(DumpFields(ty, s + w, cur, i), DumpFields(ty, s + w + more, cur, i), more) {
      assert s + w + more == s + (w + more) && o.rest + (w + more) == o.rest + w + more;
      assert Extends(o, Dump(ty.fields[i], s + (w + more), cur[i]), w + more);
      assert Extends(DumpFields(ty, o.rest + w, next, i + 1), DumpFields(ty, o.rest + w + more, next, i + 1), more);
    }
  }

  lemma {:induction false} ListCanEnd(ty: Ty, s: bytes, dest: Val) returns (t: bytes)
    requires ty.IsList() && !ty.elem.Base?
    ensures FinalBody(ty, s + t, dest)
    decreases ty, 1, 0x2_0000
  {
    hide CheckSize, DumpElems, FinalElems;
    t := SizesCanEnd(s);
    var z := CheckSize(s + t);
    if !(ty.Slice? && z.count < 0) {
      CountIsBounded(s + t);
      var n: nat := if z.count < 0 then 0 else z.count;
      var w := ElemsCanEnd(ty, n, z.rest, OldElems(ty, n, dest), 0);
      ElemsEnd(ty, n, s + t, w, dest);
      assert s + (t + w) == s + t + w;
      t := t + w;
    } else {
      forall more ensures Extends(DumpBody(ty, s + t, dest), DumpBody(ty, s + t + more, dest), more) {
        ListSteps(ty, s + t, dest);
        ListSteps(ty, s + t + more, dest);
      }
      ListSteps(ty, s + t, dest);
    }
  }

  /** A list behind its tag: its fields, and then its elements. */
  lemma ListSteps(ty: Ty, s: bytes, dest: Val)
    requires ty.IsList() && !ty.elem.Base? && CheckSize(s).st == Ok
    ensures var z := CheckSize(s); var n := if z.count < 0 then 0 else z.count;
      DumpBody(ty, s, dest) ==
        if ty.Slice? && z.count < 0 then Out(Fault, dest, z.rest)
        else DumpElems(ty, n, z.rest, OldElems(ty, n, dest), 0)
  {
    hide CheckSize, DumpElems;
    assert DumpBody(ty, s, dest) == DumpList(ty, s, dest);
  }

  lemma CountIsBounded(s: bytes)
    ensures CheckSize(s).count <= MAX16
  {
  }

  lemma ElemsEnd(ty: Ty, n: nat, s: bytes, w: bytes, dest: Val)
    requires ty.IsList() && !ty.elem.Base? && CheckSize(s).st == Ok && !(ty.Slice? && CheckSize(s).count < 0)
    requires n == if CheckSize(s).count < 0 then 0 else CheckSize(s).count
    requires forall more :: CheckSize(s + more) == Sizes(Ok, CheckSize(s).count, CheckSize(s).rest + more)
    requires FinalElems(ty, n, CheckSize(s).rest + w, OldElems(ty, n, dest), 0)
    ensures FinalBody(ty, s + w, dest)
  {
    hide CheckSize, DumpElems, DumpBody;
    var u, cur := CheckSize(s).rest, OldElems(ty, n, dest);
    ListSteps(ty, s + w, dest);
    forall more ensures Extends(DumpBody(ty, s + w, dest), DumpBody(ty, s + w + more, dest), more) {
      assert s + w + more == s + (w + more) && u + (w + more) == u + w + more;
      ListSteps(ty, s + (w + more), dest);
      assert Extends(DumpElems(ty, n, u + w, cur, 0), DumpElems(ty, n, u + w + more, cur, 0), more);
    }
  }

  lemma {:induction false} ElemsCanEnd(ty: Ty, n: nat, s: bytes, cur: seq<Val>, i: nat) returns (t: bytes)
    requires ty.IsList()
    ensures FinalElems(ty, n, s + t, cur, i)
    decreases ty, 0, n - i
  {
    hide Dump, Final, FinalElems;
    t := [];
    var j := StrideIndex(ty.elem, i);
    if i >= n || j >= |cur| {
      t := [0];
      NoElemEnds(ty, n, s + t, cur, i);
    } else {
      t := DumpCanEnd(ty.elem, s, cur[j]);
      var o := Dump(ty.elem, s + t, cur[j]);
      if o.st == Ok {
        var w := ElemsCanEnd(ty, n, o.rest, cur[j := o.val], i + 1);
        OneElemEnds(ty, n, s + t, w, cur, i);
        assert s + (t + w) == s + t + w;
        t := t + w;
      } else {
        LastElemEnds(ty, n, s + t, cur, i);
      }
    }
  }

  lemma NoElemEnds(ty: Ty, n: nat, s: bytes, cur: seq<Val>, i: nat)
    requires ty.IsList() && |s| > 0 && (i >= n || StrideIndex(ty.elem, i) >= |cur|)
    ensures FinalElems(ty, n, s, cur, i)
  {
    hide Dump;
    forall more ensures Extends(DumpElems(ty, n, s, cur, i), DumpElems(ty, n, s + more, cur, i), more) {
      assert (s + more)[1..] == s[1..] + more;
    }
  }

  lemma LastElemEnds(ty: Ty, n: nat, s: bytes, cur: seq<Val>, i: nat)
    requires ty.IsList() && i < n && StrideIndex(ty.elem, i) < |cur|
    requires var j := StrideIndex(ty.elem, i); Final(ty.elem, s, cur[j]) && Dump(ty.elem, s, cur[j]).st != Ok
    ensures FinalElems(ty, n, s, cur, i)
  {
    hide Dump;
    var j := StrideIndex(ty.elem, i);
    forall more ensures Extends(DumpElems(ty, n, s, cur, i), DumpElems(ty, n, s + more, cur, i), more) {
      assert Extends(Dump(ty.elem, s, cur[j]), Dump(ty.elem, s + more, cur[j]), more);
    }
  }

  lemma OneElemEnds(ty: Ty, n: nat, s: bytes, w: bytes, cur: seq<Val>, i: nat)
    requires ty.IsList() && i < n && StrideIndex(ty.elem, i) < |cur|
    requires var j := StrideIndex(ty.elem, i); var o := Dump(ty.elem, s, cur[j]);
      Final(ty.elem, s, cur[j]) && o.st == Ok && FinalElems(ty, n, o.rest + w, cur[j := o.val], i + 1)
    ensures FinalElems(ty, n, s + w, cur, i)
  {
    hide Dump;
    var j := StrideIndex(ty.elem, i);
    var o := Dump(ty.elem, s, cur[j]);
    var next := cur[j := o.val];
    assert Extends(o, Dump(ty.elem, s + w, cur[j]), w);
    forall more ensures Extends(DumpElems(ty, n, s + w, cur, i), DumpElems(ty, n, s + w + more, cur, i), more) {
      assert s + w + more == s + (w + more) && o.rest + (w + more) == o.rest + w + more;
      assert Extends(o, Dump(ty.elem, s + (w + more), cur[j]), w + more);
      assert Extends(DumpElems(ty, n, o.rest + w, next, i + 1), DumpElems(ty, n, o.rest + w + more, next, i + 1), more);
    }
  }

  lemma MergedCanEnd(ty: Ty, s: bytes, dest: Val) returns (t: bytes)
    requires ty.IsMerged()
    ensures FinalBody(ty, s + t, dest)
  {
    hide CheckSize, DumpMerged;
    var u := s + [0];
    var w := SizesCanEnd(u[1..]);
    var z := CheckSize(u[1..] + w);
    var x := Zeroes(if z.count < 0 then 0 else Total(z.count, SizeOf(ty.elem.tag)));
    t := [0] + w + x;
    assert s + t == u + w + x;
    assert (u + w + x)[1..] == (u[1..] + w) + x;
    MergedEnds(ty, s + t, dest);
  }

  lemma MergedEnds(ty: Ty, s: bytes, dest: Val)
    requires ty.IsMerged() && |s| > 0 && !ShortMerged(ty, s) && CheckSize(s[1..]).st == Ok
    ensures FinalBody(ty, s, dest)
  {
    hide CheckSize, Chunks, Total, ShortMerged;
    forall more ensures Extends(DumpBody(ty, s, dest), DumpBody(ty, s + more, dest), more) {
      StableMerged(ty, s, more, dest);
    }
  }

  lemma {:induction false} DictCanEnd(ty: Ty, s: bytes, dest: Val) returns (t: bytes)
    requires ty.Dict?
    ensures FinalBody(ty, s + t, dest)
    decreases ty, 1, 0x2_0000
  {
    hide CheckSize, DumpPairs, FinalPairs;
    t := SizesCanEnd(s);
    var z := CheckSize(s + t);
    CountIsBounded(s + t);
    var w := PairsCanEnd(ty, z.count, z.rest, []);
    PairsEnd(ty, s + t, w, dest);
    assert s + (t + w) == s + t + w;
    t := t + w;
  }

  lemma PairsEnd(ty: Ty, s: bytes, w: bytes, dest: Val)
    requires ty.Dict? && CheckSize(s).st == Ok
    requires forall more :: CheckSize(s + more) == Sizes(Ok, CheckSize(s).count, CheckSize(s).rest + more)
    requires FinalPairs(ty, CheckSize(s).count, CheckSize(s).rest + w, [])
    ensures FinalBody(ty, s + w, dest)
  {
    hide CheckSize, DumpPairs;
    var u, n := CheckSize(s).rest, CheckSize(s).count;
    forall more ensures Extends(DumpBody(ty, s + w, dest), DumpBody(ty, s + w + more, dest), more) {
      assert s + w + more == s + (w + more) && u + (w + more) == u + w + more;
      assert Extends(DumpPairs(ty, n, u + w, []), DumpPairs(ty, n, u + w + more, []), more);
    }
  }

  lemma {:induction false} PairsCanEnd(ty: Ty, n: int, s: bytes, es: seq<Pair>) returns (t: bytes)
    requires ty.Dict?
    ensures FinalPairs(ty, n, s + t, es)
    decreases ty, 0, n
  {
    hide Dump, DumpPairs, Final, FinalPairs;
    t := [0];
    var u := s + t;
    if n > 0 && u[0] == TDICTK {
      var x := DumpCanEnd(ty.key, u[1..], Zero(ty.key));
      assert u[1..] + (x + [0]) == u[1..] + x + [0] && (u + (x + [0]))[1..] == u[1..] + (x + [0]);
      StaysFinal(ty.key, u[1..] + x, Zero(ty.key), [0]);
      var s1 := u + (x + [0]);
      var k := Dump(ty.key, s1[1..], Zero(ty.key));
      t := t + (x + [0]);
      assert s + t == s1;
      if k.st == Ok && k.rest[0] == TDICTV {
        var y := DumpCanEnd(ty.value, k.rest[1..], Zero(ty.value));
        ValueEnds(ty, s1, y);
        var s2 := s1 + y;
        assert s2[1..] == s1[1..] + y;
        var v := Dump(ty.value, k.rest[1..] + y, Zero(ty.value));
        t := t + y;
        assert s + t == s2;
        if v.st == Ok {
          var w := PairsCanEnd(ty, n - 1, v.rest, DictPut(es, k.val, v.val));
          OnePairEnds(ty, n, s2, w, es);
          t := t + w;
          assert s + t == s2 + w;
        } else {
          BadValueEnds(ty, n, s2, es);
        }
      } else {
        BadKeyEnds(ty, n, s1, es);
      }
    } else {
      NoPairEnds(ty, n, u, es);
    }
  }

  /** More data behind a dump that has ended. */
  lemma StaysFinal(ty: Ty, s: bytes, dest: Val, w: bytes)
    requires Final(ty, s, dest)
    ensures Final(ty, s + w, dest) && Dump(ty, s, dest).st != Short
    ensures Dump(ty, s + w, dest) == Out(Dump(ty, s, dest).st, Dump(ty, s, dest).val, Dump(ty, s, dest).rest + w)
  {
    hide Dump;
    var o := Dump(ty, s, dest);
    assert Extends(o, Dump(ty, s + w, dest), w);
    forall more ensures Extends(Dump(ty, s + w, dest), Dump(ty, s + w + more, dest), more) {
      assert s + w + more == s + (w + more) && o.rest + (w + more) == o.rest + w + more;
      assert Extends(o, Dump(ty, s + (w + more), dest), w + more);
    }
  }

  lemma NoPairEnds(ty: Ty, n: int, s: bytes, es: seq<Pair>)
    requires ty.Dict? && |s| > 0 && (n <= 0 || s[0] != TDICTK)
    ensures FinalPairs(ty, n, s, es)
  {
    hide Dump;
    forall more ensures Extends(DumpPairs(ty, n, s, es), DumpPairs(ty, n, s + more, es), more) {
      assert (s + more)[1..] == s[1..] + more;
    }
  }

  lemma BadKeyEnds(ty: Ty, n: int, s: bytes, es: seq<Pair>)
    requires ty.Dict? && n > 0 && |s| > 0 && s[0] == TDICTK && Final(ty.key, s[1..], Zero(ty.key))
    requires var k := Dump(ty.key, s[1..], Zero(ty.key)); k.st == Ok ==> |k.rest| > 0 && k.rest[0] != TDICTV
    ensures FinalPairs(ty, n, s, es)
  {
    hide Dump;
    var k := Dump(ty.key, s[1..], Zero(ty.key));
    forall more ensures Extends(DumpPairs(ty, n, s, es), DumpPairs(ty, n, s + more, es), more) {
      assert (s + more)[1..] == s[1..] + more;
      assert Extends(k, Dump(ty.key, s[1..] + more, Zero(ty.key)), more);
      if k.st == Ok { assert (k.rest + more)[1..] == k.rest[1..] + more; }
    }
  }

  /** The key is as it was, and the value behind it has ended. */
  lemma ValueEnds(ty: Ty, s: bytes, y: bytes)
    requires ty.Dict? && |s| > 0 && Final(ty.key, s[1..], Zero(ty.key))
    requires var k := Dump(ty.key, s[1..], Zero(ty.key));
      k.st == Ok && |k.rest| > 0 && Final(ty.value, k.rest[1..] + y, Zero(ty.value))
    ensures var k := Dump(ty.key, s[1..], Zero(ty.key));
      && (s + y)[1..] == s[1..] + y && Final(ty.key, (s + y)[1..], Zero(ty.key))
      && Dump(ty.key, (s + y)[1..], Zero(ty.key)) == Out(Ok, k.val, k.rest + y) && (k.rest + y)[1..] == k.rest[1..] + y
  {
    hide Dump, Final;
    StaysFinal(ty.key, s[1..], Zero(ty.key), y);
    assert (s + y)[1..] == s[1..] + y;
  }

  lemma BadValueEnds(ty: Ty, n: int, s: bytes, es: seq<Pair>)
    requires ty.Dict? && n > 0 && |s| > 0 && s[0] == TDICTK && Final(ty.key, s[1..], Zero(ty.key))
    requires var k := Dump(ty.key, s[1..], Zero(ty.key));
      && k.st == Ok && |k.rest| > 0 && k.rest[0] == TDICTV && Final(ty.value, k.rest[1..], Zero(ty.value))
      && Dump(ty.value, k.rest[1..], Zero(ty.value)).st != Ok
    ensures FinalPairs(ty, n, s, es)
  {
    hide Dump;
    var k := Dump(ty.key, s[1..], Zero(ty.key));
    var v := Dump(ty.value, k.rest[1..], Zero(ty.value));
    forall more ensures Extends(DumpPairs(ty, n, s, es), DumpPairs(ty, n, s + more, es), more) {
      assert (s + more)[1..] == s[1..] + more && (k.rest + more)[1..] == k.rest[1..] + more;
      assert Extends(k, Dump(ty.key, s[1..] + more, Zero(ty.key)), more);
      assert Extends(v, Dump(ty.value, k.rest[1..] + more, Zero(ty.value)), more);
    }
  }

  lemma OnePairEnds(ty: Ty, n: int, s: bytes, w: bytes, es: seq<Pair>)
    requires ty.Dict? && n > 0 && |s| > 0 && s[0] == TDICTK && Final(ty.key, s[1..], Zero(ty.key))
    requires var k := Dump(ty.key, s[1..], Zero(ty.key));
      && k.st == Ok && |k.rest| > 0 && k.rest[0] == TDICTV && Final(ty.value, k.rest[1..], Zero(ty.value))
      && var v := Dump(ty.value, k.rest[1..], Zero(ty.value));
         v.st == Ok && FinalPairs(ty, n - 1, v.rest + w, DictPut(es, k.val, v.val))
    ensures FinalPairs(ty, n, s + w, es)
  {
    hide Dump, DumpPairs, DictPut, Zero;
    var k := Dump(ty.key, s[1..], Zero(ty.key));
    var v := Dump(ty.value, k.rest[1..], Zero(ty.value));
    var next := DictPut(es, k.val, v.val);
    PairStep(ty, n, s, w, es);
    forall more ensures Extends(DumpPairs(ty, n, s + w, es), DumpPairs(ty, n, s + w + more, es), more) {
      PairStep(ty, n, s, w + more, es);
      assert s + w + more == s + (w + more) && v.rest + (w + more) == v.rest + w + more;
      assert Extends(DumpPairs(ty, n - 1, v.rest + w, next), DumpPairs(ty, n - 1, v.rest + w + more, next), more);
    }
  }

  /** An entry that is there in full, in front of anything. */
  lemma PairStep(ty: Ty, n: int, s: bytes, more: bytes, es: seq<Pair>)
    requires ty.Dict? && n > 0 && |s| > 0 && s[0] == TDICTK && Final(ty.key, s[1..], Zero(ty.key))
    requires var k := Dump(ty.key, s[1..], Zero(ty.key));
      && k.st == Ok && |k.rest| > 0 && k.rest[0] == TDICTV && Final(ty.value, k.rest[1..], Zero(ty.value))
      && Dump(ty.value, k.rest[1..], Zero(ty.value)).st == Ok
    ensures var k := Dump(ty.key, s[1..], Zero(ty.key));
      var v := Dump(ty.value, k.rest[1..], Zero(ty.value));
      DumpPairs(ty, n, s + more, es) == DumpPairs(ty, n - 1, v.rest + more, DictPut(es, k.val, v.val))
  {
    hide Dump, Final, DictPut, Zero;
    var k := Dump(ty.key, s[1..], Zero(ty.key));
    StaysFinal(ty.key, s[1..], Zero(ty.key), more);
    StaysFinal(ty.value, k.rest[1..], Zero(ty.value), more);
    assert (s + more)[1..] == s[1..] + more && (k.rest + more)[1..] == k.rest[1..] + more;
  }
}
