/**
  Dumping from data that is not all there yet, for any bytes at all: exactly when a verdict
  stands whatever arrives behind it, why a dump that is tried again over its own unfinished
  destination ends as if it had been run once, and that every dump leaves a value of its type.
 */
module Stability {
  import opened Wire
  import opened Types
  import opened Codec
  import opened RoundTrip
  import opened Exactness

  // ---------------------------------------------------------------- short merged lists

  /** A merged list that announces elements which are not all there: its failed read is not looked at. */
  predicate ShortMerged(ty: Ty, s: bytes)
    requires ty.IsMerged()
  {
    |s| > 0 && s[0] == ty.elem.tag
    && var z := CheckSize(s[1..]);
       z.st == Ok && z.count > 0 && |z.rest| < Total(z.count, SizeOf(ty.elem.tag))
  }

  /** No merged list that the dump comes to is short. */
  predicate Reads(ty: Ty, s: bytes, dest: Val)
    decreases ty, 2, 0
  {
    |s| > 0 ==>
      if ty.Ptr? then
        s[0] != Neg(Tag(ty.target)) ==> Reads(ty.target, s, if dest.VPtr? then dest.target else Zero(ty.target))
      else s[0] == Tag(ty) ==> ReadsBody(ty, s[1..], dest)
  }

  /** The same behind the tag. */
  predicate ReadsBody(ty: Ty, s: bytes, dest: Val)
    requires !ty.Ptr?
    decreases ty, 1, 0
  {
    match ty
    case Obj(fields) =>
      var z := CheckSize(s);
      z.st == Ok && z.count == |fields| ==> ReadsFields(ty, z.rest, OldFields(ty, dest), 0)
    case Slice(elem) => if elem.Base? then !ShortMerged(ty, s) else ReadsList(ty, s, dest)
    case Array(elem, _) => if elem.Base? then !ShortMerged(ty, s) else ReadsList(ty, s, dest)
    case Dict(_, _) =>
      var z := CheckSize(s);
      z.st == Ok ==> ReadsPairs(ty, z.count, z.rest)
    case _ => true
  }

  predicate ReadsFields(ty: Ty, s: bytes, cur: seq<Val>, i: nat)
    requires ty.Obj? && |cur| == |ty.fields|
    decreases ty, 0, |ty.fields| - i
  {
    i < |ty.fields| ==>
      Reads(ty.fields[i], s, cur[i])
      && var o := Dump(ty.fields[i], s, cur[i]);
         o.st == Ok ==> ReadsFields(ty, o.rest, cur[i := o.val], i + 1)
  }

  predicate ReadsList(ty: Ty, s: bytes, dest: Val)
    requires ty.IsList()
    decreases ty, 0, 0x1_0000
  {
    var z := CheckSize(s);
    z.st == Ok && !(ty.Slice? && z.count < 0) ==>
      var n: nat := if z.count < 0 then 0 else z.count;
      ReadsElems(ty, n, z.rest, OldElems(ty, n, dest), 0)
  }

  predicate ReadsElems(ty: Ty, n: nat, s: bytes, cur: seq<Val>, i: nat)
    requires ty.IsList()
    decreases ty, 0, n - i
  {
    var j := StrideIndex(ty.elem, i);
    i < n && j < |cur| ==>
      Reads(ty.elem, s, cur[j])
      && var o := Dump(ty.elem, s, cur[j]);
         o.st == Ok ==> ReadsElems(ty, n, o.rest, cur[j := o.val], i + 1)
  }

  predicate ReadsPairs(ty: Ty, n: int, s: bytes)
    requires ty.Dict?
    decreases ty, 0, n
  {
    n > 0 && |s| > 0 && s[0] == TDICTK ==>
      Reads(ty.key, s[1..], Zero(ty.key))
      && var k := Dump(ty.key, s[1..], Zero(ty.key));
         k.st == Ok && |k.rest| > 0 && k.rest[0] == TDICTV ==>
           Reads(ty.value, k.rest[1..], Zero(ty.value))
           && var v := Dump(ty.value, k.rest[1..], Zero(ty.value));
              v.st == Ok ==> ReadsPairs(ty, n - 1, v.rest)
  }

  // ---------------------------------------------------------------- stability

  /** o2 is o1 with more bytes behind what it left, unless o1 ran out of data. */
  predicate Extends(o1: Out, o2: Out, more: bytes) {
    o1.st == Short || o2 == Out(o1.st, o1.val, o1.rest + more)
  }

  lemma CheckSizeStable(s: bytes, more: bytes)
    ensures var z := CheckSize(s); z.st == Short || CheckSize(s + more) == Sizes(z.st, z.count, z.rest + more)
  {
    if |s| >= 6 {
      assert (s + more)[4..] == s[4..] + more;
      assert (s + more)[6..] == s[6..] + more;
    }
  }

  lemma DumpTextStable(s: bytes, more: bytes)
    ensures var t := DumpText(s); t.st == Short || DumpText(s + more) == TextOut(t.st, t.text, t.rest + more)
  {
    if |s| >= 4 {
      var n, u := Int32(s), s[4..];
      assert (s + more)[4..] == u + more;
      if 0 <= n <= |u| {
        assert (u + more)[..n] == u[..n];
        assert (u + more)[n..] == u[n..] + more;
      }
    }
  }

  /** A verdict other than "too short" stands whatever comes later, if no merged list was short. */
  lemma {:induction false} Stable(ty: Ty, s: bytes, more: bytes, dest: Val)
    requires Reads(ty, s, dest)
    ensures Extends(Dump(ty, s, dest), Dump(ty, s + more, dest), more)
    decreases ty, 2, 0
  {
    hide DumpBody, ReadsBody;
    if |s| > 0 {
      assert (s + more)[1..] == s[1..] + more;
      assert (s + more)[0] == s[0];
      if ty.Ptr? {
        if s[0] != Neg(Tag(ty.target)) {
          Stable(ty.target, s, more, if dest.VPtr? then dest.target else Zero(ty.target));
        }
      } else if s[0] == Tag(ty) {
        StableBody(ty, s[1..], more, dest);
      }
    }
  }

  lemma {:induction false} StableBody(ty: Ty, s: bytes, more: bytes, dest: Val)
    requires !ty.Ptr? && ReadsBody(ty, s, dest)
    ensures Extends(DumpBody(ty, s, dest), DumpBody(ty, s + more, dest), more)
    decreases ty, 1, 0
  {
    hide Dump, DumpFields, DumpList, DumpMerged, DumpPairs, ReadsList, ReadsFields, ReadsPairs;
    if ty.Obj? {
      CheckSizeStable(s, more);
      var z := CheckSize(s);
      if z.st == Ok && z.count == |ty.fields| {
        StableFields(ty, z.rest, more, OldFields(ty, dest), 0);
      }
    } else if ty.Dict? {
      CheckSizeStable(s, more);
      var z := CheckSize(s);
      if z.st == Ok {
        StablePairs(ty, z.count, z.rest, more, []);
      }
    } else if ty.IsMerged() {
      StableMerged(ty, s, more, dest);
    } else if ty.IsList() {
      StableList(ty, s, more, dest);
    } else {
      StableLeaf(ty, s, more, dest);
    }
  }

  lemma StableLeaf(ty: Ty, s: bytes, more: bytes, dest: Val)
    requires ty.Base? || ty.Str? || ty.Time?
    ensures Extends(DumpBody(ty, s, dest), DumpBody(ty, s + more, dest), more)
  {
    if ty.Base? {
      var n := SizeOf(ty.tag);
      if |s| >= n {
        assert (s + more)[..n] == s[..n];
        assert (s + more)[n..] == s[n..] + more;
      }
    } else if ty.Str? {
      DumpTextStable(s, more);
    } else if |s| > 0 {
      assert (s + more)[1..] == s[1..] + more;
      DumpTextStable(s[1..], more);
    }
  }

  lemma {:induction false} StableList(ty: Ty, s: bytes, more: bytes, dest: Val)
    requires ty.IsList() && ReadsList(ty, s, dest)
    ensures Extends(DumpList(ty, s, dest), DumpList(ty, s + more, dest), more)
    decreases ty, 0, 0x1_0000
  {
    hide Dump, DumpElems, ReadsElems;
    CheckSizeStable(s, more);
    var z := CheckSize(s);
    if z.st == Ok && !(ty.Slice? && z.count < 0) {
      var n: nat := if z.count < 0 then 0 else z.count;
      StableElems(ty, n, z.rest, more, OldElems(ty, n, dest), 0);
    }
  }

  lemma {:induction false} StableFields(ty: Ty, s: bytes, more: bytes, cur: seq<Val>, i: nat)
    requires ty.Obj? && |cur| == |ty.fields| && ReadsFields(ty, s, cur, i)
    ensures Extends(DumpFields(ty, s, cur, i), DumpFields(ty, s + more, cur, i), more)
    decreases ty, 0, |ty.fields| - i
  {
    hide Dump, Reads;
    if i < |ty.fields| {
      Stable(ty.fields[i], s, more, cur[i]);
      var o := Dump(ty.fields[i], s, cur[i]);
      if o.st == Ok {
        StableFields(ty, o.rest, more, cur[i := o.val], i + 1);
      }
    }
  }

  lemma {:induction false} StableElems(ty: Ty, n: nat, s: bytes, more: bytes, cur: seq<Val>, i: nat)
    requires ty.IsList() && ReadsElems(ty, n, s, cur, i)
    ensures Extends(DumpElems(ty, n, s, cur, i), DumpElems(ty, n, s + more, cur, i), more)
    decreases ty, 0, n - i
  {
    hide Dump, Reads;
    var j := StrideIndex(ty.elem, i);
    if i < n && j < |cur| {
      Stable(ty.elem, s, more, cur[j]);
      var o := Dump(ty.elem, s, cur[j]);
      if o.st == Ok {
        StableElems(ty, n, o.rest, more, cur[j := o.val], i + 1);
      }
    } else if |s| > 0 {
      assert (s + more)[1..] == s[1..] + more;
    }
  }

  lemma {:induction false} StablePairs(ty: Ty, n: int, s: bytes, more: bytes, es: seq<Pair>)
    requires ty.Dict? && ReadsPairs(ty, n, s)
    ensures Extends(DumpPairs(ty, n, s, es), DumpPairs(ty, n, s + more, es), more)
    decreases ty, 0, n
  {
    hide Dump, Reads;
    if n > 0 && |s| > 0 {
      assert (s + more)[1..] == s[1..] + more;
      if s[0] == TDICTK {
        Stable(ty.key, s[1..], more, Zero(ty.key));
        var k := Dump(ty.key, s[1..], Zero(ty.key));
        if k.st == Ok && |k.rest| > 0 {
          assert (k.rest + more)[1..] == k.rest[1..] + more;
          if k.rest[0] == TDICTV {
            Stable(ty.value, k.rest[1..], more, Zero(ty.value));
            var v := Dump(ty.value, k.rest[1..], Zero(ty.value));
            if v.st == Ok {
              StablePairs(ty, n - 1, v.rest, more, DictPut(es, k.val, v.val));
            }
          }
        }
      }
    }
  }

  lemma {:induction false} ChunksFromFront(s: bytes, more: bytes, size: nat, n: nat)
    requires Total(n, size) <= |s|
    ensures Chunks(s + more, size, n) == Chunks(s, size, n)
    decreases n
  {
    if n > 0 {
      assert (s + more)[..size] == s[..size];
      assert (s + more)[size..] == s[size..] + more;
      ChunksFromFront(s[size..], more, size, n - 1);
    }
  }

  lemma StableMerged(ty: Ty, s: bytes, more: bytes, dest: Val)
    requires ty.IsMerged() && !ShortMerged(ty, s)
    ensures Extends(DumpMerged(ty, s, dest), DumpMerged(ty, s + more, dest), more)
  {
    hide CheckSize, Chunks, Total;
    if |s| > 0 {
      assert (s + more)[1..] == s[1..] + more;
      CheckSizeStable(s[1..], more);
      var z := CheckSize(s[1..]);
      if z.st == Ok && z.count > 0 && s[0] == ty.elem.tag {
        var total := Total(z.count, SizeOf(ty.elem.tag));
        ChunksFromFront(z.rest, more, SizeOf(ty.elem.tag), z.count);
        assert (z.rest + more)[total..] == z.rest[total..] + more;
      }
    }
  }

  // ---------------------------------------------------------------- what a dump reads

  /** r is what is left of s. */
  predicate EndOf(r: bytes, s: bytes) {
    |r| <= |s| && r == s[|s| - |r|..]
  }

  lemma EndOfEnd(a: bytes, b: bytes, c: bytes)
    requires EndOf(a, b) && EndOf(b, c)
    ensures EndOf(a, c)
  {
  }

  lemma EndOfDrop(s: bytes, n: nat)
    requires n <= |s|
    ensures EndOf(s[n..], s)
  {
  }

  /** A dump reads from the front: what is left is the end of what there was, and less unless the data ran out. */
  lemma {:induction false} RestIsSuffix(ty: Ty, s: bytes, dest: Val)
    ensures var o := Dump(ty, s, dest); EndOf(o.rest, s) && |o.rest| <= |s| && (o.st != Short ==> |o.rest| < |s|)
    decreases ty, 2, 0
  {
    hide DumpBody;
    if |s| > 0 {
      if ty.Ptr? {
        if s[0] != Neg(Tag(ty.target)) {
          RestIsSuffix(ty.target, s, if dest.VPtr? then dest.target else Zero(ty.target));
        }
      } else if s[0] == Tag(ty) {
        BodyIsSuffix(ty, s[1..], dest);
        EndOfEnd(DumpBody(ty, s[1..], dest).rest, s[1..], s);
      }
    }
  }

  lemma {:induction false} BodyIsSuffix(ty: Ty, s: bytes, dest: Val)
    requires !ty.Ptr?
    ensures EndOf(DumpBody(ty, s, dest).rest, s)
    decreases ty, 1, 0
  {
    hide Dump, DumpFields, DumpPairs, DumpList, DumpMerged, EndOf, CheckSize;
    EndOfAll(s);
    SizeSuffix(s);
    if ty.Obj? {
      var z := CheckSize(s);
      if z.st == Ok && z.count == |ty.fields| {
        FieldsSuffix(ty, z.rest, OldFields(ty, dest), 0);
        EndOfEnd(DumpBody(ty, s, dest).rest, z.rest, s);
      }
    } else if ty.Dict? {
      var z := CheckSize(s);
      PairsSuffix(ty, z.count, z.rest, []);
      EndOfEnd(DumpPairs(ty, z.count, z.rest, []).rest, z.rest, s);
    } else if ty.IsMerged() {
      MergedSuffix(ty, s, dest);
    } else if ty.IsList() {
      ListSuffix(ty, s, dest);
    } else {
      LeafSuffix(ty, s, dest);
    }
  }

  lemma LeafSuffix(ty: Ty, s: bytes, dest: Val)
    requires ty.Base? || ty.Str? || ty.Time?
    ensures EndOf(DumpBody(ty, s, dest).rest, s)
  {
    hide DumpText, EndOf;
    EndOfAll(s);
    if ty.Base? {
      if |s| >= SizeOf(ty.tag) { EndOfDrop(s, SizeOf(ty.tag)); }
    } else if ty.Str? {
      TextSuffix(s);
    } else if |s| > 0 {
      TextSuffix(s[1..]);
      EndOfEnd(DumpText(s[1..]).rest, s[1..], s);
    }
  }

  lemma SizeSuffix(s: bytes)
    ensures EndOf(CheckSize(s).rest, s) && CheckSize(s).count <= MAX16
  {
  }

  lemma TextSuffix(s: bytes)
    ensures EndOf(DumpText(s).rest, s)
  {
  }

  lemma MergedSuffix(ty: Ty, s: bytes, dest: Val)
    requires ty.IsMerged()
    ensures EndOf(DumpMerged(ty, s, dest).rest, s)
  {
    hide Chunks, Total, CheckSize;
    if |s| > 0 {
      var z := CheckSize(s[1..]);
      SizeSuffix(s[1..]);
      EndOfEnd(z.rest, s[1..], s);
      if z.st == Ok && z.count >= 0 && Total(z.count, SizeOf(ty.elem.tag)) <= |z.rest| {
        EndOfEnd(z.rest[Total(z.count, SizeOf(ty.elem.tag))..], z.rest, s);
      }
    }
  }

  lemma {:induction false} ListSuffix(ty: Ty, s: bytes, dest: Val)
    requires ty.IsList()
    ensures EndOf(DumpList(ty, s, dest).rest, s)
    decreases ty, 0, 0x1_0000
  {
    hide Dump, DumpElems, CheckSize;
    var z := CheckSize(s);
    SizeSuffix(s);
    if z.st == Ok && !(ty.Slice? && z.count < 0) {
      var n: nat := if z.count < 0 then 0 else z.count;
      ElemsSuffix(ty, n, z.rest, OldElems(ty, n, dest), 0);
      EndOfEnd(DumpList(ty, s, dest).rest, z.rest, s);
    }
  }

  /** A loop leaves no more than there was, and less when it ends badly. */
  predicate Less(o: Out, s: bytes) {
    |o.rest| <= |s| && (o.st == Ok || o.st == Short || |o.rest| < |s|)
  }

  /** And that is the end of it. */
  predicate Suffix(o: Out, s: bytes) {
    EndOf(o.rest, s) && Less(o, s)
  }

  lemma SuffixOfEnd(o: Out, r: bytes, s: bytes)
    requires Suffix(o, r) && EndOf(r, s)
    ensures Suffix(o, s)
  {
    EndOfEnd(o.rest, r, s);
  }

  lemma {:induction false} FieldsSuffix(ty: Ty, s: bytes, cur: seq<Val>, i: nat)
    requires ty.Obj? && |cur| == |ty.fields|
    ensures Suffix(DumpFields(ty, s, cur, i), s)
    decreases ty, 0, |ty.fields| - i
  {
    hide EndOf, Dump;
    EndOfAll(s);
    if i < |ty.fields| {
      var o := Dump(ty.fields[i], s, cur[i]);
      RestIsSuffix(ty.fields[i], s, cur[i]);
      if o.st == Ok {
        FieldsSuffix(ty, o.rest, cur[i := o.val], i + 1);
        SuffixOfEnd(DumpFields(ty, s, cur, i), o.rest, s);
      }
    }
  }

  lemma {:induction false} ElemsSuffix(ty: Ty, n: nat, s: bytes, cur: seq<Val>, i: nat)
    requires ty.IsList()
    ensures Suffix(DumpElems(ty, n, s, cur, i), s)
    decreases ty, 0, n - i
  {
    hide EndOf, Dump;
    EndOfAll(s);
    var j := StrideIndex(ty.elem, i);
    if i < n && j < |cur| {
      var o := Dump(ty.elem, s, cur[j]);
      RestIsSuffix(ty.elem, s, cur[j]);
      if o.st == Ok {
        ElemsSuffix(ty, n, o.rest, cur[j := o.val], i + 1);
        SuffixOfEnd(DumpElems(ty, n, s, cur, i), o.rest, s);
      }
    }
  }

  lemma {:induction false} PairsSuffix(ty: Ty, n: int, s: bytes, es: seq<Pair>)
    requires ty.Dict?
    ensures Suffix(DumpPairs(ty, n, s, es), s)
    decreases ty, 0, n
  {
    hide Dump, EndOf;
    EndOfAll(s);
    if n > 0 && |s| > 0 && s[0] == TDICTK {
      KeySuffix(ty, s);
      var k := Dump(ty.key, s[1..], Zero(ty.key));
      if k.st == Ok && |k.rest| > 0 && k.rest[0] == TDICTV {
        ValueSuffix(ty, k.rest);
        var v := Dump(ty.value, k.rest[1..], Zero(ty.value));
        EndOfEnd(v.rest, k.rest, s);
        if v.st == Ok {
          PairsSuffix(ty, n - 1, v.rest, DictPut(es, k.val, v.val));
          SuffixOfEnd(DumpPairs(ty, n, s, es), v.rest, s);
        }
      }
    }
  }

  lemma EndOfAll(s: bytes)
    ensures EndOf(s, s) && (|s| > 0 ==> EndOf(s[1..], s))
  {
  }

  lemma {:induction false} KeySuffix(ty: Ty, s: bytes)
    requires ty.Dict? && |s| > 0
    ensures var k := Dump(ty.key, s[1..], Zero(ty.key));
      EndOf(k.rest, s) && |k.rest| < |s| && (|k.rest| > 0 ==> EndOf(k.rest[1..], s))
    decreases ty, 0, 0
  {
    hide Dump;
    var k := Dump(ty.key, s[1..], Zero(ty.key));
    RestIsSuffix(ty.key, s[1..], Zero(ty.key));
    EndOfEnd(k.rest, s[1..], s);
    if |k.rest| > 0 { EndOfEnd(k.rest[1..], k.rest, s); }
  }

  lemma {:induction false} ValueSuffix(ty: Ty, s: bytes)
    requires ty.Dict? && |s| > 0
    ensures var v := Dump(ty.value, s[1..], Zero(ty.value)); EndOf(v.rest, s) && |v.rest| < |s|
    decreases ty, 0, 0
  {
    hide Dump;
    RestIsSuffix(ty.value, s[1..], Zero(ty.value));
    EndOfEnd(Dump(ty.value, s[1..], Zero(ty.value)).rest, s[1..], s);
  }

  // ---------------------------------------------------------------- and where that fails

  /**
    o1 went on from u behind a short merged list, where o2 had the missing bytes as well: it
    used up everything, or found the list too long for its array.
   */
  predicate Parted(o1: Out, o2: Out, u: bytes, more: bytes) {
    && more != []
    && (o2.st == Short || o2.rest == [] || (o2.st == Fault && o2.rest == u + more))
    && Less(o1, u)
  }

  lemma PartedIsNot(o1: Out, o2: Out, u: bytes, more: bytes)
    requires Parted(o1, o2, u, more) && o1.st != Short
    ensures !Extends(o1, o2, more)
  {
  }

  lemma PartedMerged(ty: Ty, s: bytes, dest: Val) returns (u: bytes, more: bytes)
    requires ty.IsMerged() && ShortMerged(ty, s)
    ensures DumpMerged(ty, s, dest).st == Ok
    ensures Parted(DumpMerged(ty, s, dest), DumpMerged(ty, s + more, dest), u, more)
  {
    hide CheckSize, Chunks, Total;
    var z := CheckSize(s[1..]);
    var total := Total(z.count, SizeOf(ty.elem.tag));
    u := z.rest;
    more := seq(total - |u|, _ => 0);
    assert (s + more)[1..] == s[1..] + more;
    CheckSizeStable(s[1..], more);
    assert (u + more)[total..] == [];
  }

  lemma FieldsOnNothing(ty: Ty, s: bytes, cur: seq<Val>, i: nat)
    requires ty.Obj? && |cur| == |ty.fields|
    ensures s == [] ==> var o := DumpFields(ty, s, cur, i); o.st == Short || o.rest == []
  {
  }

  lemma ElemsOnNothing(ty: Ty, n: nat, s: bytes, cur: seq<Val>, i: nat)
    requires ty.IsList()
    ensures s == [] ==> var o := DumpElems(ty, n, s, cur, i); o.st == Short || o.rest == []
  {
  }

  /** The first short merged list that a dump comes to is where the two part. */
  lemma {:induction false} PartedDump(ty: Ty, s: bytes, dest: Val) returns (u: bytes, more: bytes)
    requires !Reads(ty, s, dest)
    ensures Parted(Dump(ty, s, dest), Dump(ty, s + more, dest), u, more)
    decreases ty, 2, 0
  {
    hide EndOf, DumpBody, ReadsBody;
    if ty.Ptr? {
      u, more := PartedDump(ty.target, s, if dest.VPtr? then dest.target else Zero(ty.target));
    } else {
      u, more := PartedBody(ty, s[1..], dest);
      assert (s + more)[1..] == s[1..] + more;
    }
    assert (s + more)[0] == s[0];
  }

  lemma {:induction false} PartedBody(ty: Ty, s: bytes, dest: Val) returns (u: bytes, more: bytes)
    requires !ty.Ptr? && !ReadsBody(ty, s, dest)
    ensures Parted(DumpBody(ty, s, dest), DumpBody(ty, s + more, dest), u, more)
    decreases ty, 1, 0
  {
    hide EndOf, Dump, DumpFields, DumpList, DumpMerged, DumpPairs, ReadsList, ReadsFields, ReadsPairs, ShortMerged;
    if ty.Obj? {
      var z := CheckSize(s);
      u, more := PartedFields(ty, z.rest, OldFields(ty, dest), 0);
      CheckSizeStable(s, more);
    } else if ty.Dict? {
      var z := CheckSize(s);
      u, more := PartedPairs(ty, z.count, z.rest, []);
      CheckSizeStable(s, more);
    } else if ty.IsMerged() {
      u, more := PartedMerged(ty, s, dest);
    } else {
      u, more := PartedList(ty, s, dest);
    }
  }

  lemma {:induction false} PartedList(ty: Ty, s: bytes, dest: Val) returns (u: bytes, more: bytes)
    requires ty.IsList() && !ReadsList(ty, s, dest)
    ensures Parted(DumpList(ty, s, dest), DumpList(ty, s + more, dest), u, more)
    decreases ty, 0, 0x1_0000
  {
    hide EndOf, Dump, DumpElems, ReadsElems;
    var z := CheckSize(s);
    var n: nat := if z.count < 0 then 0 else z.count;
    u, more := PartedElems(ty, n, z.rest, OldElems(ty, n, dest), 0);
    CheckSizeStable(s, more);
  }

  lemma {:induction false} PartedFields(ty: Ty, s: bytes, cur: seq<Val>, i: nat) returns (u: bytes, more: bytes)
    requires ty.Obj? && |cur| == |ty.fields| && !ReadsFields(ty, s, cur, i)
    ensures Parted(DumpFields(ty, s, cur, i), DumpFields(ty, s + more, cur, i), u, more)
    decreases ty, 0, |ty.fields| - i
  {
    hide EndOf, Dump, Reads;
    var o := Dump(ty.fields[i], s, cur[i]);
    if Reads(ty.fields[i], s, cur[i]) {
      u, more := PartedFields(ty, o.rest, cur[i := o.val], i + 1);
      Stable(ty.fields[i], s, more, cur[i]);
    } else {
      u, more := PartedDump(ty.fields[i], s, cur[i]);
      var p := Dump(ty.fields[i], s + more, cur[i]);
      FieldsOnNothing(ty, p.rest, cur[i := p.val], i + 1);
      if o.st == Ok {
        FieldsSuffix(ty, o.rest, cur[i := o.val], i + 1);
      }
    }
  }

  lemma {:induction false} PartedElems(ty: Ty, n: nat, s: bytes, cur: seq<Val>, i: nat) returns (u: bytes, more: bytes)
    requires ty.IsList() && !ReadsElems(ty, n, s, cur, i)
    ensures Parted(DumpElems(ty, n, s, cur, i), DumpElems(ty, n, s + more, cur, i), u, more)
    decreases ty, 0, n - i
  {
    hide EndOf, Dump, Reads;
    var j := StrideIndex(ty.elem, i);
    var o := Dump(ty.elem, s, cur[j]);
    if Reads(ty.elem, s, cur[j]) {
      u, more := PartedElems(ty, n, o.rest, cur[j := o.val], i + 1);
      Stable(ty.elem, s, more, cur[j]);
    } else {
      u, more := PartedDump(ty.elem, s, cur[j]);
      var p := Dump(ty.elem, s + more, cur[j]);
      ElemsOnNothing(ty, n, p.rest, cur[j := p.val], i + 1);
      if o.st == Ok {
        ElemsSuffix(ty, n, o.rest, cur[j := o.val], i + 1);
      }
    }
  }

  lemma {:induction false} PartedPairs(ty: Ty, n: int, s: bytes, es: seq<Pair>) returns (u: bytes, more: bytes)
    requires ty.Dict? && !ReadsPairs(ty, n, s)
    ensures Parted(DumpPairs(ty, n, s, es), DumpPairs(ty, n, s + more, es), u, more)
    decreases ty, 0, n, 1
  {
    hide EndOf, Dump, Reads, DumpPairs, ReadsPairs, Parted;
    PairsBegin(ty, n, s);
    var k := Dump(ty.key, s[1..], Zero(ty.key));
    if Reads(ty.key, s[1..], Zero(ty.key)) {
      u, more := PartedEntry(ty, n, s, es);
    } else {
      u, more := PartedDump(ty.key, s[1..], Zero(ty.key));
      KeyParts(ty, n, s, es, u, more);
    }
  }

  lemma PairsBegin(ty: Ty, n: int, s: bytes)
    requires ty.Dict? && !ReadsPairs(ty, n, s)
    ensures n > 0 && |s| > 0 && s[0] == TDICTK
    ensures var k := Dump(ty.key, s[1..], Zero(ty.key));
      Reads(ty.key, s[1..], Zero(ty.key)) ==>
        k.st == Ok && |k.rest| > 0 && k.rest[0] == TDICTV
        && var v := Dump(ty.value, k.rest[1..], Zero(ty.value));
           Reads(ty.value, k.rest[1..], Zero(ty.value)) ==> v.st == Ok && !ReadsPairs(ty, n - 1, v.rest)
  {
    hide Dump, Reads;
  }

  /** What follows a key leaves less than the key did. */
  lemma BehindKey(ty: Ty, n: int, s: bytes, es: seq<Pair>)
    requires ty.Dict? && n > 0 && |s| > 0 && s[0] == TDICTK
    ensures var k := Dump(ty.key, s[1..], Zero(ty.key));
      if k.st == Ok then Suffix(DumpPairs(ty, n, s, es), k.rest)
      else DumpPairs(ty, n, s, es).st == k.st && DumpPairs(ty, n, s, es).rest == k.rest
  {
    hide EndOf, Dump;
    EndOfAll(Dump(ty.key, s[1..], Zero(ty.key)).rest);
    var k := Dump(ty.key, s[1..], Zero(ty.key));
    if k.st == Ok && |k.rest| > 0 && k.rest[0] == TDICTV {
      ValueSuffix(ty, k.rest);
      var v := Dump(ty.value, k.rest[1..], Zero(ty.value));
      if v.st == Ok {
        PairsSuffix(ty, n - 1, v.rest, DictPut(es, k.val, v.val));
        SuffixOfEnd(DumpPairs(ty, n, s, es), v.rest, k.rest);
      }
    }
  }

  /** When the keys part, so do the maps. */
  lemma KeyParts(ty: Ty, n: int, s: bytes, es: seq<Pair>, u: bytes, more: bytes)
    requires ty.Dict? && n > 0 && |s| > 0 && s[0] == TDICTK
    requires Parted(Dump(ty.key, s[1..], Zero(ty.key)), Dump(ty.key, s[1..] + more, Zero(ty.key)), u, more)
    ensures Parted(DumpPairs(ty, n, s, es), DumpPairs(ty, n, s + more, es), u, more)
  {
    hide EndOf, Dump, DumpPairs;
    assert (s + more)[1..] == s[1..] + more && (s + more)[0] == s[0];
    BehindKey(ty, n, s, es);
    BehindKey(ty, n, s + more, es);
  }

  /** They also do when the values part, or what follows. */
  lemma {:induction false} PartedEntry(ty: Ty, n: int, s: bytes, es: seq<Pair>) returns (u: bytes, more: bytes)
    requires ty.Dict? && !ReadsPairs(ty, n, s) && n > 0 && |s| > 0 && s[0] == TDICTK
    requires Reads(ty.key, s[1..], Zero(ty.key))
    ensures Parted(DumpPairs(ty, n, s, es), DumpPairs(ty, n, s + more, es), u, more)
    decreases ty, 0, n, 0
  {
    hide EndOf, Dump, Reads, ReadsPairs;
    PairsBegin(ty, n, s);
    var k := Dump(ty.key, s[1..], Zero(ty.key));
    var v := Dump(ty.value, k.rest[1..], Zero(ty.value));
    var next := DictPut(es, k.val, v.val);
    if Reads(ty.value, k.rest[1..], Zero(ty.value)) {
      u, more := PartedPairs(ty, n - 1, v.rest, next);
      Stable(ty.value, k.rest[1..], more, Zero(ty.value));
    } else {
      u, more := PartedDump(ty.value, k.rest[1..], Zero(ty.value));
      if v.st == Ok {
        PairsSuffix(ty, n - 1, v.rest, next);
      }
    }
    Stable(ty.key, s[1..], more, Zero(ty.key));
    assert (s + more)[1..] == s[1..] + more && (s + more)[0] == s[0];
    assert (k.rest + more)[1..] == k.rest[1..] + more && (k.rest + more)[0] == TDICTV;
  }

  /**
    Exactly when a verdict stands: a dump that did not run out of data has the same result
    whatever comes later if and only if no merged list it came to was short.
   */
  lemma StableExactly(ty: Ty, s: bytes, dest: Val)
    requires Dump(ty, s, dest).st != Short
    ensures Reads(ty, s, dest) <==> forall more :: Extends(Dump(ty, s, dest), Dump(ty, s + more, dest), more)
  {
    hide Dump, Reads, Parted, Extends;
    if Reads(ty, s, dest) {
      forall more ensures Extends(Dump(ty, s, dest), Dump(ty, s + more, dest), more) {
        Stable(ty, s, more, dest);
      }
    } else {
      var u, more := PartedDump(ty, s, dest);
      PartedIsNot(Dump(ty, s, dest), Dump(ty, s + more, dest), u, more);
    }
  }

  /** The same for a merged list by itself, behind its first tag. */
  lemma MergedStableExactly(ty: Ty, s: bytes, dest: Val)
    requires ty.IsMerged()
    ensures !ShortMerged(ty, s)
      <==> forall more :: Extends(DumpMerged(ty, s, dest), DumpMerged(ty, s + more, dest), more)
  {
    hide DumpMerged, ShortMerged, Parted, Extends;
    if ShortMerged(ty, s) {
      var u, more := PartedMerged(ty, s, dest);
      PartedIsNot(DumpMerged(ty, s, dest), DumpMerged(ty, s + more, dest), u, more);
    } else {
      forall more ensures Extends(DumpMerged(ty, s, dest), DumpMerged(ty, s + more, dest), more) {
        StableMerged(ty, s, more, dest);
      }
    }
  }

  // ---------------------------------------------------------------- types without merged lists

  predicate Unmerged(ty: Ty) {
    match ty
    case Obj(fields) => forall i :: 0 <= i < |fields| ==> Unmerged(fields[i])
    case Slice(elem) => !elem.Base? && Unmerged(elem)
    case Array(elem, _) => !elem.Base? && Unmerged(elem)
    case Dict(key, value) => Unmerged(key) && Unmerged(value)
    case Ptr(target) => Unmerged(target)
    case _ => true
  }

  /** Without merged lists in the type, every verdict stands. */
  lemma {:induction false} UnmergedReads(ty: Ty, s: bytes, dest: Val)
    requires Unmerged(ty)
    ensures Reads(ty, s, dest)
    decreases ty, 2, 0
  {
    hide Dump;
    if |s| > 0 {
      if ty.Ptr? {
        UnmergedReads(ty.target, s, if dest.VPtr? then dest.target else Zero(ty.target));
      } else if ty.Obj? {
        var z := CheckSize(s[1..]);
        if z.st == Ok && z.count == |ty.fields| {
          UnmergedFields(ty, z.rest, OldFields(ty, dest), 0);
        }
      } else if ty.Dict? {
        var z := CheckSize(s[1..]);
        UnmergedPairs(ty, z.count, z.rest);
      } else if ty.IsList() {
        UnmergedList(ty, s[1..], dest);
      }
    }
  }

  lemma {:induction false} UnmergedList(ty: Ty, s: bytes, dest: Val)
    requires ty.IsList() && Unmerged(ty)
    ensures ReadsList(ty, s, dest)
    decreases ty, 0, 0x1_0000
  {
    var z := CheckSize(s);
    if z.st == Ok && !(ty.Slice? && z.count < 0) {
      var n: nat := if z.count < 0 then 0 else z.count;
      UnmergedElems(ty, n, z.rest, OldElems(ty, n, dest), 0);
    }
  }

  lemma {:induction false} UnmergedFields(ty: Ty, s: bytes, cur: seq<Val>, i: nat)
    requires ty.Obj? && |cur| == |ty.fields| && Unmerged(ty)
    ensures ReadsFields(ty, s, cur, i)
    decreases ty, 0, |ty.fields| - i
  {
    hide Dump, Reads;
    if i < |ty.fields| {
      UnmergedReads(ty.fields[i], s, cur[i]);
      var o := Dump(ty.fields[i], s, cur[i]);
      UnmergedFields(ty, o.rest, cur[i := o.val], i + 1);
    }
  }

  lemma {:induction false} UnmergedElems(ty: Ty, n: nat, s: bytes, cur: seq<Val>, i: nat)
    requires ty.IsList() && Unmerged(ty)
    ensures ReadsElems(ty, n, s, cur, i)
    decreases ty, 0, n - i
  {
    hide Dump, Reads;
    var j := StrideIndex(ty.elem, i);
    if i < n && j < |cur| {
      UnmergedReads(ty.elem, s, cur[j]);
      var o := Dump(ty.elem, s, cur[j]);
      UnmergedElems(ty, n, o.rest, cur[j := o.val], i + 1);
    }
  }

  lemma {:induction false} UnmergedPairs(ty: Ty, n: int, s: bytes)
    requires ty.Dict? && Unmerged(ty)
    ensures ReadsPairs(ty, n, s)
    decreases ty, 0, n
  {
    hide Dump, Reads;
    if n > 0 && |s| > 0 {
      UnmergedReads(ty.key, s[1..], Zero(ty.key));
      var k := Dump(ty.key, s[1..], Zero(ty.key));
      if |k.rest| > 0 {
        UnmergedReads(ty.value, k.rest[1..], Zero(ty.value));
        UnmergedPairs(ty, n - 1, Dump(ty.value, k.rest[1..], Zero(ty.value)).rest);
      }
    }
  }

  // ---------------------------------------------------------------- trying again

  /**
    Dumping some data and then, over what that left in the destination, the data with
    more behind it has the effect of the second dump alone, if no merged list was short.
   */
  lemma {:induction false} Retry(ty: Ty, s: bytes, more: bytes, dest: Val)
    requires WellFormed(ty) && Reads(ty, s, dest)
    ensures Dump(ty, s + more, Dump(ty, s, dest).val) == Dump(ty, s + more, dest)
    decreases ty, 2, 0
  {
    hide DumpBody, ReadsBody;
    if |s| > 0 {
      assert (s + more)[0] == s[0];
      if ty.Ptr? {
        if s[0] != Neg(Tag(ty.target)) {
          Retry(ty.target, s, more, if dest.VPtr? then dest.target else Zero(ty.target));
        }
      } else if s[0] == Tag(ty) {
        assert (s + more)[1..] == s[1..] + more;
        RetryBody(ty, s[1..], more, dest);
      }
    }
  }

  lemma {:induction false} RetryBody(ty: Ty, s: bytes, more: bytes, dest: Val)
    requires !ty.Ptr? && WellFormed(ty) && ReadsBody(ty, s, dest)
    ensures DumpBody(ty, s + more, DumpBody(ty, s, dest).val) == DumpBody(ty, s + more, dest)
    decreases ty, 1, 0
  {
    hide Dump, DumpFields, DumpList, DumpMerged, DumpPairs, ReadsList, ReadsFields, ReadsPairs, ShortMerged;
    if ty.Obj? {
      RetryObj(ty, s, more, dest);
    } else if ty.IsMerged() {
      RetryMerged(ty, s, more, dest);
    } else if ty.IsList() {
      RetryList(ty, s, more, dest);
    } else {
      StableBody(ty, s, more, dest);
      WholeDest(ty, s + more, dest, DumpBody(ty, s, dest).val);
    }
  }

  /** A leaf or a map is either replaced as a whole or left alone. */
  predicate AllOrNothing(o1: Out, d1: Val, o2: Out, d2: Val) {
    if o1.st == Ok then o2 == o1 else o1.val == d1 && o2 == o1.(val := d2)
  }

  lemma WholeDest(ty: Ty, s: bytes, d1: Val, d2: Val)
    requires ty.Base? || ty.Str? || ty.Time? || ty.Dict?
    ensures AllOrNothing(DumpBody(ty, s, d1), d1, DumpBody(ty, s, d2), d2)
  {
    hide Dump, DumpPairs, DumpText, CheckSize;
    if ty.Dict? {
      WholeDict(ty, s, d1, d2);
    }
  }

  lemma WholeDict(ty: Ty, s: bytes, d1: Val, d2: Val)
    requires ty.Dict?
    ensures AllOrNothing(DumpBody(ty, s, d1), d1, DumpBody(ty, s, d2), d2)
  {
    hide Dump, DumpPairs, CheckSize;
    var z := CheckSize(s);
    if z.st == Ok {
      var o := DumpPairs(ty, z.count, z.rest, []);
      assert DumpBody(ty, s, d1) == Out(o.st, if o.st == Ok then o.val else d1, o.rest);
    }
  }

  lemma {:induction false} RetryObj(ty: Ty, s: bytes, more: bytes, dest: Val)
    requires ty.Obj? && WellFormed(ty) && ReadsBody(ty, s, dest)
    ensures DumpBody(ty, s + more, DumpBody(ty, s, dest).val) == DumpBody(ty, s + more, dest)
    decreases ty, 0, 0x2_0000
  {
    hide DumpFields, ReadsFields;
    CheckSizeStable(s, more);
    var z := CheckSize(s);
    if z.st == Ok && z.count == |ty.fields| {
      var cur := OldFields(ty, dest);
      RetryFields(ty, z.rest, more, cur, 0);
      FieldsKeep(ty, z.rest, cur, 0);
    }
  }

  lemma {:induction false} RetryFields(ty: Ty, s: bytes, more: bytes, cur: seq<Val>, i: nat)
    requires ty.Obj? && WellFormed(ty) && |cur| == |ty.fields| && ReadsFields(ty, s, cur, i)
    ensures var o := DumpFields(ty, s, cur, i);
      o.val.VObj? && |o.val.fields| == |cur|
          && DumpFields(ty, s + more, o.val.fields, i) == DumpFields(ty, s + more, cur, i)
    decreases ty, 0, |ty.fields| - i
  {
    hide Dump, Reads, WellFormed;
    if i < |cur| {
      var f := ty.fields[i];
      var o := Dump(f, s, cur[i]);
      FieldWellFormed(ty, i);
      Stable(f, s, more, cur[i]);
      Retry(f, s, more, cur[i]);
      var next := cur[i := o.val];
      if o.st == Ok {
        FieldsKeep(ty, o.rest, next, i + 1);
        var last := DumpFields(ty, o.rest, next, i + 1).val.fields;
        RetryFields(ty, o.rest, more, next, i + 1);
        assert last[i] == o.val && last[i := o.val] == last;
      } else {
        var again := Dump(f, s + more, cur[i]);
        assert next[i := again.val] == cur[i := again.val];
      }
    }
  }

  lemma FieldWellFormed(ty: Ty, i: nat)
    requires ty.Obj? && WellFormed(ty) && i < |ty.fields|
    ensures WellFormed(ty.fields[i])
  {
  }

  lemma {:induction false} RetryList(ty: Ty, s: bytes, more: bytes, dest: Val)
    requires ty.IsList() && !ty.elem.IsList() && WellFormed(ty.elem) && ReadsList(ty, s, dest)
    ensures DumpList(ty, s + more, DumpList(ty, s, dest).val) == DumpList(ty, s + more, dest)
    decreases ty, 0, 0x1_0000
  {
    hide Dump, DumpElems, ReadsElems;
    CheckSizeStable(s, more);
    var z := CheckSize(s);
    if z.st == Ok && !(ty.Slice? && z.count < 0) {
      var n: nat := if z.count < 0 then 0 else z.count;
      var cur := OldElems(ty, n, dest);
      RetryElems(ty, n, z.rest, more, cur, 0);
      KeptElems(ty, n, DumpElems(ty, n, z.rest, cur, 0).val);
    }
  }

  /** What a dump of n elements left is what the next one of n finds. */
  lemma KeptElems(ty: Ty, n: nat, v: Val)
    requires ty.IsList() && v.VList? && |v.elems| == if ty.Slice? then n else ty.len
    ensures OldElems(ty, n, v) == v.elems
  {
  }

  lemma {:induction false} RetryElems(ty: Ty, n: nat, s: bytes, more: bytes, cur: seq<Val>, i: nat)
    requires ty.IsList() && !ty.elem.IsList() && WellFormed(ty.elem) && ReadsElems(ty, n, s, cur, i)
    ensures var o := DumpElems(ty, n, s, cur, i);
      o.val.VList? && |o.val.elems| == |cur|
          && DumpElems(ty, n, s + more, o.val.elems, i) == DumpElems(ty, n, s + more, cur, i)
    decreases ty, 0, n - i
  {
    hide Dump, Reads, WellFormed;
    if i < n && i < |cur| {
      var o := Dump(ty.elem, s, cur[i]);
      Stable(ty.elem, s, more, cur[i]);
      Retry(ty.elem, s, more, cur[i]);
      var next := cur[i := o.val];
      if o.st == Ok {
        ElemsKeep(ty, n, o.rest, next, i + 1);
        var last := DumpElems(ty, n, o.rest, next, i + 1).val.elems;
        RetryElems(ty, n, o.rest, more, next, i + 1);
        assert last[i] == o.val && last[i := o.val] == last;
      } else {
        var again := Dump(ty.elem, s + more, cur[i]);
        assert next[i := again.val] == cur[i := again.val];
      }
    }
  }

  lemma RetryMerged(ty: Ty, s: bytes, more: bytes, dest: Val)
    requires ty.IsMerged() && !ShortMerged(ty, s)
    ensures DumpMerged(ty, s + more, DumpMerged(ty, s, dest).val) == DumpMerged(ty, s + more, dest)
  {
    StableMerged(ty, s, more, dest);
    hide CheckSize, Chunks, Total;
    if |s| > 0 {
      assert (s + more)[1..] == s[1..] + more;
      CheckSizeStable(s[1..], more);
    }
  }

  // ---------------------------------------------------------------- types are kept

  /** Whatever the bytes and however it ends, a dump leaves a value of the type. */
  lemma {:induction false} DumpKeepsType(ty: Ty, s: bytes, dest: Val)
    requires HasType(ty, dest)
    ensures HasType(ty, Dump(ty, s, dest).val)
    decreases ty, 2, 0
  {
    hide DumpBody;
    if |s| > 0 {
      if ty.Ptr? {
        ZeroHasType(ty.target);
        if s[0] != Neg(Tag(ty.target)) {
          DumpKeepsType(ty.target, s, if dest.VPtr? then dest.target else Zero(ty.target));
        }
      } else if s[0] == Tag(ty) {
        BodyKeepsType(ty, s[1..], dest);
      } else {
        ZeroHasType(ty);
      }
    }
  }

  lemma {:induction false} BodyKeepsType(ty: Ty, s: bytes, dest: Val)
    requires !ty.Ptr? && HasType(ty, dest)
    ensures HasType(ty, DumpBody(ty, s, dest).val)
    decreases ty, 1, 0
  {
    hide Dump, DumpFields, DumpList, DumpMerged, DumpPairs;
    if ty.Obj? {
      var z := CheckSize(s);
      if z.st == Ok && z.count == |ty.fields| {
        FieldsKeepType(ty, z.rest, OldFields(ty, dest), 0);
      }
    } else if ty.Dict? {
      var z := CheckSize(s);
      if z.st == Ok {
        PairsKeepType(ty, z.count, z.rest, []);
      }
    } else if ty.IsMerged() {
      MergedKeepsType(ty, s, dest);
    } else if ty.IsList() {
      ListKeepsType(ty, s, dest);
    }
  }

  lemma {:induction false} FieldsKeepType(ty: Ty, s: bytes, cur: seq<Val>, i: nat)
    requires ty.Obj? && HasType(ty, VObj(cur))
    ensures HasType(ty, DumpFields(ty, s, cur, i).val)
    decreases ty, 0, |ty.fields| - i
  {
    hide Dump;
    if i < |ty.fields| {
      var o := Dump(ty.fields[i], s, cur[i]);
      DumpKeepsType(ty.fields[i], s, cur[i]);
      if o.st == Ok {
        FieldsKeepType(ty, o.rest, cur[i := o.val], i + 1);
      }
    }
  }

  predicate AllHaveType(ty: Ty, vs: seq<Val>) {
    forall i :: 0 <= i < |vs| ==> HasType(ty, vs[i])
  }

  lemma OldElemsTyped(ty: Ty, n: nat, dest: Val)
    requires ty.IsList() && HasType(ty, dest)
    ensures AllHaveType(ty.elem, OldElems(ty, n, dest))
  {
    ZeroHasType(ty.elem);
  }

  lemma {:induction false} ListKeepsType(ty: Ty, s: bytes, dest: Val)
    requires ty.IsList() && HasType(ty, dest)
    ensures HasType(ty, DumpList(ty, s, dest).val)
    decreases ty, 0, 0x1_0000
  {
    hide Dump, DumpElems;
    var z := CheckSize(s);
    if z.st == Ok && !(ty.Slice? && z.count < 0) {
      var n: nat := if z.count < 0 then 0 else z.count;
      OldElemsTyped(ty, n, dest);
      ElemsKeepType(ty, n, z.rest, OldElems(ty, n, dest), 0);
      ElemsKeep(ty, n, z.rest, OldElems(ty, n, dest), 0);
    }
  }

  lemma {:induction false} ElemsKeepType(ty: Ty, n: nat, s: bytes, cur: seq<Val>, i: nat)
    requires ty.IsList() && AllHaveType(ty.elem, cur)
    ensures var v := DumpElems(ty, n, s, cur, i).val; v.VList? && AllHaveType(ty.elem, v.elems)
    decreases ty, 0, n - i
  {
    hide Dump, HasType;
    var j := StrideIndex(ty.elem, i);
    if i < n && j < |cur| {
      var o := Dump(ty.elem, s, cur[j]);
      DumpKeepsType(ty.elem, s, cur[j]);
      assert AllHaveType(ty.elem, cur[j := o.val]);
      if o.st == Ok {
        ElemsKeepType(ty, n, o.rest, cur[j := o.val], i + 1);
      }
    }
  }

  lemma {:induction false} ChunksTyped(s: bytes, size: nat, n: nat)
    requires Total(n, size) <= |s|
    ensures forall i :: 0 <= i < n ==> Chunks(s, size, n)[i].VBase? && |Chunks(s, size, n)[i].raw| == size
    decreases n
  {
    if n > 0 {
      ChunksTyped(s[size..], size, n - 1);
    }
  }

  lemma MergedKeepsType(ty: Ty, s: bytes, dest: Val)
    requires ty.IsMerged() && HasType(ty, dest)
    ensures HasType(ty, DumpMerged(ty, s, dest).val)
  {
    hide CheckSize, Chunks, Total;
    if |s| > 0 && s[0] == ty.elem.tag {
      var z := CheckSize(s[1..]);
      if z.st == Ok && z.count >= 0 {
        var size, n := SizeOf(ty.elem.tag), z.count;
        OldElemsTyped(ty, n, dest);
        if Total(n, size) <= |z.rest| {
          ChunksTyped(z.rest, size, n);
        }
      }
    }
  }

  /** A put brings in no other key. */
  lemma {:induction false} NotPut(es: seq<Pair>, k: Val, v: Val, x: Val)
    requires x != k && forall i :: 0 <= i < |es| ==> es[i].k != x
    ensures forall i :: 0 <= i < |DictPut(es, k, v)| ==> DictPut(es, k, v)[i].k != x
  {
    if es != [] && es[0].k != k {
      NotPut(es[1..], k, v, x);
    }
  }

  lemma {:induction false} PutKeepsType(ty: Ty, es: seq<Pair>, k: Val, v: Val)
    requires ty.Dict? && HasType(ty, VDict(es)) && HasType(ty.key, k) && HasType(ty.value, v)
    ensures HasType(ty, VDict(DictPut(es, k, v)))
    decreases |es|
  {
    if es != [] {
      TailTyped(ty, es);
      if es[0].k == k {
        HeadTyped(ty, Pair(k, v), es[1..]);
      } else {
        PutKeepsType(ty, es[1..], k, v);
        NotPut(es[1..], k, v, es[0].k);
        HeadTyped(ty, es[0], DictPut(es[1..], k, v));
      }
    }
  }

  lemma TailTyped(ty: Ty, es: seq<Pair>)
    requires ty.Dict? && HasType(ty, VDict(es)) && es != []
    ensures HasType(ty, VDict(es[1..])) && HasType(ty.key, es[0].k) && HasType(ty.value, es[0].v)
    ensures forall i :: 0 <= i < |es[1..]| ==> es[1..][i].k != es[0].k
  {
  }

  lemma HeadTyped(ty: Ty, p: Pair, es: seq<Pair>)
    requires ty.Dict? && HasType(ty, VDict(es)) && HasType(ty.key, p.k) && HasType(ty.value, p.v)
    requires forall i :: 0 <= i < |es| ==> es[i].k != p.k
    ensures HasType(ty, VDict([p] + es))
  {
    var all := [p] + es;
    forall i, j | 0 <= i < j < |all| ensures all[i].k != all[j].k {
      assert all[j] == es[j - 1];
      if i > 0 { assert all[i] == es[i - 1]; }
    }
    forall i | 0 <= i < |all| ensures HasType(ty.key, all[i].k) && HasType(ty.value, all[i].v) {
      if i > 0 { assert all[i] == es[i - 1]; }
    }
  }

  lemma {:induction false} PairsKeepType(ty: Ty, n: int, s: bytes, es: seq<Pair>)
    requires ty.Dict? && HasType(ty, VDict(es))
    ensures HasType(ty, DumpPairs(ty, n, s, es).val)
    decreases ty, 0, n
  {
    hide Dump, HasType;
    if n > 0 && |s| > 0 && s[0] == TDICTK {
      ZeroHasType(ty.key);
      ZeroHasType(ty.value);
      DumpKeepsType(ty.key, s[1..], Zero(ty.key));
      var k := Dump(ty.key, s[1..], Zero(ty.key));
      if k.st == Ok && |k.rest| > 0 && k.rest[0] == TDICTV {
        DumpKeepsType(ty.value, k.rest[1..], Zero(ty.value));
        var v := Dump(ty.value, k.rest[1..], Zero(ty.value));
        if v.st == Ok {
          PutKeepsType(ty, es, k.val, v.val);
          PairsKeepType(ty, n - 1, v.rest, DictPut(es, k.val, v.val));
        }
      }
    }
  }
}
