/**
  The dump functions: they move the cursor of a fragmented buffer and write the
  destination, and come to exactly what the codec says about the unread bytes.
 */
module Dumping {
  import opened Wire
  import opened Types
  import opened Codec
  import opened Buffers
  import opened Saving

  /** A text behind its tag. */
  method DumpString(buf: Buffer) returns (st: Status, text: bytes)
    requires buf.Valid()
    modifies buf`index, buf`pos, buf`size
    ensures buf.Valid() && DumpText(old(buf.Unread())) == TextOut(st, text, buf.Unread())
  {
    hide Buffer.Valid, Buffer.Unread, Int32;
    var n;
    st, n := buf.CheckDumpSizet();
    text := [];
    if st == Ok {
      if n < 0 {
        return Fault, [];
      }
      st, text := buf.Read(n);
    }
  }

  /** Dump a value of type ty over the destination dest. */
  method DumpInto(ty: Ty, buf: Buffer, dest: Val) returns (st: Status, val: Val)
    requires buf.Valid()
    modifies buf`index, buf`pos, buf`size
    ensures buf.Valid() && Dump(ty, old(buf.Unread()), dest) == Out(st, val, buf.Unread())
    decreases ty, 2, 0
  {
    hide Buffer.Valid, Buffer.Unread, DumpBody;
    if ty.Ptr? {
      var ok, c := buf.PeekByte();
      if !ok {
        return Short, dest;
      }
      if c == Neg(Tag(ty.target)) {
        var s, d := buf.ReadByte();
        return Ok, VNil;
      }
      var inner := if dest.VPtr? then dest.target else Zero(ty.target);
      st, inner := DumpInto(ty.target, buf, inner);
      return st, VPtr(inner);
    }
    var c;
    st, c := buf.ReadByte();
    if st != Ok {
      return st, dest;
    }
    if c == Tag(ty) {
      st, val := DumpBodyInto(ty, buf, dest);
    } else if c == Neg(Tag(ty)) {
      val := Skip(ty, dest);
    } else {
      st, val := Bad, dest;
    }
  }

  method DumpBodyInto(ty: Ty, buf: Buffer, dest: Val) returns (st: Status, val: Val)
    requires buf.Valid() && !ty.Ptr?
    modifies buf`index, buf`pos, buf`size
    ensures buf.Valid() && DumpBody(ty, old(buf.Unread()), dest) == Out(st, val, buf.Unread())
    decreases ty, 1, 0
  {
    hide Buffer.Valid, Buffer.Unread, DumpText, DumpMerged, DumpList, DumpFields, DumpPairs, CheckSize;
    match ty
    case Base(tag) =>
      var raw;
      st, raw := buf.Read(SizeOf(tag));
      val := if st == Ok then VBase(raw) else dest;
    case Str =>
      var text;
      st, text := DumpString(buf);
      val := if st == Ok then VStr(text) else dest;
    case Time =>
      st, val := DumpTime(buf, dest);
    case Obj(_) => st, val := DumpObj(ty, buf, dest);
    case Slice(elem) =>
      if elem.Base? { st, val := DumpMergedInto(ty, buf, dest); } else { st, val := DumpListInto(ty, buf, dest); }
    case Array(elem, _) =>
      if elem.Base? { st, val := DumpMergedInto(ty, buf, dest); } else { st, val := DumpListInto(ty, buf, dest); }
    case Dict(_, _) => st, val := DumpDict(ty, buf, dest);
  }

  method DumpTime(buf: Buffer, dest: Val) returns (st: Status, val: Val)
    requires buf.Valid()
    modifies buf`index, buf`pos, buf`size
    ensures buf.Valid() && DumpBody(Time, old(buf.Unread()), dest) == Out(st, val, buf.Unread())
  {
    hide Buffer.Valid, Buffer.Unread, DumpText;
    var c, text;
    val := dest;
    st, c := buf.ReadByte();
    if st == Ok {
      if c != TSTRING {
        return Bad, dest;
      }
      st, text := DumpString(buf);
      val := if st == Ok then VTime(text) else dest;
    }
  }

  method DumpObj(ty: Ty, buf: Buffer, dest: Val) returns (st: Status, val: Val)
    requires buf.Valid() && ty.Obj?
    modifies buf`index, buf`pos, buf`size
    ensures buf.Valid() && DumpBody(ty, old(buf.Unread()), dest) == Out(st, val, buf.Unread())
    decreases ty, 0, 0x1_0000
  {
    hide Buffer.Valid, Buffer.Unread, CheckSize, Dump;
    var n;
    st, n := buf.CheckDumpSize();
    if st != Ok {
      return st, dest;
    }
    if n != |ty.fields| {
      return Bad, dest;
    }
    var cur := OldFields(ty, dest);
    ghost var whole := DumpFields(ty, buf.Unread(), cur, 0);
    var k := 0;
    while k < |ty.fields|
      invariant 0 <= k <= |ty.fields| == |cur| && buf.Valid()
      invariant DumpFields(ty, buf.Unread(), cur, k) == whole
    {
      var v;
      st, v := DumpInto(ty.fields[k], buf, cur[k]);
      cur := cur[k := v];
      if st != Ok {
        return st, VObj(cur);
      }
      k := k + 1;
    }
    return Ok, VObj(cur);
  }

  method DumpListInto(ty: Ty, buf: Buffer, dest: Val) returns (st: Status, val: Val)
    requires buf.Valid() && ty.IsList()
    modifies buf`index, buf`pos, buf`size
    ensures buf.Valid() && DumpList(ty, old(buf.Unread()), dest) == Out(st, val, buf.Unread())
    decreases ty, 0, 0x1_0000
  {
    hide Buffer.Valid, Buffer.Unread, CheckSize, Dump;
    var n;
    st, n := buf.CheckDumpSize();
    if st != Ok {
      return st, dest;
    }
    if ty.Slice? && n < 0 {
      return Fault, dest;
    }
    var m: nat := if n < 0 then 0 else n;
    var cur := OldElems(ty, m, dest);
    ghost var whole := DumpElems(ty, m, buf.Unread(), cur, 0);
    var k := 0;
    while k < m
      invariant 0 <= k <= m && buf.Valid()
      invariant DumpElems(ty, m, buf.Unread(), cur, k) == whole
    {
      var v;
      var j := StrideIndex(ty.elem, k);
      if j >= |cur| {
        var c;
        st, c := buf.ReadByte();
        return if st == Ok then Fault else Short, VList(cur);
      }
      st, v := DumpInto(ty.elem, buf, cur[j]);
      cur := cur[j := v];
      if st != Ok {
        return st, VList(cur);
      }
      k := k + 1;
    }
    return Ok, VList(cur);
  }

  /** The merged elements are read at once; whether that worked is not looked at. */
  method DumpMergedInto(ty: Ty, buf: Buffer, dest: Val) returns (st: Status, val: Val)
    requires buf.Valid() && ty.IsMerged()
    modifies buf`index, buf`pos, buf`size
    ensures buf.Valid() && DumpMerged(ty, old(buf.Unread()), dest) == Out(st, val, buf.Unread())
  {
    hide Buffer.Valid, Buffer.Unread, CheckSize, Chunks;
    var c, n;
    st, c := buf.ReadByte();
    if st != Ok {
      return st, dest;
    }
    if c != ty.elem.tag {
      return Bad, dest;
    }
    st, n := buf.CheckDumpSize();
    if st != Ok {
      return st, dest;
    }
    if n < 0 {
      return Fault, dest;
    }
    st, val := ReadMerged(ty, n, buf, dest);
  }

  method ReadMerged(ty: Ty, n: nat, buf: Buffer, dest: Val) returns (st: Status, val: Val)
    requires buf.Valid() && ty.IsMerged()
    modifies buf`index, buf`pos, buf`size
    ensures buf.Valid()
    ensures var u, size, cur := old(buf.Unread()), SizeOf(ty.elem.tag), OldElems(ty, n, dest);
      var total := Total(n, size);
      if n == 0 || |u| < total then st == Ok && val == VList(cur) && buf.Unread() == u
      else if n > |cur| then st == Fault && val == dest && buf.Unread() == u
      else st == Ok && val == VList(Chunks(u, size, n) + cur[n..]) && buf.Unread() == u[total..]
  {
    hide Buffer.Valid, Buffer.Unread, Chunks, Total;
    var size := SizeOf(ty.elem.tag);
    var cur := OldElems(ty, n, dest);
    TotalIsProduct(n, size);
    buf.SizeIsUnread();
    var total := size * n;
    if n > 0 && buf.size >= total && n > |cur| {
      return Fault, dest;
    }
    ghost var u := buf.Unread();
    var s, raw := buf.Read(total);
    if s == Ok && n > 0 {
      ChunksPrefix(u, size, n);
      cur := Chunks(raw, size, n) + cur[n..];
    } else if n == 0 {
      assert total == 0;
    }
    return Ok, VList(cur);
  }

  lemma {:induction false} ChunksPrefix(u: bytes, size: nat, n: nat)
    requires Total(n, size) <= |u|
    ensures Chunks(u[..Total(n, size)], size, n) == Chunks(u, size, n)
    decreases n
  {
    if n > 0 {
      var t := u[..Total(n, size)];
      ChunksPrefix(u[size..], size, n - 1);
      assert t[size..] == u[size..][..Total(n - 1, size)];
      assert t[..size] == u[..size];
    }
  }

  method DumpDict(ty: Ty, buf: Buffer, dest: Val) returns (st: Status, val: Val)
    requires buf.Valid() && ty.Dict?
    modifies buf`index, buf`pos, buf`size
    ensures buf.Valid() && DumpBody(ty, old(buf.Unread()), dest) == Out(st, val, buf.Unread())
    decreases ty, 0, 0x1_0000
  {
    hide Buffer.Valid, Buffer.Unread, CheckSize, Dump, DictPut;
    var n;
    st, n := buf.CheckDumpSize();
    if st != Ok {
      return st, dest;
    }
    var es: seq<Pair> := [];
    ghost var whole := DumpPairs(ty, n, buf.Unread(), es);
    var k := 0;
    while k < n
      invariant buf.Valid() && (0 <= k <= n || k == 0)
      invariant DumpPairs(ty, n - k, buf.Unread(), es) == whole
    {
      var e;
      st, e := DumpEntry(ty, buf);
      if st != Ok {
        return st, dest;
      }
      es := DictPut(es, e.k, e.v);
      k := k + 1;
    }
    return Ok, VDict(es);
  }

  /** One entry of a map, dumped into a fresh key and a fresh value. */
  method DumpEntry(ty: Ty, buf: Buffer) returns (st: Status, e: Pair)
    requires buf.Valid() && ty.Dict?
    modifies buf`index, buf`pos, buf`size
    ensures buf.Valid()
    ensures forall n, es {:trigger DumpPairs(ty, n, old(buf.Unread()), es)} :: n > 0 ==>
      var o := DumpPairs(ty, n, old(buf.Unread()), es);
      if st == Ok then o == DumpPairs(ty, n - 1, buf.Unread(), DictPut(es, e.k, e.v))
      else o.st == st && o.rest == buf.Unread()
    decreases ty, 0, 0
  {
    hide Buffer.Valid, Buffer.Unread, Dump, DictPut;
    e := Pair(VNil, VNil);
    var c, k, v;
    st, c := buf.ReadByte();
    if st != Ok {
      return;
    }
    if c != TDICTK {
      return Bad, e;
    }
    st, k := DumpInto(ty.key, buf, Zero(ty.key));
    if st != Ok {
      return;
    }
    st, c := buf.ReadByte();
    if st != Ok {
      return;
    }
    if c != TDICTV {
      return Bad, e;
    }
    st, v := DumpInto(ty.value, buf, Zero(ty.value));
    e := Pair(k, v);
  }
}
