/**
  The fragmented buffer: bytes appended over fragments of bounded size, read back as one
  queue, patched in place, and finished into frames.
 */
module Buffers {
  import opened Wire
  import opened Codec
  import opened Frames
  import opened Framing
  import opened Pieces
  import R = Reassembly

  /** How a push ends. */
  datatype PushVerdict = Taken | Invalid | OtherTypes | OtherObject

  datatype Option<+T> = None | Some(value: T)

  /** One fragment: heads, payload and (once finished) checksum share one backing array. */
  class Fragment {
    const b: array<byte>
    const headsLen: nat
    /** The array of the bytes to send: b, unless a checksum did not fit behind the payload. */
    var d: array<byte>
    var payloadLen: nat
    var dataLen: nat
    var schema: Schema

    constructor (b: array<byte>, headsLen: nat, payloadLen: nat, dataLen: nat, schema: Schema)
      ensures this.b == b && this.headsLen == headsLen && this.payloadLen == payloadLen
      ensures this.d == b && this.dataLen == dataLen && this.schema == schema
    {
      this.b, this.d, this.headsLen, this.payloadLen, this.dataLen, this.schema := b, b, headsLen, payloadLen,
          dataLen, schema;
    }

    ghost predicate Valid()
      reads this
    {
      headsLen + payloadLen <= b.Length && dataLen <= d.Length
    }

    function Heads(): bytes
      requires Valid()
      reads this, b
    {
      b[..headsLen]
    }

    function Payload(): bytes
      requires Valid()
      reads this, b
    {
      b[headsLen..headsLen + payloadLen]
    }

    /** k bytes of the payload from pos on. */
    method Copy(pos: nat, k: nat) returns (out: bytes)
      requires Valid() && pos + k <= payloadLen
      ensures |Payload()| == payloadLen && out == Payload()[pos..pos + k]
    {
      out := b[headsLen + pos..headsLen + pos + k];
      Inner(b[..], headsLen, payloadLen, pos, k);
      assert b[..][headsLen..headsLen + payloadLen] == Payload();
      assert b[..][headsLen + pos..headsLen + pos + k] == b[headsLen + pos..headsLen + pos + k];
    }

    function Data(): bytes
      requires Valid()
      reads this, d
    {
      d[..dataLen]
    }
  }

  /**
    A buffer. `ps` is the ghost list of its payloads; everything the methods promise is
    said about their concatenation and about the part of it not read yet.
   */
  class Buffer {
    const ck: Checksum
    var schema: Option<Schema>
    var heads: bytes
    var lenChecksum: nat
    var mtu: int
    var size: int
    var index: nat
    var pos: nat
    var windex: nat
    var fragments: map<int, Fragment>

    ghost var ps: seq<bytes>
    /** What was received, when the buffer collects fragments. */
    ghost var got: map<int, R.Part>
    /** The fragments and their backing arrays. */
    ghost var Repr: set<object>

    // ------------------------------------------------------------ invariants

    static ghost predicate Piece(f: Fragment, p: bytes)
      reads f, f.b
    {
      f.Valid() && f.Payload() == p
    }

    /** The fragments are numbered from 0 and hold the payloads. */
    static ghost predicate HeldBy(fragments: map<int, Fragment>, ps: seq<bytes>, repr: set<object>)
      reads repr
    {
      && |fragments| == |ps| && (forall i :: i in fragments <==> 0 <= i < |ps|)
      && (forall i {:trigger fragments[i]} :: 0 <= i < |ps| ==>
            fragments[i] in repr && fragments[i].b in repr && Piece(fragments[i], ps[i]))
    }

    ghost predicate Held()
      reads `fragments, `ps, `Repr, Repr
    {
      HeldBy(fragments, ps, Repr)
    }

    /** The read cursor: it may stand at the end of a fragment, and only the last may be empty. */
    ghost predicate Cursor()
      reads `ps, `index, `pos, `size
    {
      && (forall i :: 0 <= i < |ps| - 1 ==> ps[i] != [])
      && (if ps == [] then index == 0 && pos == 0 else index < |ps| && pos <= |ps[index]|)
      && size == |Rest(ps, index, pos)|
    }

    ghost predicate Valid()
      reads `fragments, `ps, `Repr, `index, `pos, `size, Repr
    {
      this !in Repr && Held() && Cursor()
    }

    /** All bytes held, read or not. */
    ghost function Contents(): bytes
      reads `ps
    {
      Concat(ps)
    }

    /** The bytes not read yet. */
    ghost function Unread(): bytes
      reads `ps, `index, `pos
    {
      Rest(ps, index, pos)
    }

    ghost function Mtu(): (m: int)
      reads `mtu
      ensures m == if mtu != 0 then mtu else 1440
    {
      if mtu == 0 then DEFAULT_MTU else mtu
    }

    /** The payload room of a fragment. */
    ghost function Avail(): int
      reads `mtu, `heads, `lenChecksum
    {
      Mtu() - |heads| - lenChecksum
    }

    /** The number that fragment i is given when it is begun, and keeps when it is sealed. */
    static function OwnFid(schema: Option<Schema>, i: int): int {
      if schema.Some? then Wrap16(i + 1) else 0
    }

    /** Fragment i as Append makes it, before it is sealed. */
    static ghost predicate Slot(heads: bytes, mtu: int, lenChecksum: nat, schema: Option<Schema>, i: int, f: Fragment)
      reads f, f.b
    {
      && f.schema.fid == OwnFid(schema, i) && f.Valid() && f.d == f.b
      && f.b.Length == mtu && f.headsLen == |heads| && f.dataLen == mtu - lenChecksum
      && (|heads| >= 18 ==> f.b[..|heads|] == PatchFid(heads, i + 1))
    }

    static ghost predicate SlotsBy(heads: bytes, mtu: int, lenChecksum: nat, schema: Option<Schema>,
                                   fragments: map<int, Fragment>, ps: seq<bytes>, repr: set<object>)
      requires HeldBy(fragments, ps, repr)
      reads repr
    {
      && (forall i {:trigger fragments[i]} :: 0 <= i < |ps| ==> Slot(heads, mtu, lenChecksum, schema, i, fragments[i]))
      && (forall i, j {:trigger fragments[i], fragments[j]} :: 0 <= i < j < |ps| ==>
            fragments[i] != fragments[j] && fragments[i].b != fragments[j].b)
    }

    ghost predicate Slots()
      requires Held()
      reads `fragments, `ps, `Repr, Repr, `heads, `mtu, `lenChecksum, `schema
    {
      SlotsBy(heads, mtu, lenChecksum, schema, fragments, ps, Repr)
    }

    /** The payloads fill their fragments in order. */
    ghost predicate Filled()
      reads `ps, `heads, `mtu, `lenChecksum, `windex
    {
      && Avail() >= 1
      && (heads == [] || |heads| >= 24)
      && (windex == |ps| || windex == |ps| - 1)
      && (mtu == 0 ==> ps == [])
      && (forall i :: 0 <= i < windex ==> |ps[i]| == Avail())
      && (forall i :: 0 <= i < |ps| ==> |ps[i]| <= Avail())
    }

    /** Ready for appending: every fragment but the last is full, and none is sealed yet. */
    ghost predicate Writable()
      reads this, Repr
    {
      Valid() && Slots() && Filled()
    }

    constructor (ck: Checksum, mtu: int)
      ensures Valid() && fresh(Repr) && ps == [] && this.ck == ck && this.mtu == mtu
      ensures heads == [] && lenChecksum == 0 && schema == None && windex == 0 && size == 0
      ensures Collects() && got == map[] && Repr == {}
      ensures mtu >= 0 ==> Writable()
    {
      this.ck, this.mtu := ck, mtu;
      schema, heads, lenChecksum, size, index, pos, windex := None, [], 0, 0, 0, 0, 0;
      fragments := map[];
      ps, Repr, got := [], {}, map[];
      R.NoneHeld(R.PLACES);
    }

    /** A buffer over bytes received elsewhere, in one fragment. */
    constructor Over(ck: Checksum, input: bytes)
      ensures Valid() && fresh(Repr) && Unread() == input && size == |input|
    {
      this.ck, mtu := ck, |input|;
      schema, heads, lenChecksum, size, index, pos, windex := None, [], 0, |input|, 0, 0, 0;
      var b := new byte[|input|](i requires 0 <= i < |input| => input[i]);
      var f := new Fragment(b, 0, |input|, |input|, Schema(0, [], [], []));
      fragments := map[0 := f];
      ps, Repr := [input], {f, b};
      new;
      assert f.Payload() == input;
      assert Rest(ps, 0, 0) == input;
    }

    // ------------------------------------------------------------ reading

    lemma Known(i: int)
      requires Held() && 0 <= i < |ps|
      ensures i in fragments && fragments[i].Valid() && fragments[i] in Repr && fragments[i].b in Repr
      ensures fragments[i].payloadLen == |ps[i]| && fragments[i].Payload() == ps[i]
    {
    }

    /** The current fragment is read up. */
    ghost predicate AtEnd()
      reads `ps, `index, `pos
    {
      index < |ps| && pos >= |ps[index]|
    }

    /** Move to the next fragment when the current one is read up. */
    method Normalise()
      requires Valid() && size > 0
      modifies `index, `pos
      ensures Valid() && ps != [] && Unread() == old(Unread()) && !AtEnd()
    {
      hide Held, Concat;
      Known(index);
      if pos >= fragments[index].payloadLen {
        if index + 1 < |ps| {
          RestNext(ps, index);
          LastRest(ps, index + 1);
        } else {
          LastRest(ps, index);
        }
        pos := pos - fragments[index].payloadLen;
        index := index + 1;
      }
    }

    static lemma LastRest(ps: seq<bytes>, i: nat)
      ensures i == |ps| - 1 ==> Rest(ps, i, |ps[i]|) == [] && Rest(ps, i, 0) == ps[i]
    {
    }

    /** The next byte, without consuming it. */
    method PeekByte() returns (ok: bool, c: byte)
      requires Valid()
      modifies `index, `pos
      ensures Valid() && Unread() == old(Unread())
      ensures ok <==> Unread() != []
      ensures ok ==> c == Unread()[0]
    {
      hide Held, Concat;
      if size == 0 {
        return false, 0;
      }
      Normalise();
      Known(index);
      var f := fragments[index];
      assert f.b[f.headsLen + pos] == f.Payload()[pos] == ps[index][pos];
      return true, f.b[f.headsLen + pos];
    }

    /** Copy what the current fragment still holds, up to n bytes. */
    method Take(n: nat) returns (out: bytes)
      requires Valid() && ps != []
      modifies `pos, `size
      ensures Valid() && |out| <= n && old(Unread()) == out + Unread()
      ensures |out| < n ==> AtEnd()
      ensures n > 0 && !old(AtEnd()) ==> out != []
    {
      hide Held, Concat, Rest, Fragment.Payload, Fragment.Valid;
      Known(index);
      var f := fragments[index];
      var k := if n <= f.payloadLen - pos then n else f.payloadLen - pos;
      out := f.Copy(pos, k);
      RestTake(ps, index, pos, k);
      Advance(k);
    }

    /** The cursor moves within the current fragment. */
    method Advance(k: nat)
      requires Valid() && ps != [] && pos + k <= |ps[index]| && |Unread()| == k + |Rest(ps, index, pos + k)|
      modifies `pos, `size
      ensures Valid() && pos == old(pos) + k && index == old(index)
    {
      hide Held, Rest;
      size := size - k;
      pos := pos + k;
    }

    /** The next n bytes, over as many fragments as they take; too few change nothing. */
    method Read(n: nat) returns (st: Status, out: bytes)
      requires Valid()
      modifies `index, `pos, `size
      ensures Valid()
      ensures st == (if n <= |old(Unread())| then Ok else Short)
      ensures st == Ok ==> out == old(Unread())[..n] && Unread() == old(Unread())[n..]
      ensures st != Ok ==>
        out == [] && Unread() == old(Unread()) && index == old(index) && pos == old(pos)
        && size == old(size)
    {
      SizeIsUnread();
      hide Valid, Rest;
      if n == 0 {
        return Ok, [];
      }
      if size < n {
        return Short, [];
      }
      Normalise();
      out := Take(n);
      if |out| < n {
        ghost var u := old(Unread());
        var more := ReadOn(n - |out|);
        assert u == (out + more) + Unread();
        out := out + more;
      }
      CutFront(old(Unread()), out, Unread());
      st := Ok;
    }

    /** Reading on in the fragments behind the current one. */
    method ReadOn(n: nat) returns (out: bytes)
      requires Valid() && ps != [] && AtEnd() && 0 < n <= |Unread()|
      modifies `index, `pos, `size
      ensures Valid() && |out| == n && old(Unread()) == out + Unread()
    {
      hide Valid, Rest;
      out := [];
      ghost var u := Unread();
      while |out| < n
        invariant Valid() && ps != []
        invariant |out| <= n && u == out + Unread()
        invariant |out| < n ==> AtEnd()
        decreases n - |out|
      {
        SizeIsUnread();
        ghost var got, left := out, Unread();
        Normalise();
        var part := Take(n - |out|);
        out := out + part;
        assert got + left == (got + part) + Unread();
      }
    }

    lemma SizeIsUnread()
      requires Valid()
      ensures size == |Unread()|
    {
    }

    /** What is unread is the end of what is held. */
    lemma UnreadIsTail()
      requires Valid()
      ensures 0 <= size <= |Contents()| && Unread() == Contents()[|Contents()| - size..]
    {
      hide Held, Concat;
      if ps == [] {
        ConcatNone(ps);
      } else {
        RestIsTail(ps, index, pos);
      }
    }

    method ReadByte() returns (st: Status, c: byte)
      requires Valid()
      modifies `index, `pos, `size
      ensures Valid()
      ensures st == (if old(Unread()) != [] then Ok else Short)
      ensures st == Ok ==> c == old(Unread())[0] && Unread() == old(Unread())[1..]
      ensures st != Ok ==> Unread() == old(Unread())
    {
      hide Valid, Rest;
      var out;
      st, out := Read(1);
      c := if st == Ok then out[0] else 0;
    }

    method DumpSize2() returns (st: Status, n: int)
      requires Valid()
      modifies `index, `pos, `size
      ensures Valid()
      ensures st == (if |old(Unread())| >= 2 then Ok else Short)
      ensures st == Ok ==> n == Int16(old(Unread())) && Unread() == old(Unread())[2..]
      ensures st != Ok ==> Unread() == old(Unread())
    {
      hide Valid, Rest, Wrap16;
      var out;
      st, out := Read(2);
      n := if st == Ok then Int16(out) else 0;
    }

    method DumpSize4() returns (st: Status, n: int)
      requires Valid()
      modifies `index, `pos, `size
      ensures Valid()
      ensures st == (if |old(Unread())| >= 4 then Ok else Short)
      ensures st == Ok ==> n == Int32(old(Unread())) && Unread() == old(Unread())[4..]
      ensures st != Ok ==> Unread() == old(Unread())
    {
      hide Valid, Rest, Wrap32;
      var out;
      st, out := Read(4);
      n := if st == Ok then Int32(out) else 0;
    }

    /** The size of what follows, checked against what is there. */
    method CheckDumpSizet() returns (st: Status, n: int)
      requires Valid()
      modifies `index, `pos, `size
      ensures Valid()
      ensures var u := old(Unread());
        if |u| < 4 then st == Short && Unread() == u
        else
          n == (if st == Ok then Int32(u) else 0) && Unread() == u[4..]
          && st == if |u| - 4 < Int32(u) then Short else Ok
    {
      hide Valid, Rest, Int32;
      st, n := DumpSize4();
      SizeIsUnread();
      if st == Ok && size < n {
        return Short, 0;
      }
    }

    /** The size and the count of a container. */
    method CheckDumpSize() returns (st: Status, count: int)
      requires Valid()
      modifies `index, `pos, `size
      ensures Valid()
      ensures var z := CheckSize(old(Unread()));
        st == z.st && Unread() == z.rest && (st == Ok ==> count == z.count)
    {
      hide Valid, Rest, Int16, Int32;
      var n;
      st, n := CheckDumpSizet();
      count := 0;
      if st == Ok {
        st, count := DumpSize2();
      }
    }

    /** Reading starts over at the first byte. */
    method Rewind()
      requires this !in Repr && Held()
      modifies `index, `pos, `size
      ensures Held() && index == 0 && pos == 0 && size == |Contents()| && Unread() == Contents()
      ensures (forall i :: 0 <= i < |ps| - 1 ==> ps[i] != []) ==> Valid()
    {
      hide Held, Concat;
      index, pos, size := 0, 0, 0;
      Count();
      var i := 0;
      ConcatNone(ps[..0]);
      while i < |fragments|
        invariant 0 <= i <= |ps| && size == |Concat(ps[..i])| && index == 0 && pos == 0
      {
        Known(i);
        size := size + fragments[i].payloadLen;
        ConcatLast(ps[..i + 1]);
        assert ps[..i + 1][..i] == ps[..i];
        i := i + 1;
      }
      assert ps[..|ps|] == ps;
      if ps != [] { RestOfAll(ps); } else { ConcatNone(ps); }
    }

    lemma Count()
      requires Held()
      ensures |fragments| == |ps|
    {
    }

    // ------------------------------------------------------------ appending

    /** Only x was appended: configuration and cursor are as before. */
    twostate predicate Appended(x: bytes)
      reads this
    {
      && Contents() == old(Contents()) + x && size == old(size) + |x| && Unread() == old(Unread()) + x
      && index == old(index) && pos == old(pos)
      && heads == old(heads) && lenChecksum == old(lenChecksum) && Mtu() == old(Mtu()) && schema == old(schema)
      && (old(mtu) != 0 ==> mtu == old(mtu))
    }

    /** Put a fragment number into the heads stored in a fragment. */
    static method UpdateFragmentId(f: Fragment, heads: bytes, n: int)
      requires f.Valid() && f.d == f.b && (heads == [] || 18 <= |heads| <= f.dataLen)
      modifies f.b
      ensures |heads| >= 18 ==> f.b[..|heads|] == PatchFid(old(f.b[..|heads|]), n)
      ensures forall i :: 0 <= i < f.b.Length && (i < 16 || 18 <= i || heads == []) ==> f.b[i] == old(f.b[i])
    {
      if |heads| == 0 || f.dataLen < 17 {
        return;
      }
      var s := Le16(n);
      f.d[16], f.d[17] := s[0], s[1];
    }

    /** A fresh fragment without payload, numbered i. */
    method NewFragment(i: nat) returns (f: Fragment)
      requires mtu >= 1 && Avail() >= 1 && (heads == [] || |heads| >= 24)
      ensures fresh(f) && fresh(f.b) && Slot(heads, mtu, lenChecksum, schema, i, f) && Piece(f, [])
      ensures schema.Some? ==> f.schema == schema.value.(fid := Wrap16(i + 1))
    {
      var b := new byte[mtu](_ => 0);
      forall j | 0 <= j < |heads| {
        b[j] := heads[j];
      }
      assert b[..|heads|] == heads;
      var sc := if schema.Some? then schema.value.(fid := Wrap16(i + 1)) else Schema(0, [], [], []);
      f := new Fragment(b, |heads|, 0, mtu - lenChecksum, sc);
      UpdateFragmentId(f, heads, i + 1);
    }

    /** Take a fresh fragment in behind the others. */
    method Enlist(f: Fragment)
      requires Writable() && mtu != 0 && windex == |ps| && f !in Repr && f.b !in Repr
      requires Slot(heads, mtu, lenChecksum, schema, windex, f) && Piece(f, [])
      modifies `fragments, `ps, `Repr
      ensures Writable() && Repr == old(Repr) + {f, f.b} && Appended([])
      ensures ps == old(ps) + [[]]
    {
      hide Piece, Slot, HeldBy, SlotsBy, Concat, Rest;
      AddEmpty(ps, index, pos);
      OneMore(heads, mtu, lenChecksum, schema, fragments, ps, Repr, f);
      fragments := fragments[windex := f];
      ps := ps + [[]];
      Repr := Repr + {f, f.b};
    }

    static lemma OneMore(heads: bytes, mtu: int, lenChecksum: nat, schema: Option<Schema>,
                         fragments: map<int, Fragment>, ps: seq<bytes>, repr: set<object>, f: Fragment)
      requires HeldBy(fragments, ps, repr) && SlotsBy(heads, mtu, lenChecksum, schema, fragments, ps, repr)
      requires f !in repr && f.b !in repr && Slot(heads, mtu, lenChecksum, schema, |ps|, f) && Piece(f, [])
      ensures HeldBy(fragments[|ps| := f], ps + [[]], repr + {f, f.b})
      ensures SlotsBy(heads, mtu, lenChecksum, schema, fragments[|ps| := f], ps + [[]], repr + {f, f.b})
    {
      hide Piece, Slot;
    }

    /** The next fragment: a fresh array with the heads in it and its own number patched in. */
    method AddFragment()
      requires Writable() && windex == |ps|
      modifies `mtu, `fragments, `ps, `Repr
      ensures Writable() && fresh(Repr - old(Repr)) && Appended([])
      ensures ps == old(ps) + [[]] && windex == |ps| - 1
    {
      hide Piece, Slot, Concat, Rest;
      if mtu == 0 {
        mtu := DEFAULT_MTU;
      }
      var f := NewFragment(windex);
      Enlist(f);
    }

    /** Copy bytes behind the payload of a fragment. */
    static method Extend(f: Fragment, x: bytes, ghost heads: bytes, ghost mtu: int, ghost lenChecksum: nat,
                         ghost schema: Option<Schema>, ghost i: int)
      requires Slot(heads, mtu, lenChecksum, schema, i, f) && f.headsLen + f.payloadLen + |x| <= f.b.Length
      modifies f`payloadLen, f.b
      ensures Slot(heads, mtu, lenChecksum, schema, i, f) && Piece(f, old(f.Payload()) + x)
    {
      var at := f.headsLen + f.payloadLen;
      forall i | 0 <= i < |x| {
        f.b[at + i] := x[i];
      }
      f.payloadLen := f.payloadLen + |x|;
      assert f.b[..f.headsLen] == old(f.b[..f.headsLen]);
    }

    lemma RoomInside(i: int, f: Fragment)
      requires Slot(heads, mtu, lenChecksum, schema, i, f) && mtu != 0
      ensures f.headsLen == |heads| && f.b.Length == |heads| + Avail() + lenChecksum
    {
    }

    /** Append within the current fragment. */
    method Fill(x: bytes)
      requires Writable() && windex == |ps| - 1 && |ps[windex]| + |x| <= Avail()
      modifies `ps, `size, fragments[windex], fragments[windex].b
      ensures Writable() && Appended(x)
      ensures ps == old(ps)[windex := old(ps)[windex] + x]
    {
      hide Concat, Rest, Held, Slots;
      Known(windex);
      GrowLast(ps, x, index, pos);
      Grow(windex, fragments[windex], x);
      size := size + |x|;
    }

    /** A longer payload in one fragment; the others are as they were. */
    method Grow(i: nat, f: Fragment, x: bytes)
      requires this !in Repr && Held() && Slots() && i < |ps| && i in fragments && fragments[i] == f
      requires mtu != 0 && |ps[i]| + |x| <= Avail()
      modifies `ps, f`payloadLen, f.b
      ensures Held() && Slots() && ps == old(ps)[i := old(ps)[i] + x]
    {
      hide Slot, Piece;
      Known(i);
      RoomInside(i, f);
      Extend(f, x, heads, mtu, lenChecksum, schema, i);
      ps := ps[i := ps[i] + x];
    }

    /** The fragment in use is the last one and not empty: so it is once something was appended. */
    ghost predicate Settled()
      reads `ps, `windex
    {
      windex == |ps| - 1 && ps[windex] != []
    }

    /** The payload room of a fragment, from the capacity of the one being read: all have the same. */
    method WAvail() returns (a: nat)
      requires Writable() && windex == |ps| - 1
      ensures a == Avail()
    {
      hide Piece, Slot;
      Known(index);
      RoomInside(index, fragments[index]);
      a := fragments[index].b.Length - |heads| - lenChecksum;
    }

    /** Have a fragment in use, starting one if need be. */
    method Ready()
      requires Writable()
      modifies `mtu, `fragments, `ps, `Repr
      ensures Writable() && windex == |ps| - 1 && fresh(Repr - old(Repr)) && Appended([]) && windex == old(windex)
      ensures old(windex) == |old(ps)| ==> ps[windex] == []
      ensures old(windex) < |old(ps)| ==> ps == old(ps)
    {
      hide Held, Slots, Concat, Rest;
      Count();
      if windex == |fragments| {
        AddFragment();
      }
    }

    /** One round of Append: start a fragment if need be, and put in what has room. */
    method AppendSome(x: bytes) returns (n: nat)
      requires Writable() && x != []
      modifies this, Repr
      ensures Writable() && fresh(Repr - old(Repr)) && n <= |x| && Appended(x[..n])
      ensures n == |x| ==> Settled()
      ensures n == 0 ==> windex == |ps| && old(windex) < old(|ps|)
    {
      hide Writable, Concat, Rest;
      InRange();
      Ready();
      n := AppendHere(x);
      assert [] + x[..n] == x[..n];
    }

    lemma InRange()
      requires Writable()
      ensures windex <= |ps|
    {
    }

    /** Put in what has room in the fragment in use, and be done with it when that is not all. */
    method AppendHere(x: bytes) returns (n: nat)
      requires Writable() && windex == |ps| - 1 && x != []
      modifies this, Repr
      ensures Writable() && Repr == old(Repr) && n <= |x| && Appended(x[..n])
      ensures n == |x| ==> Settled()
      ensures n == 0 ==> windex == |ps| && old(ps[windex]) != []
    {
      hide Writable, Concat, Rest;
      var a := WAvail();
      var have := Have();
      n := if have + |x| <= a then |x| else a - have;
      Fill(x[..n]);
      if n < |x| {
        MoveOn();
      }
    }

    /** The bytes in the fragment in use. */
    method Have() returns (n: nat)
      requires Writable() && windex == |ps| - 1
      ensures n == |ps[windex]| <= Avail() && 1 <= Avail()
      ensures windex in fragments && fragments[windex] in Repr && fragments[windex].b in Repr
    {
      hide Held, Slots, Concat, Rest;
      Known(windex);
      n := fragments[windex].payloadLen;
    }

    /** The fragment in use is full. */
    method MoveOn()
      requires Writable() && windex == |ps| - 1 && |ps[windex]| == Avail()
      modifies `windex
      ensures Writable() && windex == |ps|
    {
      hide Held, Slots, Concat, Rest;
      windex := windex + 1;
    }

    /** Append bytes, filling one fragment after the other. */
    method Append(x: bytes)
      requires Writable()
      modifies this, Repr
      ensures Writable() && fresh(Repr - old(Repr)) && Appended(x)
      ensures x != [] || old(Settled()) ==> Settled()
    {
      hide Writable, Concat, Rest;
      var done := 0;
      assert x[..0] == [];
      while done < |x|
        invariant Writable() && fresh(Repr - old(Repr))
        invariant done <= |x| && Appended(x[..done])
        invariant if done == |x| then x != [] || old(Settled()) ==> Settled() else true
        decreases |x| - done, if windex < |ps| then 1 else 0
      {
        var n := AppendSome(x[done..]);
        assert x[..done + n] == x[..done] + x[done..][..n];
        done := done + n;
      }
      assert x[..|x|] == x;
    }

    method AppendByte(c: byte)
      requires Writable()
      modifies this, Repr
      ensures Writable() && fresh(Repr - old(Repr)) && Appended([c]) && Settled()
    {
      hide Writable;
      Append([c]);
    }

    method AppendSize2(n: int)
      requires Writable()
      modifies this, Repr
      ensures Writable() && fresh(Repr - old(Repr)) && Appended(Le16(n)) && Settled()
    {
      hide Writable;
      Append(Le16(n));
    }

    method AppendSize4(n: int)
      requires Writable()
      modifies this, Repr
      ensures Writable() && fresh(Repr - old(Repr)) && Appended(Le32(n)) && Settled()
    {
      hide Writable;
      Append(Le32(n));
    }

    // ------------------------------------------------------------ patching

    /** Where the next byte will go. */
    method WritePos() returns (i: nat, p: nat)
      requires Writable() && Settled()
      ensures Full(i, Avail()) + p == |Contents()| && p < Avail()
    {
      hide Held, Slots, Concat, Full, Rest;
      Count();
      i := |fragments| - 1;
      Known(i);
      p := fragments[i].payloadLen;
      FullLength(ps, Avail());
      var a := WAvail();
      if p >= a {
        p := 0;
        i := i + 1;
        assert Full(i, a) == a + Full(i - 1, a) by { FullStep(i, a); }
      }
    }

    static lemma FullStep(i: nat, a: nat)
      requires i > 0
      ensures Full(i, a) == a + Full(i - 1, a)
    {
    }

    /** Only payload bytes changed, none were added. */
    twostate predicate Patched()
      reads this
    {
      && |Contents()| == |old(Contents())| && size == old(size) && index == old(index) && pos == old(pos)
      && heads == old(heads) && lenChecksum == old(lenChecksum) && Mtu() == old(Mtu()) && schema == old(schema)
      && (old(mtu) != 0 ==> mtu == old(mtu))
    }

    /** One byte of a stored payload replaced. */
    static method Poke(f: Fragment, p: nat, c: byte, ghost heads: bytes, ghost mtu: int, ghost lenChecksum: nat,
                       ghost schema: Option<Schema>, ghost i: int)
      requires Slot(heads, mtu, lenChecksum, schema, i, f) && p < f.payloadLen
      modifies f.b
      ensures Slot(heads, mtu, lenChecksum, schema, i, f) && Piece(f, Put(old(f.Payload()), p, [c]))
    {
      f.b[f.headsLen + p] := c;
      assert f.b[..f.headsLen] == old(f.b[..f.headsLen]);
    }

    method SetByte(i: nat, p: nat, c: byte)
      requires Writable() && i < |ps| && p < |ps[i]| && i in fragments
      modifies `ps, fragments[i].b
      ensures Writable() && Patched() && windex == old(windex) && ps == old(ps)[i := Put(old(ps)[i], p, [c])]
      ensures old(Settled()) ==> Settled()
    {
      hide Concat, Rest, Held, Slots;
      PutInPiece(ps, i, p, [c]);
      RestSize(ps, index, pos, i, Put(ps[i], p, [c]));
      Alter(i, fragments[i], p, c);
    }

    /** One byte of one payload replaced; the other fragments are as they were. */
    method Alter(i: nat, f: Fragment, p: nat, c: byte)
      requires this !in Repr && Held() && Slots() && i < |ps| && i in fragments && fragments[i] == f && p < |ps[i]|
      modifies `ps, f.b
      ensures Held() && Slots() && ps == old(ps)[i := Put(old(ps)[i], p, [c])]
    {
      hide Slot, Piece, Put;
      Known(i);
      Poke(f, p, c, heads, mtu, lenChecksum, schema, i);
      ps := ps[i := Put(ps[i], p, [c])];
    }

    static lemma RestSize(ps: seq<bytes>, index: nat, pos: nat, i: nat, q: bytes)
      requires i < |ps| && |q| == |ps[i]|
      ensures |Rest(ps[i := q], index, pos)| == |Rest(ps, index, pos)|
    {
      var qs := ps[i := q];
      if index < i {
        ConcatSplit(ps[index + 1..], i - index - 1);
        ConcatSplit(qs[index + 1..], i - index - 1);
        assert qs[index + 1..][..i - index - 1] == ps[index + 1..][..i - index - 1];
        assert qs[index + 1..][i - index..] == ps[index + 1..][i - index..];
      } else {
        assert index < |ps| ==> qs[index + 1..] == ps[index + 1..];
      }
    }

    /** Overwrite four bytes from a position on, across a fragment boundary if need be. */
    method UpdateSize(at: nat, from: nat, value: int)
      requires Writable() && Settled() && from < Avail()
      requires Full(at, Avail()) + from + 4 <= |Contents()|
      modifies `ps, Repr
      ensures Writable() && Settled() && Patched() && Repr == old(Repr)
      ensures Contents() == Put(old(Contents()), Full(at, old(Avail())) + from, Le32(value))
      ensures size == old(size) <= |Contents()| && Unread() == Contents()[|Contents()| - size..]
    {
      hide Writable, Concat, Full, Rest, Put;
      var s := Le32(value);
      var i: nat, p: nat := at, from;
      ghost var a: nat := Avail();
      ghost var c0 := Contents();
      ghost var base := Full(at, a) + from;
      assert c0 == Put(c0, base, s[..0]) by { PutNothing(c0, base, s[..0]); }
      for k := 0 to 4
        invariant Writable() && Settled() && Patched() && Repr == old(Repr) && fragments == old(fragments)
        invariant Full(i, a) + p == base + k && p <= a
        invariant Contents() == Put(c0, base, s[..k])
      {
        var room := WAvail();
        if p >= room {
          FullStep(i + 1, a);
          p := 0;
          i := i + 1;
        }
        Place(i, p);
        PutMore(c0, base, s[..k], s[k]);
        assert s[..k + 1] == s[..k] + [s[k]];
        PutInPiece(ps, i, p, [s[k]]);
        SetByte(i, p, s[k]);
        p := p + 1;
      }
      assert s[..4] == s;
      WritableIsValid();
      UnreadIsTail();
    }

    lemma WritableIsValid()
      requires Writable()
      ensures Valid()
    {
    }

    lemma Place(i: nat, p: nat)
      requires Writable() && Settled() && p < Avail() && Full(i, Avail()) + p < |Contents()|
      ensures i < |ps| && p < |ps[i]| && |Concat(ps[..i])| == Full(i, Avail())
      ensures i in fragments && fragments[i].b in Repr
    {
      hide Concat, Full, Rest, Slots;
      if ps == [] { ConcatNone(ps); }
      Locate(ps, i, p, Avail());
    }

    static lemma PutNothing(s: bytes, p: nat, x: bytes)
      requires x == [] && p <= |s|
      ensures Put(s, p, x) == s
    {
    }

    /** Bytes were added behind the old ones; configuration and cursor are as before. */
    twostate predicate Kept()
      reads this
    {
      && |old(Contents())| <= |Contents()| && size - old(size) == |Contents()| - |old(Contents())|
      && index == old(index) && pos == old(pos)
      && heads == old(heads) && lenChecksum == old(lenChecksum) && Mtu() == old(Mtu()) && schema == old(schema)
      && (old(mtu) != 0 ==> mtu == old(mtu))
    }

    // ------------------------------------------------------------ finishing

    /** The heads of fragment i of n when it goes out: its number, and the size of a last payload. */
    static ghost function SealedHeads(heads: bytes, ps: seq<bytes>, i: nat): bytes
      requires i < |ps| && |heads| >= 24
    {
      if i < |ps| - 1 then PatchFid(heads, i + 1) else PatchSize(PatchFid(heads, -|ps|), |ps[i]|)
    }

    /** The bytes of fragment i when it goes out. */
    static ghost function SealedData(ck: Checksum, heads: bytes, ps: seq<bytes>, i: nat): bytes
      requires i < |ps| && (heads == [] || |heads| >= 24)
    {
      if heads == [] then ps[i] else Seal(ck, SealedHeads(heads, ps, i) + ps[i])
    }

    /** Fragment f carries body, and nothing behind it. */
    static ghost predicate Unsealed(f: Fragment, p: bytes, body: bytes)
      reads f, f.b
    {
      Piece(f, p) && f.d == f.b && f.Data() == body && f.headsLen + f.payloadLen == f.dataLen
    }

    static ghost predicate SealedAs(f: Fragment, p: bytes, data: bytes)
      reads f, f.b, f.d
    {
      Piece(f, p) && f.Data() == data
    }

    /** Append the checksum array of what the fragment holds so far, in a larger array if there is no room. */
    static method AppendChecksum(ck: Checksum, f: Fragment, ghost p: bytes, ghost body: bytes)
      requires Unsealed(f, p, body)
      modifies f`dataLen, f`d, f.b
      ensures SealedAs(f, p, Seal(ck, body)) && (f.d == f.b || fresh(f.d))
    {
      var sum := ck(f.b[..f.dataLen]);
      var tail := ByteArrayHead(|sum|) + sum;
      var at := f.dataLen;
      assert f.Data() == body;
      if at + |tail| > f.b.Length {
        var larger := new byte[at + |tail|](i requires 0 <= i < at + |tail| reads f, f.b =>
          if i < f.b.Length then f.b[i] else 0);
        assert larger[..at] == body;
        f.d := larger;
      }
      WriteTail(f, at, tail, p, body);
    }

    /** Write bytes behind those to send. */
    static method WriteTail(f: Fragment, at: nat, tail: bytes, ghost p: bytes, ghost body: bytes)
      requires Piece(f, p) && f.dataLen == at == |body| && f.d[..at] == body && at + |tail| <= f.d.Length
      requires f.d == f.b ==> f.headsLen + f.payloadLen <= at
      modifies f`dataLen, f.d
      ensures SealedAs(f, p, body + tail)
    {
      forall i | 0 <= i < |tail| {
        f.d[at + i] := tail[i];
      }
      f.dataLen := at + |tail|;
      assert f.Payload() == old(f.Payload());
      assert f.Data() == body + tail;
    }

    /** Cut the last fragment to its real size and write that size and its final number into it. */
    static method CloseLast(f: Fragment, heads: bytes, mtu: int, lenChecksum: nat, ghost schema: Option<Schema>, i: nat,
                            ghost p: bytes)
      requires Slot(heads, mtu, lenChecksum, schema, i, f) && Piece(f, p) && (heads == [] || |heads| >= 24)
      requires |heads| + |p| + lenChecksum <= mtu
      modifies f`dataLen, f.b
      ensures Piece(f, p) && f.d == f.b
      ensures heads == [] ==> Unsealed(f, p, p)
      ensures |heads| >= 24 ==> Unsealed(f, p, PatchSize(PatchFid(heads, -(i + 1)), |p|) + p)
    {
      hide PatchFid, PatchSize;
      var n := |heads|;
      var length := f.payloadLen;
      f.dataLen := n + length;
      if n == 0 {
        assert f.Data() == f.Payload();
        return;
      }
      UpdateFragmentId(f, heads, -(i + 1));
      PatchTwice(heads, i + 1, -(i + 1));
      assert f.Payload() == p;
      WriteSizes(f, n, length);
      assert f.Data() == f.b[..n] + f.Payload();
    }

    static lemma PatchTwice(heads: bytes, m: int, n: int)
      requires |heads| >= 18
      ensures PatchFid(PatchFid(heads, m), n) == PatchFid(heads, n)
    {
      hide Le16;
    }

    /** Overwrite the sizes at the end of the heads stored in a fragment. */
    static method WriteSizes(f: Fragment, n: nat, length: nat)
      requires f.Valid() && 6 <= n == f.headsLen
      modifies f.b
      ensures f.b[..n] == PatchSize(old(f.b[..n]), length) && f.Payload() == old(f.Payload())
    {
      hide Le16, Le32;
      var sizes := Le32(length + 2) + Le16(length);
      forall k | 0 <= k < 6 {
        f.b[n - 6 + k] := sizes[k];
      }
      assert f.b[..n - 6] == old(f.b[..n])[..n - 6];
      assert f.b[n - 6..n] == sizes;
      assert f.b[..n] == f.b[..n - 6] + f.b[n - 6..n];
      assert f.Payload() == old(f.Payload());
    }

    /** A full fragment, as it stands, already has the bytes it goes out with. */
    lemma FullIsUnsealed(i: nat)
      requires Writable() && Settled() && i < windex && |heads| >= 24
      ensures i in fragments && Unsealed(fragments[i], ps[i], SealedHeads(heads, ps, i) + ps[i])
          && fragments[i].d == fragments[i].b
    {
      hide PatchFid, PatchSize, Concat;
      Known(i);
      var f := fragments[i];
      assert Slot(heads, mtu, lenChecksum, schema, i, f);
      assert |ps[i]| == Avail();
      assert f.Data() == f.b[..|heads|] + f.Payload();
    }

    /** The same without heads, when nothing is sealed. */
    lemma FullIsPlain(i: nat)
      requires Writable() && Settled() && i < windex && heads == []
      ensures i in fragments && SealedAs(fragments[i], ps[i], ps[i]) && fragments[i].d == fragments[i].b
    {
      hide Concat;
      Known(i);
      var f := fragments[i];
      assert Slot(heads, mtu, lenChecksum, schema, i, f);
      assert |ps[i]| == Avail();
      assert f.Data() == f.Payload();
    }

    /** The first `done` fragments are as they go out, the others lack their checksum. */
    static ghost predicate SealedUpTo(ck: Checksum, heads: bytes,
                                      fragments: map<int, Fragment>, ps: seq<bytes>, done: nat, repr: set<object>)
      requires |heads| >= 24
      reads repr
    {
      forall i {:trigger fragments[i]} :: 0 <= i < |ps| ==>
        (&& i in fragments && fragments[i] in repr && fragments[i].b in repr
         && fragments[i].d in repr
         && (if i < done then SealedAs(fragments[i], ps[i], SealedData(ck, heads, ps, i))
             else Unsealed(fragments[i], ps[i], SealedHeads(heads, ps, i) + ps[i])))
    }

    /** The fragments carry the numbers they were begun with. */
    ghost predicate Numbered()
      reads `fragments, `ps, `schema, `Repr, Repr
    {
      forall i {:trigger fragments[i]} :: 0 <= i < |ps| ==>
        i in fragments && fragments[i] in Repr && fragments[i].schema.fid == OwnFid(schema, i)
    }

    /** All fragments are as they go out. */
    ghost predicate Finished()
      requires Held() && (heads == [] || |heads| >= 24)
      reads this, Repr
    {
      forall i {:trigger fragments[i]} :: 0 <= i < |ps| ==>
        fragments[i].d in Repr && SealedAs(fragments[i], ps[i], SealedData(ck, heads, ps, i))
    }

    /** Close the last fragment, then seal all of them with their checksums. */
    method Finish()
      requires Writable() && Settled()
      modifies Repr, `Repr
      ensures Valid() && Finished() && Numbered() && fresh(Repr - old(Repr))
    {
      hide Writable, Held, Slots, Finished, Numbered, SealedUpTo, Separate, Concat, Rest;
      SlotsAreNumbered();
      LastIsHeld();
      Close(fragments[windex]);
      if |heads| == 0 {
        return;
      }
      KeysAre();
      SealAll();
    }

    lemma LastIsHeld()
      requires Writable() && Settled()
      ensures windex in fragments && fragments[windex] in Repr && fragments[windex].b in Repr
    {
    }

    /** Close the last fragment: without heads that is all, and else the checksums are missing. */
    method Close(f: Fragment)
      requires Writable() && Settled() && Numbered() && windex in fragments && fragments[windex] == f
      modifies f`dataLen, f.b
      ensures this !in Repr && Cursor() && Numbered()
      ensures heads == [] ==> Held() && Finished()
      ensures heads != [] ==>
        |heads| >= 24 && Held()
        && SealedUpTo(ck, heads, fragments, ps, 0, Repr) && Separate(fragments, |ps|, Repr)
    {
      hide Piece, Slot, Unsealed, SealedAs, Concat, Rest, SealedHeads, SealedData, PatchFid, PatchSize;
      Known(windex);
      ghost var n := windex;
      forall i | 0 <= i < n && heads != [] ensures
        Unsealed(fragments[i], ps[i], SealedHeads(heads, ps, i) + ps[i]) && fragments[i].d == fragments[i].b
      {
        FullIsUnsealed(i);
      }
      forall i | 0 <= i < n && heads == [] ensures
        SealedAs(fragments[i], ps[i], ps[i]) && fragments[i].d == fragments[i].b
      {
        FullIsPlain(i);
      }
      CloseLast(f, heads, mtu, lenChecksum, schema, windex, ps[windex]);
      if |heads| == 0 {
        PlainIsHeld();
      } else {
        LastHeads();
      }
    }

    lemma SlotsAreNumbered()
      requires Writable()
      ensures Numbered()
    {
      forall i {:trigger fragments[i]} | 0 <= i < |ps| ensures i in fragments && fragments[i] in Repr
        && fragments[i].schema.fid == OwnFid(schema, i)
      {
        assert Slot(heads, mtu, lenChecksum, schema, i, fragments[i]);
      }
    }

    lemma LastHeads()
      requires ps != [] && |heads| >= 24
      ensures SealedHeads(heads, ps, |ps| - 1) == PatchSize(PatchFid(heads, -|ps|), |ps[|ps| - 1]|)
    {
    }

    lemma PlainIsHeld()
      requires heads == [] && |fragments| == |ps| && (forall i :: i in fragments <==> 0 <= i < |ps|)
      requires forall i {:trigger fragments[i]} :: 0 <= i < |ps| ==>
        fragments[i] in Repr && fragments[i].b in Repr && fragments[i].d == fragments[i].b
      requires forall i {:trigger fragments[i]} :: 0 <= i < |ps| - 1 ==> SealedAs(fragments[i], ps[i], ps[i])
      requires |ps| > 0 && Unsealed(fragments[|ps| - 1], ps[|ps| - 1], ps[|ps| - 1])
      ensures Held() && Finished()
    {
      hide Piece, Concat;
      forall i {:trigger fragments[i]} | 0 <= i < |ps| ensures SealedAs(fragments[i], ps[i], ps[i])
          && Piece(fragments[i], ps[i]) {
        if i == |ps| - 1 { assert Unsealed(fragments[i], ps[i], ps[i]); }
      }
    }

    /** No two fragments share an array, and those that got a new one share it with none. */
    static ghost predicate Separate(fragments: map<int, Fragment>, n: nat, repr: set<object>)
      requires forall i :: 0 <= i < n ==> i in fragments
      reads repr
    {
      && (forall i {:trigger fragments[i]} :: 0 <= i < n ==>
            fragments[i] in repr && fragments[i].b in repr
                && (fragments[i].d == fragments[i].b || fragments[i].d !in repr))
      && (forall i, j {:trigger fragments[i], fragments[j]} :: 0 <= i < j < n ==>
            fragments[i] != fragments[j] && fragments[i].b != fragments[j].b)
    }

    /** Seal one fragment; `was` are the objects there were before the first. */
    method SealOne(i: nat, f: Fragment, ghost was: set<object>)
      requires |heads| >= 24 && i < |ps| && (forall j :: 0 <= j < |ps| ==> j in fragments) && fragments[i] == f
      requires was <= Repr && Separate(fragments, |ps|, was) && SealedUpTo(ck, heads, fragments, ps, i, Repr)
      modifies f`dataLen, f`d, f.b, `Repr
      ensures old(Repr) <= Repr && fresh(Repr - old(Repr)) && (this !in old(Repr) ==> this !in Repr)
      ensures Separate(fragments, |ps|, was) && SealedUpTo(ck, heads, fragments, ps, i + 1, Repr)
    {
      hide Piece, Unsealed, SealedAs, SealedHeads, SealedData, Seal;
      SealedIs(i);
      AppendChecksum(ck, f, ps[i], SealedHeads(heads, ps, i) + ps[i]);
      Repr := Repr + {f.d};
    }

    method SealAll()
      requires Valid() && |heads| >= 24 && windex == |ps| - 1
      requires SealedUpTo(ck, heads, fragments, ps, 0, Repr)
      requires forall i :: 0 <= i < |ps| ==> i in fragments
      requires Separate(fragments, |ps|, Repr) && Numbered()
      modifies Repr, `Repr
      ensures Valid() && Finished() && Numbered() && fresh(Repr - old(Repr))
    {
      hide Separate, SealedUpTo, Concat, Rest, Held;
      var i := 0;
      Count();
      KeysAre();
      ghost var was := Repr;
      while i <= windex
        invariant 0 <= i <= |ps| && this !in Repr && Cursor()
        invariant |fragments| == |ps| && (forall i :: i in fragments <==> 0 <= i < |ps|)
        invariant was <= Repr && fresh(Repr - was)
        invariant Separate(fragments, |ps|, was) && SealedUpTo(ck, heads, fragments, ps, i, Repr) && Numbered()
      {
        InWas(i, was);
        SealOne(i, fragments[i], was);
        i := i + 1;
      }
      SealedIsHeld();
    }

    lemma InWas(i: nat, was: set<object>)
      requires i < |ps| && (forall j :: 0 <= j < |ps| ==> j in fragments) && Separate(fragments, |ps|, was)
      ensures fragments[i] in was && fragments[i].b in was
    {
    }

    lemma SealedIs(i: nat)
      requires i < |ps| && |heads| >= 24
      ensures SealedData(ck, heads, ps, i) == Seal(ck, SealedHeads(heads, ps, i) + ps[i])
    {
    }

    lemma KeysAre()
      requires Held()
      ensures forall i :: i in fragments <==> 0 <= i < |ps|
    {
    }

    lemma SealedIsHeld()
      requires |heads| >= 24 && |fragments| == |ps| && (forall i :: i in fragments <==> 0 <= i < |ps|)
      requires SealedUpTo(ck, heads, fragments, ps, |ps|, Repr)
      ensures Held() && Finished()
    {
    }

    // ------------------------------------------------------------ merging and splitting

    /** The payloads put into fragments of another MTU, and finished again. */
    method Resplit(mtu: int)
      requires this !in Repr && Held() && (heads == [] || |heads| >= 24)
      requires mtu > |heads| + lenChecksum ==> Contents() != []
      modifies this, Repr
      ensures this !in Repr && Held() && Contents() == old(Contents())
      ensures heads == old(heads) && lenChecksum == old(lenChecksum) && schema == old(schema)
      ensures mtu <= |heads| + lenChecksum ==>
        ps == old(ps) && Repr == old(Repr) && fragments == old(fragments)
        && index == old(index) && pos == old(pos) && size == old(size)
      ensures mtu > |heads| + lenChecksum ==>
        fresh(Repr) && Valid() && Unread() == Contents() && ps == Chop(Contents(), mtu - |heads| - lenChecksum)
        && Finished() && Numbered()
    {
      hide Concat, Chop, Finished, Slots, HeldBy, Rest;
      if mtu <= |heads| + lenChecksum {
        return;
      }
      Refill(mtu);
      Finish();
    }

    method Refill(newMtu: int)
      requires Held() && Contents() != [] && (heads == [] || |heads| >= 24) && newMtu > |heads| + lenChecksum
      modifies this
      ensures Writable() && Settled() && fresh(Repr) && Contents() == old(Contents()) && Unread() == Contents()
      ensures heads == old(heads) && lenChecksum == old(lenChecksum) && mtu == newMtu && schema == old(schema)
      ensures ps == Chop(Contents(), newMtu - |heads| - lenChecksum)
    {
      hide Writable, Concat, Rest, Chop;
      ghost var was := ps;
      var frags := fragments;
      AllKnown();
      Restart(newMtu);
      ConcatNone(was[..0]);
      var i := 0;
      while i < |frags|
        invariant 0 <= i <= |was| == |frags|
        invariant Writable() && fresh(Repr) && Contents() == Concat(was[..i]) && (Contents() != [] ==> Settled())
        invariant index == 0 && pos == 0 && heads == old(heads) && lenChecksum == old(lenChecksum) && mtu == newMtu
        invariant schema == old(schema)
      {
        var f := frags[i];
        Append(f.b[f.headsLen..f.headsLen + f.payloadLen]);
        ConcatNext(was, i);
        i := i + 1;
      }
      assert was[..|was|] == was;
      SettledIsChopped();
    }

    static lemma ConcatNext(ps: seq<bytes>, i: nat)
      requires i < |ps|
      ensures Concat(ps[..i + 1]) == Concat(ps[..i]) + ps[i]
    {
      hide Concat;
      ConcatLast(ps[..i + 1]);
      assert ps[..i + 1][..i] == ps[..i];
    }

    /** What was appended and not read from lies in its chopped form. */
    lemma SettledIsChopped()
      requires Writable() && Settled() && index == 0 && pos == 0
      ensures Avail() >= 1 && ps == Chop(Contents(), Avail()) && Unread() == Contents()
    {
      hide Concat, Rest, Chop, Held, Slots;
      ChopIs(ps, Avail());
      RestOfAll(ps);
    }

    lemma AllKnown()
      requires Held()
      ensures |fragments| == |ps| && forall i :: 0 <= i < |ps| ==>
        i in fragments && fragments[i].Valid() && fragments[i].Payload() == ps[i]
    {
    }

    /** Forget all fragments. */
    method Restart(newMtu: int)
      requires (heads == [] || |heads| >= 24) && newMtu > |heads| + lenChecksum
      modifies this
      ensures Writable() && Repr == {} && Contents() == [] && index == 0 && pos == 0
      ensures heads == old(heads) && lenChecksum == old(lenChecksum) && mtu == newMtu && schema == old(schema)
    {
      mtu, size, windex, index, pos := newMtu, 0, 0, 0, 0;
      fragments := map[];
      ps, Repr := [], {};
    }

    /** All payloads in one fragment. */
    method Merge()
      requires this !in Repr && Held() && (heads == [] || |heads| >= 24)
      modifies this, Repr
      ensures this !in Repr && Held() && Contents() == old(Contents()) && (old(Valid()) ==> Valid())
      ensures heads == old(heads) && lenChecksum == old(lenChecksum) && schema == old(schema)
      ensures |old(ps)| < 2 || Contents() == [] ==> ps == old(ps) && Repr == old(Repr) && fragments == old(fragments)
      ensures |old(ps)| >= 2 && Contents() != [] ==>
        fresh(Repr) && Valid() && ps == [Contents()] && Unread() == Contents() && Finished() && Numbered()
    {
      hide Held, Concat, Finished, Numbered;
      Count();
      if |fragments| < 2 {
        return;
      }
      Rewind();
      Resplit(size + |heads| + lenChecksum);
      if Contents() != [] {
        assert Chop(Contents(), |Contents()|) == [Contents()];
      }
    }

    /** Smaller fragments, if that is what mtu asks for. */
    method Split(mtu: int)
      requires this !in Repr && Held() && (heads == [] || |heads| >= 24)
      requires this.mtu > mtu > |heads| + lenChecksum ==> Contents() != []
      modifies this, Repr
      ensures this !in Repr && Held() && Contents() == old(Contents()) && (old(Valid()) ==> Valid())
      ensures heads == old(heads) && lenChecksum == old(lenChecksum) && schema == old(schema)
      ensures old(this.mtu) <= mtu || mtu <= |heads| + lenChecksum ==> ps == old(ps) && fragments == old(fragments)
      ensures old(this.mtu) > mtu > |heads| + lenChecksum ==>
        Valid() && Unread() == Contents() && ps == Chop(Contents(), mtu - |heads| - lenChecksum)
        && Finished() && Numbered()
    {
      hide Held, Concat, Finished, Chop, Numbered;
      if this.mtu <= mtu {
        return;
      }
      Resplit(mtu);
    }

    // ------------------------------------------------------------ collecting

    /** Fragment f was received as part p. */
    static ghost predicate Received(f: Fragment, p: R.Part)
      reads f, f.b
    {
      f.Valid() && f.schema.fid == p.fid && f.Payload() == p.payload
    }

    static ghost predicate CollectedBy(fragments: map<int, Fragment>, got: map<int, R.Part>, repr: set<object>)
      reads repr
    {
      && fragments.Keys == got.Keys
      && (forall k {:trigger fragments[k]} :: k in fragments ==>
            fragments[k] in repr && fragments[k].b in repr && Received(fragments[k], got[k]))
    }

    /** The fragments held are those received, each at the place its number stands for. */
    ghost predicate Collects()
      reads `fragments, `got, `Repr, `size, `schema, Repr
    {
      && this !in Repr && CollectedBy(fragments, got, Repr)
      && size == R.Held(got) && (schema == None ==> got == map[])
    }

    /** The fragments are at the places of these parts and have their numbers. */
    ghost predicate NumbersOf(parts: map<int, R.Part>)
      reads `fragments, fragments.Values
    {
      fragments.Keys == parts.Keys && forall k :: k in fragments ==> fragments[k].schema.fid == parts[k].fid
    }

    lemma CollectedNumbers()
      requires Collects()
      ensures NumbersOf(got)
    {
      hide R.Held;
      forall k | k in fragments ensures fragments[k].schema.fid == got[k].fid {
        assert Received(fragments[k], got[k]);
      }
    }

    /** What a buffer that was filled and finished here looks like to Wanted. */
    static ghost function OwnParts(schema: Option<Schema>, ps: seq<bytes>): map<int, R.Part> {
      map i | 0 <= i < |ps| :: R.Part(OwnFid(schema, i), ps[i])
    }

    /**
      Its last fragment keeps its first number, which is positive: Wanted always names the one
      behind it, and finds the end only where the numbers wrap.
     */
    lemma OwnIsWanting()
      requires Held() && Numbered() && schema.Some?
      ensures NumbersOf(OwnParts(schema, ps))
      ensures R.Wanted(OwnParts(schema, ps)) == if |ps| <= MAX16 then |ps| + 1 else 0
    {
      var parts := OwnParts(schema, ps);
      assert fragments.Keys == parts.Keys;
      assert |fragments.Keys| == |fragments| && |parts.Keys| == |parts|;
      OwnFrom(schema, ps, 0);
    }

    static lemma {:induction false} OwnFrom(schema: Option<Schema>, ps: seq<bytes>, i: nat)
      requires schema.Some? && i <= |ps| && i <= MAX16 && |OwnParts(schema, ps)| == |ps|
      ensures R.WantedFrom(OwnParts(schema, ps), i) == if |ps| <= MAX16 then |ps| + 1 else 0
      decreases |ps| - i
    {
      if i < |ps| && i < MAX16 {
        OwnFrom(schema, ps, i + 1);
      }
    }

    /** The number of the first fragment missing, or 0. */
    method Wanted(ghost parts: map<int, R.Part>) returns (n: int)
      requires NumbersOf(parts)
      ensures n == R.Wanted(parts)
    {
      assert |fragments.Keys| == |fragments| && |parts.Keys| == |parts|;
      var i := 0;
      while i < |fragments|
        invariant 0 <= i && R.WantedFrom(parts, i) == R.Wanted(parts)
        decreases |fragments| - i
      {
        if i !in fragments {
          return i + 1;
        }
        if fragments[i].schema.fid < 0 {
          return 0;
        }
        i := i + 1;
      }
      return i + 1;
    }

    lemma SameSize()
      requires Collects()
      ensures |fragments| == |got|
    {
      assert |fragments.Keys| == |fragments| && |got.Keys| == |got|;
    }

    /** Keep a fragment at the place its number stands for, also when it is a repeated one. */
    method Keep(frag: Fragment)
      requires Collects() && schema.Some? && frag.Valid() && -0x8000 <= frag.schema.fid <= MAX16
      modifies `fragments, `size, `got, `Repr
      ensures Collects() && got == R.Push(old(got), R.Part(frag.schema.fid, frag.Payload()))
          && Repr == old(Repr) + {frag, frag.b}
    {
      hide R.Held, R.SumTo, CollectedBy;
      var fid := frag.schema.fid;
      fid := if fid < 0 then -fid else fid;
      ghost var part := R.Part(frag.schema.fid, frag.Payload());
      R.HeldPush(got, part);
      SameParts();
      if fid - 1 in fragments {
        size := size - fragments[fid - 1].payloadLen;
      }
      OneMoreCollected(fragments, got, Repr, frag, part);
      fragments := fragments[fid - 1 := frag];
      size := size + frag.payloadLen;
      got := R.Push(got, part);
      Repr := Repr + {frag, frag.b};
    }

    lemma SameParts()
      requires Collects()
      ensures fragments.Keys == got.Keys
      ensures forall k :: k in fragments ==> fragments[k].payloadLen == |got[k].payload|
    {
      forall k | k in fragments ensures fragments[k].payloadLen == |got[k].payload| {
        assert Received(fragments[k], got[k]);
      }
    }

    static lemma OneMoreCollected(fragments: map<int, Fragment>, got: map<int, R.Part>, repr: set<object>,
                                  f: Fragment, p: R.Part)
      requires CollectedBy(fragments, got, repr) && Received(f, p)
      ensures CollectedBy(fragments[R.Place(p.fid) := f], R.Push(got, p), repr + {f, f.b})
    {
      hide Received;
    }

    lemma NoneCollected()
      requires Collects() && got == map[]
      ensures CollectedBy(map[], map[], Repr) && fragments == map[]
    {
      assert fragments.Keys == {};
    }

    /** Take in a received fragment of the buffer's object; says what is still missing. */
    method Push(frag: Fragment?) returns (miss: int, verdict: PushVerdict)
      requires Collects()
      requires frag != null ==>
        frag.Valid() && frag.dataLen >= frag.headsLen + frag.payloadLen
        && -0x8000 <= frag.schema.fid <= MAX16
      modifies this
      ensures Collects() && miss == R.Wanted(got)
      ensures verdict ==
        if frag == null || frag.dataLen == 0 then Invalid
        else if old(schema).Some? && old(schema).value.types != frag.schema.types then OtherTypes
        else if old(schema).Some? && old(schema).value.tid != frag.schema.tid then OtherObject
        else Taken
      ensures verdict != Taken ==> got == old(got) && schema == old(schema) && heads == old(heads) && Repr == old(Repr)
      ensures verdict == Taken ==> got == R.Push(old(got), R.Part(frag.schema.fid, frag.Payload()))
      ensures verdict == Taken && old(schema) == None ==>
        schema == Some(frag.schema) && heads == frag.Heads()
            && lenChecksum == frag.dataLen - frag.headsLen - frag.payloadLen
      ensures verdict == Taken && old(schema) != None ==>
        schema == old(schema) && heads == old(heads)
        && lenChecksum == old(lenChecksum)
      ensures verdict == Taken ==> Repr == old(Repr) + {frag, frag.b}
    {
      hide R.Held, R.Wanted, R.Push, CollectedBy;
      if frag == null || frag.dataLen == 0 {
        CollectedNumbers();
        miss := Wanted(got);
        return miss, Invalid;
      }
      if schema == None {
        NoneCollected();
        fragments := map[];
        schema := Some(frag.schema);
        heads := frag.b[..frag.headsLen];
        lenChecksum := frag.dataLen - frag.headsLen - frag.payloadLen;
      }
      if schema.value.types != frag.schema.types {
        CollectedNumbers();
        miss := Wanted(got);
        return miss, OtherTypes;
      }
      if schema.value.tid != frag.schema.tid {
        CollectedNumbers();
        miss := Wanted(got);
        return miss, OtherObject;
      }
      Keep(frag);
      CollectedNumbers();
      miss := Wanted(got);
      verdict := Taken;
    }

    /** With every fragment of the object there, the received payloads are a readable buffer's. */
    ghost method Assemble(qs: seq<bytes>)
      requires Collects() && R.Among(got, qs) && forall k :: 0 <= k < |qs| ==> k in got
      modifies `ps
      ensures Held() && ps == qs
    {
      hide R.Among;
      R.AllHeld(got, qs);
      SameSize();
      ps := qs;
      forall i {:trigger fragments[i]} | 0 <= i < |qs| ensures Piece(fragments[i], qs[i]) {
        assert Received(fragments[i], got[i]);
      }
    }
  }
}
