/**
  Marshalling: heads prepared once, the value saved behind them, the fragments finished.
  What goes out is given by a function of the schema, the MTU and the encoding.
 */
module Sending {
  import opened Wire
  import opened Types
  import opened Codec
  import opened RoundTrip
  import opened Frames
  import opened Framing
  import opened Pieces
  import opened Buffers
  import opened Saving
  import opened Reassembly

  // ---------------------------------------------------------------- what goes out

  /** The frames of an object. */
  function FramesOf(ck: Checksum, s: Schema, ps: seq<bytes>): seq<bytes> {
    seq(|ps|, i requires 0 <= i < |ps| => FrameOf(ck, s.(fid := Fid(i, |ps|)), ps[i]))
  }

  /** The MTU a buffer works with. */
  function EffectiveMtu(mtu: int): (m: int)
    ensures mtu == 0 ==> m == 1440
    ensures mtu >= 128 ==> m == mtu
    ensures mtu < 128 && mtu != 0 ==> m == 128
  {
    var m := if mtu == 0 then DEFAULT_MTU else mtu;
    if m < MIN_MTU then MIN_MTU else m
  }

  /** The payload room of a frame: what heads and checksum leave. */
  function Room(ck: Checksum, s: Schema, mtu: int): int {
    EffectiveMtu(mtu) - (|Lead(s)| + 6) - (MERGED_HEAD + |ck([])|)
  }

  // ---------------------------------------------------------------- preparing

  /** The magic word and the version in a buffer of their own. */
  method LayMagic(ck: Checksum, mtu: int) returns (nbuf: Buffer)
    requires mtu >= MIN_MTU
    ensures fresh(nbuf) && fresh(nbuf.Repr) && nbuf.Writable()
    ensures nbuf.heads == [] && nbuf.lenChecksum == 0 && nbuf.mtu == mtu && nbuf.index == 0 && nbuf.pos == 0
    ensures nbuf.Contents() == MAGIC + (VERSION + [TSCHEMA])
  {
    hide Buffer.Writable, Buffer.Contents, Buffer.Collects;
    nbuf := new Buffer(ck, mtu);
    NoContents(nbuf);
    nbuf.Append(MAGIC);
    nbuf.Append(VERSION + [TSCHEMA]);
  }

  /** The magic word, the version and the schema. */
  method LaySchema(ck: Checksum, s: Schema, mtu: int) returns (nbuf: Buffer)
    requires mtu >= MIN_MTU
    ensures fresh(nbuf) && fresh(nbuf.Repr) && nbuf.Writable() && nbuf.Settled()
    ensures nbuf.heads == [] && nbuf.lenChecksum == 0 && nbuf.mtu == mtu && nbuf.index == 0 && nbuf.pos == 0
    ensures nbuf.Contents() == MAGIC + VERSION + [TSCHEMA] + Enc(SCHEMA, SchemaVal(s))
  {
    hide Buffer.Writable, Buffer.Contents, Buffer.Collects, Enc, HasType, WellFormed, Norm, Fits, SchemaVal;
    SchemaTyped(s);
    nbuf := LayMagic(ck, mtu);
    Save(SCHEMA, SchemaVal(s), nbuf);
    assert nbuf.Contents() == MAGIC + (VERSION + [TSCHEMA]) + Enc(SCHEMA, SchemaVal(s));
  }

  /** The heads with the sizes of a full payload; they must leave room for a payload byte. */
  method LayHeads(ck: Checksum, s: Schema, mtu: int, lenChecksum: nat) returns (ok: bool, heads: bytes)
    requires mtu >= MIN_MTU && lenChecksum >= 1
    ensures ok <==> |Lead(s)| + 6 + lenChecksum < mtu
    ensures ok ==> heads == HeadsFor(s, mtu - |Lead(s)| - 6 - lenChecksum)
    ensures !ok ==> heads == []
  {
    hide Buffer.Writable, Buffer.Contents, Buffer.Collects, Buffer.Unread, Enc, Le16, Le32, Lead, HeadsFor, SchemaVal;
    LeadParts(s);
    var nbuf := LaySchema(ck, s, mtu);
    OneFragment(nbuf);
    if |nbuf.fragments| > 1 {
      return false, [];
    }
    nbuf.Append([TARRAYM, TUINT8]);
    assert nbuf.Contents() == Lead(s);
    OneFragment(nbuf);
    if nbuf.size + 4 + 2 + lenChecksum >= nbuf.mtu {
      return false, [];
    }
    ok := true;
    heads := LaySizes(nbuf, nbuf.mtu - nbuf.size - 4 - 2 - lenChecksum);
  }

  lemma LeadParts(s: Schema)
    ensures Lead(s) == MAGIC + VERSION + [TSCHEMA] + Enc(SCHEMA, SchemaVal(s)) + [TARRAYM, TUINT8]
    ensures forall n: nat :: HeadsFor(s, n) == Lead(s) + Le32(n + 2) + Le16(n)
  {
  }

  method LaySizes(nbuf: Buffer, avail: nat) returns (heads: bytes)
    requires nbuf.Writable() && nbuf.heads == [] && nbuf.lenChecksum == 0 && nbuf.mtu != 0
    requires nbuf.index == 0 && nbuf.pos == 0 && |nbuf.Contents()| + 6 <= nbuf.mtu
    modifies nbuf, nbuf.Repr
    ensures heads == old(nbuf.Contents()) + Le32(avail + 2) + Le16(avail)
  {
    hide Buffer.Writable, Buffer.Contents, Le16, Le32;
    nbuf.AppendSize4(avail + 2);
    nbuf.AppendSize2(avail);
    OneFragment(nbuf);
    var f := nbuf.fragments[0];
    heads := f.b[f.headsLen..f.headsLen + nbuf.size];
    assert heads == f.Payload();
  }

  lemma NoContents(buf: Buffer)
    requires buf.ps == []
    ensures buf.Contents() == []
  {
    ConcatNone(buf.ps);
  }

  /** Without heads, what is shorter than the MTU lies in one fragment. */
  lemma OneFragment(buf: Buffer)
    requires buf.Writable() && buf.Settled() && buf.heads == [] && buf.lenChecksum == 0 && buf.mtu != 0
    requires buf.index == 0 && buf.pos == 0
    ensures buf.size == |buf.Contents()|
    ensures |buf.fragments| > 1 ==> |buf.Contents()| > buf.mtu
    ensures |buf.Contents()| <= buf.mtu ==>
      0 in buf.fragments && buf.fragments[0].Valid() && buf.fragments[0].Payload() == buf.Contents()
      && buf.fragments[0].payloadLen == |buf.Contents()|
  {
    hide Concat, Full, Buffer.Slots;
    buf.Count();
    buf.Known(0);
    FullLength(buf.ps, buf.Avail());
    RestOfAll(buf.ps);
    if |buf.ps| == 1 {
      ConcatOne(buf.ps[0]);
      assert buf.ps == [buf.ps[0]];
    } else {
      FullMonotone(1, |buf.ps| - 1, buf.Avail());
      assert Full(1, buf.Avail()) == buf.Avail() by { FullOne(buf.Avail()); }
    }
  }

  lemma FullOne(a: nat)
    ensures Full(1, a) == a
  {
  }

  /** The room in the terms of the one who asks for an MTU. */
  lemma RoomIs(ck: Checksum, s: Schema, mtu: int)
    ensures var limit := if mtu == 0 then 1440 else if mtu < 128 then 128 else mtu;
      Room(ck, s, mtu) == limit - (41 + |s.types| + |s.tid| + |s.info|) - (8 + |ck([])|)
  {
    hide Lead;
    LeadForm(s);
  }

  /** Prepare a buffer for an object; succeeds when at least one payload byte fits a fragment. */
  method Prepare(buf: Buffer, s: Schema) returns (ok: bool)
    requires buf.Valid() && buf.ps == [] && buf.windex == 0
    modifies buf
    ensures ok <==> Room(buf.ck, s, old(buf.mtu)) >= 1
    ensures ok <==>
      49 + |s.types| + |s.tid| + |s.info| + |buf.ck([])|
      < if old(buf.mtu) == 0 then 1440 else if old(buf.mtu) < 128 then 128 else old(buf.mtu)
    ensures buf.Valid() && buf.ps == [] && buf.Repr == old(buf.Repr) && buf.Unread() == []
    ensures ok ==>
      buf.Writable() && buf.Avail() == Room(buf.ck, s, old(buf.mtu))
      && buf.heads == HeadsFor(s, buf.Avail())
    ensures ok ==> buf.lenChecksum == MERGED_HEAD + |buf.ck([])| && |buf.heads| >= 41
    ensures buf.schema == Some(s) && buf.mtu == EffectiveMtu(old(buf.mtu))
  {
    hide HeadsFor, Lead, Buffer.Valid, Buffer.Writable, Buffer.Unread;
    RoomIs(buf.ck, s, buf.mtu);
    Configure(buf, s);
    HeadsSize(s);
    var heads;
    ok, heads := LayHeads(buf.ck, s, buf.mtu, buf.lenChecksum);
    SetHeads(buf, heads);
  }

  /** The schema, an MTU of at least the minimum, and the length of a checksum array. */
  method Configure(buf: Buffer, s: Schema)
    requires buf.Valid()
    modifies buf`mtu, buf`schema, buf`lenChecksum
    ensures buf.Valid() && buf.mtu == EffectiveMtu(old(buf.mtu))
    ensures buf.schema == Some(s) && buf.lenChecksum == MERGED_HEAD + |buf.ck([])|
  {
    hide Buffer.Held, Buffer.Cursor;
    if buf.mtu == 0 {
      buf.mtu := DEFAULT_MTU;
    }
    buf.mtu := if buf.mtu < MIN_MTU then MIN_MTU else buf.mtu;
    buf.schema := Some(s);
    buf.lenChecksum := MERGED_HEAD + |buf.ck([])|;
  }

  method SetHeads(buf: Buffer, heads: bytes)
    requires buf.Valid() && buf.ps == []
    modifies buf`heads
    ensures buf.Valid() && buf.heads == heads && buf.Unread() == []
    ensures buf.windex == 0 && buf.mtu != 0 && buf.Avail() >= 1 && |heads| >= 24 ==> buf.Writable()
  {
    buf.heads := heads;
  }

  lemma HeadsSize(s: Schema)
    ensures forall n: nat :: |HeadsFor(s, n)| == |Lead(s)| + 6
    ensures |Lead(s)| >= 35
  {
    LeadForm(s);
  }

  // ---------------------------------------------------------------- marshalling

  /** A sealed fragment is the frame of its payload, and no two steps of sealing can be swapped. */
  lemma SealedIsFrame(ck: Checksum, s: Schema, a: nat, ps: seq<bytes>, i: nat)
    requires i < |ps| && (i < |ps| - 1 ==> |ps[i]| == a)
    ensures |HeadsFor(s, a)| >= 24
    ensures Buffer.SealedData(ck, HeadsFor(s, a), ps, i) == FramesOf(ck, s, ps)[i]
  {
    hide HeadsFor, Seal;
    HeadsSize(s);
    var n := |ps|;
    PatchFidIsReencoding(s, a, Fid(i, n));
    if i == n - 1 {
      PatchSizeIsRelayout(s.(fid := Fid(i, n)), a, |ps[i]|);
    }
  }

  /** Buffer buf holds exactly these frames. */
  ghost predicate Holds(buf: Buffer, frames: seq<bytes>)
    reads buf, buf.Repr
  {
    buf.Held() && |frames| == |buf.ps|
    && forall i {:trigger frames[i]} :: 0 <= i < |frames| ==>
         buf.fragments[i].d in buf.Repr && buf.fragments[i].Data() == frames[i]
  }

  lemma FinishedHolds(buf: Buffer, s: Schema, a: nat)
    requires buf.Held() && a >= 1 && buf.heads == HeadsFor(s, a) && |buf.heads| >= 24 && buf.Finished()
    requires forall i :: 0 <= i < |buf.ps| - 1 ==> |buf.ps[i]| == a
    ensures Holds(buf, FramesOf(buf.ck, s, buf.ps))
  {
    hide HeadsFor, FrameOf, Buffer.SealedData;
    forall i {:trigger buf.fragments[i]} | 0 <= i < |buf.ps|
      ensures buf.fragments[i].d in buf.Repr && buf.fragments[i].Data() == FramesOf(buf.ck, s, buf.ps)[i]
    {
      SealedIsFrame(buf.ck, s, a, buf.ps, i);
      assert Buffer.SealedAs(buf.fragments[i], buf.ps[i], Buffer.SealedData(buf.ck, buf.heads, buf.ps, i));
    }
  }

  /**
    Marshal an object: it succeeds when a payload byte fits a fragment, and then the buffer
    holds the frames of the encoding chopped to the room a frame has.
   */
  method Marshal(buf: Buffer, ty: Ty, v: Val, s: Schema) returns (ok: bool)
    requires buf.Valid() && buf.ps == [] && buf.windex == 0
    requires WellFormed(ty) && HasType(ty, v)
    modifies buf, buf.Repr
    ensures ok <==> Room(buf.ck, s, old(buf.mtu)) >= 1
    ensures ok <==>
      49 + |s.types| + |s.tid| + |s.info| + |buf.ck([])|
      < if old(buf.mtu) == 0 then 1440 else if old(buf.mtu) < 128 then 128 else old(buf.mtu)
    ensures ok ==> buf.Valid() && buf.ps == Chop(Enc(ty, v), Room(buf.ck, s, old(buf.mtu)))
    ensures ok ==> Holds(buf, FramesOf(buf.ck, s, buf.ps)) && buf.Unread() == Enc(ty, v)
    ensures ok ==> buf.schema == Some(s) && buf.Numbered()
  {
    hide Buffer.Numbered, Enc, HeadsFor, Chop, Buffer.Finished, FramesOf, Buffer.Held, Room;
    ok := Prepare(buf, s);
    if ok {
      NoContents(buf);
      Save(ty, v, buf);
      assert [] + Enc(ty, v) == Enc(ty, v);
      ghost var a := buf.Avail();
      ChoppedContents(buf);
      buf.Finish();
      FinishedHolds(buf, s, a);
    }
  }

  lemma ChoppedContents(buf: Buffer)
    requires buf.Writable() && buf.Settled()
    ensures buf.Avail() >= 1 && buf.ps == Chop(buf.Contents(), buf.Avail())
    ensures forall i :: 0 <= i < |buf.ps| - 1 ==> |buf.ps[i]| == buf.Avail()
    ensures buf.index == 0 && buf.pos == 0 ==> buf.Unread() == buf.Contents()
  {
    hide Chop, Concat;
    ChopIs(buf.ps, buf.Avail());
    RestOfAll(buf.ps);
  }

  /**
    The MTU law in the sender's terms. Frames are as long as was asked for, with 1440 for 0 and
    128 for anything else that is less: none is longer, and all but the last are exactly that.
    There are frames at all exactly when heads and checksum leave a byte for the payload.
   */
  lemma MtuLaw(ck: Checksum, s: Schema, mtu: int, payload: bytes, i: nat)
    requires FixedLength(ck)
    ensures var limit := if mtu == 0 then 1440 else if mtu < 128 then 128 else mtu;
      var room := limit - (41 + |s.types| + |s.tid| + |s.info|) - (8 + |ck([])|);
      && (Room(ck, s, mtu) >= 1 <==> room >= 1)
      && (room >= 1 && i < |Chop(payload, room)| ==>
            var frames := FramesOf(ck, s, Chop(payload, Room(ck, s, mtu)));
            && i < |frames| && |frames[i]| <= limit && (i < |frames| - 1 ==> |frames[i]| == limit)
            && |frames| == (|payload| + room - 1) / room)
  {
    hide Chop, Lead, FrameOf;
    RoomIs(ck, s, mtu);
    if Room(ck, s, mtu) >= 1 && i < |Chop(payload, Room(ck, s, mtu))| {
      FramesFitTheMtu(ck, s, mtu, payload, i);
    }
  }

  /** No frame exceeds the MTU, and all but the last are exactly as long. */
  lemma FramesFitTheMtu(ck: Checksum, s: Schema, mtu: int, payload: bytes, i: nat)
    requires FixedLength(ck) && Room(ck, s, mtu) >= 1
    requires i < |Chop(payload, Room(ck, s, mtu))|
    ensures var frames := FramesOf(ck, s, Chop(payload, Room(ck, s, mtu)));
      |frames[i]| <= EffectiveMtu(mtu) && (i < |frames| - 1 ==> |frames[i]| == EffectiveMtu(mtu))
    ensures var a := Room(ck, s, mtu); |FramesOf(ck, s, Chop(payload, a))| == (|payload| + a - 1) / a
  {
    hide Chop, HeadsFor, Lead, FrameOf;
    var a := Room(ck, s, mtu);
    var ps := Chop(payload, a);
    ChopArithmetic(payload, a);
    FrameLength(ck, s, Fid(i, |ps|), ps[i]);
  }

  lemma FrameLength(ck: Checksum, s: Schema, fid: int, payload: bytes)
    requires FixedLength(ck)
    ensures |FrameOf(ck, s.(fid := fid), payload)| == |Lead(s)| + 6 + |payload| + MERGED_HEAD + |ck([])|
  {
    hide HeadsFor, Lead;
    var t := s.(fid := fid);
    HeadsSize(t);
    LeadForm(s);
    LeadForm(t);
  }

  // ---------------------------------------------------------------- merged and split buffers

  /** A merged buffer whose heads are the sender's, or those of a received fragment, holds one frame of the object. */
  lemma MergedIsOneFrame(buf: Buffer, s: Schema, a: nat)
    requires buf.Held() && a >= 1 && buf.heads == HeadsFor(s, a) && |buf.heads| >= 24 && buf.Finished()
    requires buf.ps == [buf.Contents()]
    ensures Holds(buf, [FrameOf(buf.ck, s.(fid := -1), buf.Contents())])
  {
    hide HeadsFor, FrameOf, Buffer.Finished, Buffer.Held, Holds, Concat;
    FinishedHolds(buf, s, a);
    assert FramesOf(buf.ck, s, buf.ps) == [FrameOf(buf.ck, s.(fid := -1), buf.Contents())];
  }

  /**
    Fragment i of a buffer sealed with heads made for payloads of a bytes is received as
    itself exactly when its length fits the count and, unless it is the last, is a. After a
    split the heads are still those of the old MTU.
   */
  lemma SealedIsReceived(ck: Checksum, s: Schema, a: nat, ps: seq<bytes>, i: nat, t: bytes, schema: Val)
    requires SchemaFits(s) && FixedLength(ck) && |ck([])| <= MAX16 && i < |ps| && a < LIMIT32 - 2
    requires |s.types| + |s.tid| + |s.info| + |ck([])| + |ps[i]| >= 15
    ensures |HeadsFor(s, a)| >= 24
    ensures var v := Classify(ck, Buffer.SealedData(ck, HeadsFor(s, a), ps, i) + t, schema);
      v.st == Ok && v.payloadLen == |ps[i]| <==> |ps[i]| <= MAX16 && (i == |ps| - 1 || |ps[i]| == a)
  {
    hide HeadsFor, Classify, Lead;
    HeadsSize(s);
    LeadForm(s);
    var last := i == |ps| - 1;
    var u := s.(fid := Fid(i, |ps|));
    var n := if last then |ps[i]| else a;
    PatchFidIsReencoding(s, a, u.fid);
    if last { PatchSizeIsRelayout(u, a, |ps[i]|); }
    LeadForm(u);
    HeadsSize(u);
    assert Buffer.SealedData(ck, HeadsFor(s, a), ps, i) == Seal(ck, HeadsFor(u, n) + ps[i]);
    AnnouncedSizeDecides(ck, u, n, ps[i], t, schema);
  }

  /** Hence after a split to a smaller room no frame but the last is received as itself. */
  lemma SplitFramesAreLost(ck: Checksum, s: Schema, a: nat, room: nat, payload: bytes, i: nat, t: bytes, schema: Val)
    requires SchemaFits(s) && FixedLength(ck) && |ck([])| <= MAX16 && 1 <= room < a <= MAX16
    requires i < |Chop(payload, room)| && |s.types| + |s.tid| + |s.info| + |ck([])| >= 14
    ensures var ps := Chop(payload, room);
      |HeadsFor(s, a)| >= 24
      && var v := Classify(ck, Buffer.SealedData(ck, HeadsFor(s, a), ps, i) + t, schema);
         v.st == Ok && v.payloadLen == |ps[i]| <==> i == |ps| - 1
  {
    hide HeadsFor, Classify, Chop, Buffer.SealedData;
    ChopArithmetic(payload, room);
    SealedIsReceived(ck, s, a, Chop(payload, room), i, t, schema);
  }
}
