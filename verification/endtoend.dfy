/**
  From a value on one side to its normal form on the other: whatever the order of the
  frames, however often each comes, and however noise and chunk borders fall.
 */
module EndToEnd {
  import opened Wire
  import opened Types
  import opened Codec
  import opened RoundTrip
  import opened Magic
  import opened Frames
  import opened Framing
  import opened Scan
  import opened Pieces
  import opened Buffers
  import opened Dumping
  import opened Receiver
  import opened Sending
  import opened Delivery
  import R = Reassembly

  // ---------------------------------------------------------------- frames of one object

  /** Frame x is fragment k of the object with schema s and payloads ps. */
  predicate IsPiece(x: Sent, s: Schema, ps: seq<bytes>, k: int) {
    0 <= k < |ps| && x == Sent(s.(fid := R.Fid(k, |ps|)), ps[k])
  }

  /** Every good frame of the stream is one of the object's. */
  ghost predicate OfObject(items: seq<Stretch>, s: Schema, ps: seq<bytes>) {
    forall x :: x in items && x.Good? ==> exists k :: IsPiece(x.sent, s, ps, k)
  }

  /** Fragment k of the object is somewhere in the stream. */
  predicate Delivers(items: seq<Stretch>, s: Schema, ps: seq<bytes>, k: int) {
    items != [] && ((items[0].Good? && IsPiece(items[0].sent, s, ps, k)) || Delivers(items[1..], s, ps, k))
  }

  /** What a receiver says is missing: nothing when all fragments came, else the first that did not. */
  ghost predicate NamesMissing(m: int, items: seq<Stretch>, s: Schema, ps: seq<bytes>) {
    && (m == 0 <==> forall k :: 0 <= k < |ps| ==> Delivers(items, s, ps, k))
    && (m != 0 ==>
      1 <= m <= |ps| && !Delivers(items, s, ps, m - 1)
      && forall k :: 0 <= k < m - 1 ==> Delivers(items, s, ps, k))
  }

  /** What reassembly keeps of a received frame. */
  function PartIn(f: Frame): R.Part
    requires HasType(SCHEMA, f.schema)
  {
    R.Part(SchemaOf(f.schema).fid, f.payload)
  }

  ghost predicate Typed(frames: seq<Frame>) {
    forall i :: 0 <= i < |frames| ==> HasType(SCHEMA, frames[i].schema)
  }

  function PartsIn(frames: seq<Frame>): (r: seq<R.Part>)
    requires Typed(frames)
    ensures |r| == |frames|
  {
    seq(|frames|, i requires 0 <= i < |frames| => PartIn(frames[i]))
  }

  /** A received frame is one of the object: same types and object, and one of its parts. */
  ghost predicate Belongs(f: Frame, s: Schema, ps: seq<bytes>) {
    && HasType(SCHEMA, f.schema) && SchemaOf(f.schema).types == s.types && SchemaOf(f.schema).tid == s.tid
    && PartIn(f) in R.PartsOf(ps) && -0x8000 <= PartIn(f).fid <= MAX16 && |f.Data()| > 0
  }

  /** A fragment's frame arrives as that part. */
  lemma PieceArrives(ck: Checksum, x: Sent, s: Schema, ps: seq<bytes>, k: int)
    requires IsPiece(x, s, ps, k) && |ps| <= MAX16
    ensures Belongs(Arrived(ck, x), s, ps) && PartIn(Arrived(ck, x)) == R.PartsOf(ps)[k]
  {
    hide FrameOf, HasType, Arrived, At;
    SchemaOfVal(x.schema);
    ArrivedParts(ck, x);
    assert R.PartsOf(ps)[k] in R.PartsOf(ps);
    FrameStarts(ck, x, []);
    assert BytesOf(ck, x) + [] == BytesOf(ck, x);
    MagicLength(BytesOf(ck, x));
  }

  lemma ArrivedParts(ck: Checksum, x: Sent)
    ensures Arrived(ck, x).schema == SchemaVal(x.schema) && Arrived(ck, x).payload == x.payload
  {
  }

  /** What comes out of such a stream are frames of the object. */
  lemma {:induction false} ArrivalsBelong(ck: Checksum, items: seq<Stretch>, s: Schema, ps: seq<bytes>)
    requires OfObject(items, s, ps) && |ps| <= MAX16
    ensures forall f :: f in Arrivals(ck, items) ==> Belongs(f, s, ps)
    ensures Typed(Arrivals(ck, items))
    decreases |items|
  {
    hide HasType, IsPiece, Arrived, R.PartsOf;
    if items != [] {
      assert items[0] in items;
      assert OfObject(items[1..], s, ps);
      ArrivalsBelong(ck, items[1..], s, ps);
      if items[0].Good? {
        var k :| IsPiece(items[0].sent, s, ps, k);
        PieceArrives(ck, items[0].sent, s, ps, k);
      }
    }
  }

  lemma PartsBelong(frames: seq<Frame>, s: Schema, ps: seq<bytes>)
    requires forall f :: f in frames ==> Belongs(f, s, ps)
    ensures Typed(frames) && forall p :: p in PartsIn(frames) ==> p in R.PartsOf(ps)
  {
    hide HasType, R.PartsOf, PartIn;
    forall i | 0 <= i < |frames| ensures Belongs(frames[i], s, ps) {
      assert frames[i] in frames;
    }
  }

  /** The parts that come out of a stream are exactly those delivered. */
  lemma {:induction false} ArrivalsAreDelivered(ck: Checksum, items: seq<Stretch>, s: Schema, ps: seq<bytes>, k: nat)
    requires OfObject(items, s, ps) && |ps| <= MAX16 && k < |ps| && Typed(Arrivals(ck, items))
    ensures R.PartsOf(ps)[k] in PartsIn(Arrivals(ck, items)) <==> Delivers(items, s, ps, k)
    decreases |items|
  {
    hide HasType, IsPiece, Arrived, R.PartsOf;
    if items != [] {
      var frames, more := Arrivals(ck, items), Arrivals(ck, items[1..]);
      assert items[0] in items;
      assert OfObject(items[1..], s, ps);
      ArrivalsBelong(ck, items[1..], s, ps);
      ArrivalsAreDelivered(ck, items[1..], s, ps, k);
      if items[0].Good? {
        var x := items[0].sent;
        var j :| IsPiece(x, s, ps, j);
        PieceArrives(ck, x, s, ps, j);
        OnePiece(x, s, ps, j, k);
        assert PartsIn(frames) == [PartIn(Arrived(ck, x))] + PartsIn(more);
      } else {
        assert frames == more;
      }
    }
  }

  lemma OnePiece(x: Sent, s: Schema, ps: seq<bytes>, k: int, j: int)
    requires IsPiece(x, s, ps, k) && 0 <= j < |ps|
    ensures R.PartsOf(ps)[j] == R.PartsOf(ps)[k] <==> j == k
    ensures IsPiece(x, s, ps, j) <==> j == k
  {
  }

  // ---------------------------------------------------------------- collecting them

  lemma {:induction false} PushAppend(got: map<int, R.Part>, qs: seq<R.Part>, rs: seq<R.Part>)
    ensures R.PushAll(got, qs + rs) == R.PushAll(R.PushAll(got, qs), rs)
    decreases |qs|
  {
    hide R.Push;
    if qs == [] {
      assert qs + rs == rs;
    } else {
      assert (qs + rs)[1..] == qs[1..] + rs;
      PushAppend(R.Push(got, qs[0]), qs[1..], rs);
    }
  }

  /** The buffer collects this object, or nothing yet. */
  ghost predicate CollectsObject(buf: Buffer, s: Schema)
    reads buf, buf.Repr
  {
    buf.Collects() && (buf.schema.Some? ==> buf.schema.value.types == s.types && buf.schema.value.tid == s.tid)
  }

  /** Push all fragments taken out of a receiver. */
  method Collect(buf: Buffer, frags: seq<Fragment>, ghost frames: seq<Frame>, ghost s: Schema, ghost ps: seq<bytes>)
    requires CollectsObject(buf, s) && RBuffer.CarryAll(frags, frames)
    requires (forall f :: f in frames ==> Belongs(f, s, ps)) && Typed(frames)
    modifies buf
    ensures CollectsObject(buf, s) && buf.got == R.PushAll(old(buf.got), PartsIn(frames))
    ensures forall o :: o in buf.Repr ==> o in old(buf.Repr) || o is Fragment || o is array<byte>
  {
    hide HasType, Buffer.Collects, RBuffer.Carries, Belongs, PartIn, R.Push, R.PartsOf, R.Wanted;
    ghost var was := buf.got;
    assert PartsIn(frames[..0]) == [];
    for i := 0 to |frags|
      invariant CollectsObject(buf, s) && buf.got == R.PushAll(was, PartsIn(frames[..i]))
      invariant RBuffer.CarryAll(frags, frames)
      invariant forall o :: o in buf.Repr ==> o in old(buf.Repr) || o is Fragment || o is array<byte>
    {
      var f := frags[i];
      assert frames[i] in frames;
      BelongsCarried(f, frames[i], s, ps);
      var miss, verdict := buf.Push(f);
      PushAppend(was, PartsIn(frames[..i]), [PartIn(frames[i])]);
      assert [PartIn(frames[i])][1..] == [];
      assert PartsIn(frames[..i + 1]) == PartsIn(frames[..i]) + [PartIn(frames[i])];
    }
    assert frames[..|frags|] == frames;
  }

  lemma BelongsCarried(f: Fragment, frame: Frame, s: Schema, ps: seq<bytes>)
    requires RBuffer.Carries(f, frame) && Belongs(frame, s, ps)
    ensures f.Valid() && f.dataLen >= f.headsLen + f.payloadLen && f.dataLen > 0 && -0x8000 <= f.schema.fid <= MAX16
    ensures f.schema.types == s.types && f.schema.tid == s.tid
    ensures R.Part(f.schema.fid, f.Payload()) == PartIn(frame)
  {
  }

  // ---------------------------------------------------------------- the whole way

  /** The fragments of an object in a stream: what reassembly holds is exactly what was delivered. */
  lemma ObjectArrives(ck: Checksum, items: seq<Stretch>, tail: bytes, s: Schema, ps: seq<bytes>, schema: Val)
    requires Streamable(ck, items, tail) && OfObject(items, s, ps) && 1 <= |ps| <= MAX16 && HasType(SCHEMA, schema)
    ensures var w := Whole(ck, Lay(ck, items, tail), schema);
      !w.panicked && Typed(w.frames) && (forall f :: f in w.frames ==> Belongs(f, s, ps))
      && var got := R.PushAll(map[], PartsIn(w.frames));
         R.Among(got, ps) && forall k :: 0 <= k < |ps| ==> (k in got <==> Delivers(items, s, ps, k))
  {
    hide HasType, Belongs, PartIn, R.PartsOf, R.PushAll, Delivers, Whole, Arrivals, Streamable, Lay, R.Among;
    StreamIsReceived(ck, items, tail, schema);
    ArrivalsBelong(ck, items, s, ps);
    var frames := Arrivals(ck, items);
    PartsBelong(frames, s, ps);
    NothingAmong(ps);
    R.PushedIsHeld(map[], ps, PartsIn(frames));
    forall k | 0 <= k < |ps| ensures R.PartsOf(ps)[k] in PartsIn(frames) <==> Delivers(items, s, ps, k) {
      ArrivalsAreDelivered(ck, items, s, ps, k);
    }
  }

  /** So what the buffer wants is the first fragment not delivered. */
  lemma WantedIsMissing(got: map<int, R.Part>, items: seq<Stretch>, s: Schema, ps: seq<bytes>)
    requires ps != [] && R.Among(got, ps) && forall k :: 0 <= k < |ps| ==> (k in got <==> Delivers(items, s, ps, k))
    ensures NamesMissing(R.Wanted(got), items, s, ps)
    ensures R.Wanted(got) == 0 ==> forall k :: 0 <= k < |ps| ==> k in got
  {
    hide R.Wanted, R.Among, Delivers;
    R.WantedExactly(got, ps);
    if R.Wanted(got) != 0 {
      assert !Delivers(items, s, ps, R.Wanted(got) - 1);
    }
  }

  lemma NothingAmong(ps: seq<bytes>)
    ensures R.Among(map[], ps) && |R.PartsOf(ps)| == |ps|
  {
  }

  /** The payloads held, in order. */
  function Payloads(got: map<int, R.Part>): seq<bytes>
    requires forall k :: 0 <= k < |got| ==> k in got
  {
    seq(|got|, k requires 0 <= k < |got| => got[k].payload)
  }

  /**
    End to end. Frames of a marshalled object come in any order, any number of times, with
    noise and broken frames between them, cut into any chunks. Then the receiver wants
    nothing more exactly when every frame came at least once; otherwise it wants the first
    that did not; and when it wants nothing, dumping what it holds gives the value that was
    saved, in normal form, whatever the destination held before, and nothing is left over.
   */
  lemma Delivered(ck: Checksum, ty: Ty, v: Val, s: Schema, a: nat,
                  items: seq<Stretch>, tail: bytes, chunks: seq<bytes>, dest: Val)
    requires WellFormed(ty) && HasType(ty, v) && Fits(v) && a >= 1
    requires var ps := Chop(Enc(ty, v), a); |ps| <= MAX16 && OfObject(items, s, ps)
    requires Streamable(ck, items, tail) && Join(chunks) == Lay(ck, items, tail)
    ensures var ps := Chop(Enc(ty, v), a);
      var w := Chunked(ck, chunks, Whole(ck, [], Zero(SCHEMA)));
      !w.panicked && Typed(w.frames)
      && var got := R.PushAll(map[], PartsIn(w.frames));
         NamesMissing(R.Wanted(got), items, s, ps)
         && (R.Wanted(got) == 0 ==>
               (forall k :: 0 <= k < |got| ==> k in got)
               && Dump(ty, Concat(Payloads(got)), dest) == Out(Ok, Norm(ty, v), []))
  {
    hide HasType, WellFormed, Fits, Whole, Dump, Enc, Norm, Chop, Concat, R.PushAll, R.Wanted, Delivers, Streamable,
      Lay, Chunked, Join, Belongs, R.Among, OfObject, PartIn;
    var ps := Chop(Enc(ty, v), a);
    ChoppedEncoding(ty, v, a);
    ZeroHasType(SCHEMA);
    ChunkingDoesNotMatter(ck, chunks, [], Zero(SCHEMA));
    assert [] + Join(chunks) == Join(chunks);
    ObjectArrives(ck, items, tail, s, ps, Zero(SCHEMA));
    var got := R.PushAll(map[], PartsIn(Whole(ck, Join(chunks), Zero(SCHEMA)).frames));
    WantedIsMissing(got, items, s, ps);
    if R.Wanted(got) == 0 {
      R.AllHeld(got, ps);
      assert Payloads(got) == ps;
      Forward(ty, v, [], dest);
      assert Enc(ty, v) + [] == Enc(ty, v);
    }
  }

  lemma ChoppedEncoding(ty: Ty, v: Val, a: nat)
    requires WellFormed(ty) && HasType(ty, v) && a >= 1
    ensures var ps := Chop(Enc(ty, v), a);
      ps != [] && Concat(ps) == Enc(ty, v) && forall i :: 0 <= i < |ps| ==> ps[i] != []
  {
    hide HasType, WellFormed, Enc, Chop;
    FirstByte(ty, v);
    ChopArithmetic(Enc(ty, v), a);
  }

  /** Every frame of a marshalled object is one a receiver can take, within the limits of the format. */
  lemma ObjectIsSendable(ck: Checksum, s: Schema, mtu: int, payload: bytes, k: nat)
    requires FixedLength(ck) && SchemaFits(s) && |ck([])| <= MAX16 && 1 <= Room(ck, s, mtu) <= MAX16
    requires k < |Chop(payload, Room(ck, s, mtu))| && |s.types| + |s.tid| + |s.info| + |ck([])| >= 14
    ensures var ps := Chop(payload, Room(ck, s, mtu)); Sendable(ck, Sent(s.(fid := R.Fid(k, |ps|)), ps[k]))
  {
    hide Chop, HeadsFor, Lead;
    var a := Room(ck, s, mtu);
    var ps := Chop(payload, a);
    ChopArithmetic(payload, a);
    var t := s.(fid := R.Fid(k, |ps|));
    HeadsSize(t);
    LeadForm(t);
  }

  // ---------------------------------------------------------------- the receiving side

  /** Everything received so far went into the buffer. */
  ghost predicate InStep(recv: RBuffer, buf: Buffer, w: Scanned, s: Schema)
    reads recv, buf, buf.Repr
  {
    && !w.panicked && recv.Valid() && recv.data == w.rest && recv.schema == w.schema
    && CollectsObject(buf, s) && Typed(w.frames) && buf.got == R.PushAll(map[], PartsIn(w.frames))
  }

  /** One chunk taken in, and all its fragments pushed. */
  method TakeIn(recv: RBuffer, buf: Buffer, chunk: bytes,
                ghost stream: bytes, ghost all: bytes, ghost s: Schema, ghost ps: seq<bytes>)
    requires recv !in buf.Repr && InStep(recv, buf, Whole(recv.ck, stream, Zero(SCHEMA)), s)
    requires stream + chunk <= all && !Whole(recv.ck, all, Zero(SCHEMA)).panicked
    requires forall f :: f in Whole(recv.ck, all, Zero(SCHEMA)).frames ==> Belongs(f, s, ps)
    modifies recv, buf
    ensures InStep(recv, buf, Whole(recv.ck, stream + chunk, Zero(SCHEMA)), s)
    ensures forall o :: o in buf.Repr ==> o in old(buf.Repr) || o is Fragment || o is array<byte>
  {
    hide HasType, Buffer.Collects, RBuffer.Valid, RBuffer.CarryAll, Belongs, Whole, R.PushAll, PartIn;
    ghost var sc := Zero(SCHEMA);
    ghost var w := Whole(recv.ck, stream, sc);
    ZeroHasType(SCHEMA);
    WholeExtend(recv.ck, stream, chunk, sc);
    WholeExtend(recv.ck, stream + chunk, all[|stream + chunk|..], sc);
    assert stream + chunk + all[|stream + chunk|..] == all;
    var frags, ok := recv.Drain(chunk);
    ghost var u := Whole(recv.ck, w.rest + chunk, w.schema);
    PartsBelong(u.frames, s, ps);
    Collect(buf, frags, u.frames, s, ps);
    PushAppend(map[], PartsIn(w.frames), PartsIn(u.frames));
    assert PartsIn(w.frames + u.frames) == PartsIn(w.frames) + PartsIn(u.frames);
  }

  /** Read an object out of a buffer that has all its fragments. */
  method ReadObject(buf: Buffer, ty: Ty, dest: Val, ghost v: Val, ghost ps: seq<bytes>) returns (st: Status, val: Val)
    requires buf.Collects() && R.Among(buf.got, ps) && forall k :: 0 <= k < |ps| ==> k in buf.got
    requires WellFormed(ty) && HasType(ty, v) && Fits(v)
    requires Concat(ps) == Enc(ty, v) && forall k :: 0 <= k < |ps| ==> ps[k] != []
    modifies buf
    ensures st == Ok && val == Norm(ty, v) && buf.Unread() == []
  {
    hide HasType, WellFormed, Fits, Dump, Enc, Norm, Concat, Buffer.Held, R.Among;
    Forward(ty, v, [], dest);
    assert Enc(ty, v) + [] == Enc(ty, v);
    buf.Assemble(ps);
    buf.Rewind();
    st, val := DumpInto(ty, buf, dest);
  }

  /** Take in chunk after chunk. */
  method TakeInAll(recv: RBuffer, buf: Buffer, chunks: seq<bytes>, ghost s: Schema, ghost ps: seq<bytes>)
    requires recv !in buf.Repr && InStep(recv, buf, Whole(recv.ck, [], Zero(SCHEMA)), s)
    requires !Whole(recv.ck, Join(chunks), Zero(SCHEMA)).panicked
    requires forall f :: f in Whole(recv.ck, Join(chunks), Zero(SCHEMA)).frames ==> Belongs(f, s, ps)
    modifies recv, buf
    ensures InStep(recv, buf, Whole(recv.ck, Join(chunks), Zero(SCHEMA)), s)
  {
    hide HasType, Whole, Join, Belongs, InStep;
    ghost var all := Join(chunks);
    ghost var stream: bytes := [];
    assert chunks[0..] == chunks;
    for i := 0 to |chunks|
      invariant recv !in buf.Repr && stream + Join(chunks[i..]) == all
      invariant InStep(recv, buf, Whole(recv.ck, stream, Zero(SCHEMA)), s)
    {
      JoinStep(chunks[i..]);
      assert chunks[i..][1..] == chunks[i + 1..];
      assert stream + Join(chunks[i..]) == (stream + chunks[i]) + Join(chunks[i + 1..]);
      TakeIn(recv, buf, chunks[i], stream, all, s, ps);
      stream := stream + chunks[i];
    }
    JoinNone(chunks[|chunks|..]);
    assert stream == all;
  }

  /**
    The receiving side: drain every chunk into one buffer; when nothing is missing, dump it.
    A stream with the frames of a marshalled value gives that value, in normal form, exactly
    when every one of its frames is in the stream; otherwise the first missing one is named.
   */
  method ReceiveObject(ck: Checksum, chunks: seq<bytes>, ty: Ty, dest: Val,
                       ghost v: Val, ghost s: Schema, ghost a: nat, ghost items: seq<Stretch>, ghost tail: bytes)
    returns (miss: int, st: Status, val: Val)
    requires WellFormed(ty) && HasType(ty, v) && Fits(v) && a >= 1
    requires var ps := Chop(Enc(ty, v), a); |ps| <= MAX16 && OfObject(items, s, ps)
    requires Streamable(ck, items, tail) && Join(chunks) == Lay(ck, items, tail)
    ensures NamesMissing(miss, items, s, Chop(Enc(ty, v), a))
    ensures miss == 0 ==> st == Ok && val == Norm(ty, v)
  {
    hide HasType, WellFormed, Fits, Whole, Enc, Norm, Chop, Concat, R.PushAll, R.Wanted, Delivers, Streamable, Lay,
      Join, Belongs, R.Among, OfObject, PartIn, NamesMissing, Buffer.Collects, RBuffer.Valid;
    ghost var ps := Chop(Enc(ty, v), a);
    ZeroHasType(SCHEMA);
    ChoppedEncoding(ty, v, a);
    ObjectArrives(ck, items, tail, s, ps, Zero(SCHEMA));
    var recv := new RBuffer(ck);
    var buf := new Buffer(ck, 0);
    NothingYet(ck);
    TakeInAll(recv, buf, chunks, s, ps);
    st, val := Short, dest;
    WantedIsMissing(buf.got, items, s, ps);
    buf.CollectedNumbers();
    miss := buf.Wanted(buf.got);
    if miss == 0 {
      st, val := ReadObject(buf, ty, dest, v, ps);
    }
  }

  lemma NothingYet(ck: Checksum)
    ensures Whole(ck, [], Zero(SCHEMA)) == Scanned([], [], Zero(SCHEMA), false)
    ensures R.PushAll(map[], []) == map[]
  {
  }

  lemma JoinStep(chunks: seq<bytes>)
    requires chunks != []
    ensures Join(chunks) == chunks[0] + Join(chunks[1..])
  {
  }

  lemma JoinNone(chunks: seq<bytes>)
    requires chunks == []
    ensures Join(chunks) == []
  {
  }

  // ---------------------------------------------------------------- sender to receiver

  /** The frame of fragment k. */
  function PieceOf(s: Schema, ps: seq<bytes>, k: nat): Sent
    requires k < |ps|
  {
    Sent(s.(fid := R.Fid(k, |ps|)), ps[k])
  }

  /** Frames sent one after the other, without noise. */
  function InOrder(s: Schema, ps: seq<bytes>, order: seq<nat>): (r: seq<Stretch>)
    requires forall i :: 0 <= i < |order| ==> order[i] < |ps|
    ensures |r| == |order|
  {
    seq(|order|, i requires 0 <= i < |order| => Good([], PieceOf(s, ps, order[i])))
  }

  lemma {:induction false} InOrderIsStream(ck: Checksum, s: Schema, ps: seq<bytes>, order: seq<nat>, chunks: seq<bytes>)
    requires forall i :: 0 <= i < |order| ==> order[i] < |ps|
    requires forall k :: 0 <= k < |ps| ==> Sendable(ck, PieceOf(s, ps, k))
    requires |chunks| == |order| && forall i :: 0 <= i < |order| ==> chunks[i] == FramesOf(ck, s, ps)[order[i]]
    ensures var items := InOrder(s, ps, order);
      && Streamable(ck, items, []) && Join(chunks) == Lay(ck, items, []) && OfObject(items, s, ps)
      && forall k :: Delivers(items, s, ps, k) <==> 0 <= k < |ps| && k in order
    decreases |order|
  {
    hide FrameOf, Sendable, R.Fid;
    var items := InOrder(s, ps, order);
    if order != [] {
      var more := InOrder(s, ps, order[1..]);
      assert items[1..] == more;
      InOrderIsStream(ck, s, ps, order[1..], chunks[1..]);
      assert forall x: nat :: x in order <==> x == order[0] || x in order[1..];
      var x := PieceOf(s, ps, order[0]);
      assert IsPiece(x, s, ps, order[0]);
      forall k ensures IsPiece(x, s, ps, k) <==> k == order[0] {
        if 0 <= k < |ps| { OnePiece(x, s, ps, order[0], k); }
      }
      assert [] + (BytesOf(ck, x) + Lay(ck, more, [])) == chunks[0] + Join(chunks[1..]);
    }
  }

  /**
    Marshal a value, hand its frames over in any order with any repetitions, and receive
    them: what comes out is the value in normal form, exactly when no frame was left out.
   */
  method Pipe(ck: Checksum, ty: Ty, v: Val, s: Schema, mtu: int, order: seq<nat>, dest: Val)
    returns (sent: bool, miss: int, st: Status, val: Val)
    requires WellFormed(ty) && HasType(ty, v) && Fits(v)
    requires FixedLength(ck) && SchemaFits(s) && |ck([])| <= MAX16 && |s.types| + |s.tid| + |s.info| + |ck([])| >= 14
    requires Room(ck, s, mtu) <= MAX16
    requires Room(ck, s, mtu) >= 1 ==>
      |Chop(Enc(ty, v), Room(ck, s, mtu))| <= MAX16
      && forall i :: 0 <= i < |order| ==> order[i] < |Chop(Enc(ty, v), Room(ck, s, mtu))|
    ensures sent <==> Room(ck, s, mtu) >= 1
    ensures sent ==>
      (miss == 0 <==> forall k :: 0 <= k < |Chop(Enc(ty, v), Room(ck, s, mtu))| ==> k in order)
      && (miss != 0 ==> miss - 1 !in order && forall k :: 0 <= k < miss - 1 ==> k in order)
      && (miss == 0 ==> st == Ok && val == Norm(ty, v))
  {
    hide WellFormed, HasType, Fits, Norm, Enc, Chop, Room, FrameOf, Buffer.Held, Buffer.Cursor, InOrder, Streamable,
      Lay, Join, OfObject, Delivers, Sendable, SchemaFits, Holds;
    miss, st, val := 0, Short, dest;
    var buf := new Buffer(ck, mtu);
    sent := Marshal(buf, ty, v, s);
    if !sent {
      return;
    }
    ghost var a := Room(ck, s, mtu);
    ghost var ps := Chop(Enc(ty, v), a);
    var chunks := HandOver(buf, order, FramesOf(ck, s, ps));
    forall k | 0 <= k < |ps| ensures Sendable(ck, PieceOf(s, ps, k)) {
      ObjectIsSendable(ck, s, mtu, Enc(ty, v), k);
    }
    InOrderIsStream(ck, s, ps, order, chunks);
    miss, st, val := ReceiveObject(ck, chunks, ty, dest, v, s, a, InOrder(s, ps, order), []);
  }

  /** The bytes of a buffer's fragments, in some order. */
  method HandOver(buf: Buffer, order: seq<nat>, ghost frames: seq<bytes>) returns (chunks: seq<bytes>)
    requires Holds(buf, frames) && forall i :: 0 <= i < |order| ==> order[i] < |frames|
    ensures |chunks| == |order| && forall i :: 0 <= i < |order| ==> chunks[i] == frames[order[i]]
  {
    hide Holds;
    chunks := [];
    for i := 0 to |order|
      invariant |chunks| == i && forall j :: 0 <= j < i ==> chunks[j] == frames[order[j]]
    {
      DataIs(buf, frames, order[i]);
      chunks := chunks + [buf.fragments[order[i]].Data()];
    }
  }

  lemma DataIs(buf: Buffer, frames: seq<bytes>, k: nat)
    requires Holds(buf, frames) && k < |frames|
    ensures k in buf.fragments && buf.fragments[k].Valid() && buf.fragments[k].Data() == frames[k]
  {
  }
}
