/**
  Several objects over one stream: the receiver drains it and files every fragment, and each
  object is collected exactly from its own frames in the stream.
 */
module Sharing {
  import opened Wire
  import opened Types
  import opened RoundTrip
  import opened Frames
  import opened Scan
  import opened Buffers
  import opened Receiver
  import opened Delivery
  import opened EndToEnd
  import D = Demux
  import opened Codec
  import opened Pieces
  import R = Reassembly

  // ---------------------------------------------------------------- as functions

  function ArrivingOf(f: Frame): D.Incoming
    requires HasType(SCHEMA, f.schema)
  {
    D.Incoming(SchemaOf(f.schema), f.payload)
  }

  /** Each frame is put in, in order. */
  function PutsOf(frames: seq<Frame>): (r: seq<D.Op>)
    requires Typed(frames)
    ensures |r| == |frames|
  {
    seq(|frames|, i requires 0 <= i < |frames| => D.Put(ArrivingOf(frames[i])))
  }

  function KeyOfSchema(registry: map<bytes, D.Location>, s: Schema): D.Key {
    if s.types in registry then D.Known(registry[s.types].family, registry[s.types].version, s.tid)
    else D.Unknown(s.types, s.tid)
  }

  /** The stretches with frames of one object. */
  function Own(registry: map<bytes, D.Location>, items: seq<Stretch>, k: D.Key): seq<Stretch> {
    if items == [] then []
    else
      (if items[0].Good? && KeyOfSchema(registry, items[0].sent.schema) == k then [items[0]] else [])
      + Own(registry, items[1..], k)
  }

  lemma {:induction false} ArrivalsTyped(ck: Checksum, items: seq<Stretch>)
    ensures Typed(Arrivals(ck, items))
  {
    hide HasType, Arrived;
    if items != [] {
      ArrivalsTyped(ck, items[1..]);
      if items[0].Good? {
        SchemaOfVal(items[0].sent.schema);
        ArrivedParts(ck, items[0].sent);
      }
    }
  }

  lemma PutsStep(f: Frame, more: seq<Frame>)
    requires HasType(SCHEMA, f.schema) && Typed(more)
    ensures Typed([f] + more) && PutsOf([f] + more) == [D.Put(ArrivingOf(f))] + PutsOf(more)
  {
    hide HasType, ArrivingOf;
  }

  lemma NoPuts()
    ensures PutsOf([]) == []
  {
  }

  /** The operations about an object are those of its own frames. */
  lemma {:induction false} OwnArrivals(ck: Checksum, registry: map<bytes, D.Location>, items: seq<Stretch>, k: D.Key)
    ensures Typed(Arrivals(ck, items)) && Typed(Arrivals(ck, Own(registry, items, k)))
    ensures D.OwnOps(registry, PutsOf(Arrivals(ck, items)), k) == PutsOf(Arrivals(ck, Own(registry, items, k)))
    decreases |items|
  {
    hide HasType, Arrived, ArrivingOf, PutsOf, D.KeyOf;
    NoPuts();
    ArrivalsTyped(ck, items);
    ArrivalsTyped(ck, Own(registry, items, k));
    if items != [] {
      OwnArrivals(ck, registry, items[1..], k);
      var more := Arrivals(ck, items[1..]);
      var own := Own(registry, items[1..], k);
      if items[0].Good? {
        var x := items[0].sent;
        var f := Arrived(ck, x);
        ArrivedKey(ck, registry, x);
        PutsStep(f, more);
        assert PutsOf([f] + more)[1..] == PutsOf(more);
        if KeyOfSchema(registry, x.schema) == k {
          assert ([items[0]] + own)[1..] == own;
          PutsStep(f, Arrivals(ck, own));
        } else {
          assert [] + own == own;
        }
      } else {
        assert [] + more == more && [] + own == own;
      }
    }
  }

  lemma ArrivedKey(ck: Checksum, registry: map<bytes, D.Location>, x: Sent)
    ensures HasType(SCHEMA, Arrived(ck, x).schema)
    ensures D.KeyOf(registry, ArrivingOf(Arrived(ck, x))) == KeyOfSchema(registry, x.schema)
  {
    hide HasType, Arrived;
    SchemaOfVal(x.schema);
    ArrivedParts(ck, x);
  }

  /** Frames of one object, put in one after the other, are pushes of its parts. */
  lemma {:induction false} AloneIsPushing(o: D.Object, frames: seq<Frame>, s: Schema, ps: seq<bytes>)
    requires (forall f :: f in frames ==> Belongs(f, s, ps)) && Typed(frames)
    requires o.types == s.types && o.tid == s.tid
    ensures D.Alone(Some(o), PutsOf(frames)) == Some(o.(got := R.PushAll(o.got, PartsIn(frames))))
    decreases |frames|
  {
    hide HasType, PutsOf, R.Push, R.PartsOf;
    if frames == [] {
      NoPuts();
    } else {
      var f, more := frames[0], frames[1..];
      assert f in frames && Belongs(f, s, ps);
      PutsStep(f, more);
      assert frames == [f] + more;
      var next := o.(got := R.Push(o.got, PartIn(f)));
      AloneIsPushing(next, more, s, ps);
      assert PutsOf(frames)[1..] == PutsOf(more);
      assert PartsIn(frames)[1..] == PartsIn(more);
    }
  }

  /** So an object that begins with its first frame holds the parts of all. */
  lemma FreshIsPushing(frames: seq<Frame>, s: Schema, ps: seq<bytes>)
    requires (forall f :: f in frames ==> Belongs(f, s, ps)) && Typed(frames)
    ensures D.Alone(None, PutsOf(frames))
      == if frames == [] then None else Some(D.Object(s.types, s.tid, R.PushAll(map[], PartsIn(frames))))
  {
    hide HasType, PutsOf, R.PartsOf;
    if frames == [] {
      NoPuts();
    } else {
      var f, more := frames[0], frames[1..];
      assert f in frames && Belongs(f, s, ps);
      PutsStep(f, more);
      assert frames == [f] + more;
      var first := D.Object(s.types, s.tid, R.Push(map[], PartIn(f)));
      AloneIsPushing(first, more, s, ps);
      assert PutsOf(frames)[1..] == PutsOf(more);
      assert PartsIn(frames)[1..] == PartsIn(more);
    }
  }

  /** No two objects in the stream share a key with this one. */
  ghost predicate OnlyObject(registry: map<bytes, D.Location>, items: seq<Stretch>, s: Schema, ps: seq<bytes>) {
    forall x :: x in items && x.Good? && KeyOfSchema(registry, x.sent.schema) == KeyOfSchema(registry, s) ==>
      exists k :: IsPiece(x.sent, s, ps, k)
  }

  lemma {:induction false} OwnIsDelivered(registry: map<bytes, D.Location>, items: seq<Stretch>, s: Schema,
                                          ps: seq<bytes>)
    requires OnlyObject(registry, items, s, ps)
    ensures var own := Own(registry, items, KeyOfSchema(registry, s));
      OfObject(own, s, ps) && forall k :: Delivers(own, s, ps, k) <==> Delivers(items, s, ps, k)
    decreases |items|
  {
    hide D.KeyOf, R.Fid;
    if items != [] {
      assert OnlyObject(registry, items[1..], s, ps);
      OwnIsDelivered(registry, items[1..], s, ps);
      var key := KeyOfSchema(registry, s);
      var own, more := Own(registry, items, key), Own(registry, items[1..], key);
      assert items[0] in items;
      forall k ensures Delivers(own, s, ps, k) <==> Delivers(items, s, ps, k) {
        if items[0].Good? {
          PieceKey(registry, items[0].sent, s, ps, k);
          if KeyOfSchema(registry, items[0].sent.schema) == key {
            assert own[1..] == more;
          } else {
            assert own == more;
          }
        } else {
          assert own == more;
        }
      }
    }
  }

  lemma PieceKey(registry: map<bytes, D.Location>, x: Sent, s: Schema, ps: seq<bytes>, k: int)
    ensures IsPiece(x, s, ps, k) ==> KeyOfSchema(registry, x.schema) == KeyOfSchema(registry, s)
  {
  }

  /**
    Many objects in one stream, with noise and broken frames between their frames, cut into
    any chunks: each object is begun exactly when one of its frames came, and then wants
    nothing more exactly when all came, and otherwise the first that did not.
   */
  lemma ObjectsShareAStream(ck: Checksum, registry: map<bytes, D.Location>, items: seq<Stretch>, tail: bytes,
                            chunks: seq<bytes>, s: Schema, ps: seq<bytes>)
    requires Streamable(ck, items, tail) && Join(chunks) == Lay(ck, items, tail)
    requires 1 <= |ps| <= MAX16 && OnlyObject(registry, items, s, ps)
    ensures var w := Chunked(ck, chunks, Whole(ck, [], Zero(SCHEMA)));
      !w.panicked && Typed(w.frames)
      && var o := D.Get(D.Run(registry, map[], PutsOf(w.frames)), KeyOfSchema(registry, s));
         (o == None <==> forall k :: 0 <= k < |ps| ==> !Delivers(items, s, ps, k))
         && (o.Some? ==> o.value.types == s.types && o.value.tid == s.tid && R.Among(o.value.got, ps)
                         && NamesMissing(R.Wanted(o.value.got), items, s, ps))
  {
    hide HasType, Streamable, Lay, Chunked, Whole, Join, OnlyObject, Delivers, OfObject, R.Wanted, R.Among, R.PushAll,
      PutsOf, Own, Arrivals, Belongs, D.Run, D.Alone, NamesMissing;
    var k := KeyOfSchema(registry, s);
    var own := Own(registry, items, k);
    ZeroHasType(SCHEMA);
    ChunkingDoesNotMatter(ck, chunks, [], Zero(SCHEMA));
    assert [] + Join(chunks) == Join(chunks);
    StreamIsReceived(ck, items, tail, Zero(SCHEMA));
    OwnArrivals(ck, registry, items, k);
    D.ObjectsDoNotMix(registry, map[], PutsOf(Arrivals(ck, items)), k);
    OwnIsDelivered(registry, items, s, ps);
    CollectedAlone(ck, own, s, ps);
    NamesSame(own, items, s, ps);
  }

  /** The same for the frames of the object alone. */
  lemma CollectedAlone(ck: Checksum, own: seq<Stretch>, s: Schema, ps: seq<bytes>)
    requires OfObject(own, s, ps) && 1 <= |ps| <= MAX16
    ensures Typed(Arrivals(ck, own))
    ensures var o := D.Alone(None, PutsOf(Arrivals(ck, own)));
      (o == None <==> forall k :: 0 <= k < |ps| ==> !Delivers(own, s, ps, k))
      && (o.Some? ==> o.value.types == s.types && o.value.tid == s.tid && R.Among(o.value.got, ps)
                      && NamesMissing(R.Wanted(o.value.got), own, s, ps))
  {
    hide HasType, Delivers, OfObject, R.Wanted, R.Among, R.PushAll, R.PartsOf, PutsOf, Arrivals, Belongs, D.Alone,
      NamesMissing, PartIn;
    var frames := Arrivals(ck, own);
    ArrivalsBelong(ck, own, s, ps);
    PartsBelong(frames, s, ps);
    FreshIsPushing(frames, s, ps);
    NothingAmong(ps);
    forall k | 0 <= k < |ps| ensures R.PartsOf(ps)[k] in PartsIn(frames) <==> Delivers(own, s, ps, k) {
      ArrivalsAreDelivered(ck, own, s, ps, k);
    }
    if frames != [] {
      R.PushedIsHeld(map[], ps, PartsIn(frames));
      var got := R.PushAll(map[], PartsIn(frames));
      WantedIsMissing(got, own, s, ps);
      assert PartsIn(frames)[0] in PartsIn(frames);
    }
  }

  lemma NamesSame(own: seq<Stretch>, items: seq<Stretch>, s: Schema, ps: seq<bytes>)
    requires forall k :: Delivers(own, s, ps, k) <==> Delivers(items, s, ps, k)
    ensures forall m :: NamesMissing(m, own, s, ps) <==> NamesMissing(m, items, s, ps)
  {
    hide Delivers;
  }

  // ---------------------------------------------------------------- as the receiver does it

  lemma {:induction false} RunAppend(registry: map<bytes, D.Location>, objects: map<D.Key, D.Object>, a: seq<D.Op>,
                                     b: seq<D.Op>)
    ensures D.Run(registry, objects, a + b) == D.Run(registry, D.Run(registry, objects, a), b)
    decreases |a|
  {
    hide D.Step;
    if a == [] {
      assert a + b == b;
    } else {
      assert (a + b)[1..] == a[1..] + b;
      RunAppend(registry, D.Step(registry, objects, a[0]), a[1..], b);
    }
  }

  lemma RunOne(registry: map<bytes, D.Location>, objects: map<D.Key, D.Object>, op: D.Op)
    ensures D.Run(registry, objects, [op]) == D.Step(registry, objects, op)
  {
    assert [op][1..] == [];
  }

  /** Frame i of those put in completes its object. */
  predicate Done(registry: map<bytes, D.Location>, objects: map<D.Key, D.Object>, frames: seq<Frame>, i: nat)
    requires Typed(frames) && i < |frames|
  {
    D.Completes(registry, D.Run(registry, objects, PutsOf(frames[..i + 1])), ArrivingOf(frames[i]))
  }

  /** The last frame from i on completes its object, so there is one. */
  predicate EndsDone(registry: map<bytes, D.Location>, objects: map<D.Key, D.Object>, frames: seq<Frame>, i: nat)
    requires Typed(frames)
  {
    i < |frames| && Done(registry, objects, frames, |frames| - 1)
  }

  /** Some frame from i on does. */
  ghost predicate SomeDone(registry: map<bytes, D.Location>, objects: map<D.Key, D.Object>, frames: seq<Frame>, i: nat)
    requires Typed(frames)
  {
    exists j :: i <= j < |frames| && Done(registry, objects, frames, j)
  }

  /** File all fragments taken out of a receiver; whether the last, and whether any, completed an object. */
  method FileAll(shelf: D.Shelf, frags: seq<Fragment>, ghost frames: seq<Frame>) returns (exit: bool, got: bool)
    requires shelf.Valid() && RBuffer.CarryAll(frags, frames) && Typed(frames)
    modifies shelf, shelf.buffers.Values
    ensures shelf.Valid() && shelf.objects == D.Run(shelf.registry, old(shelf.objects), PutsOf(frames))
    ensures exit == EndsDone(shelf.registry, old(shelf.objects), frames, 0)
    ensures got == SomeDone(shelf.registry, old(shelf.objects), frames, 0)
    ensures forall o :: o in shelf.parts ==> o in old(shelf.parts) || o is Fragment || o is array<byte>
    ensures forall b :: b in shelf.buffers.Values ==> b in old(shelf.buffers.Values) || fresh(b)
  {
    hide HasType, D.Shelf.Valid, RBuffer.Carries, ArrivingOf, PutsOf, D.Run, D.Step, D.Completes;
    ghost var was := shelf.objects;
    NothingRun(shelf.registry, was);
    NoPuts();
    exit, got := false, false;
    assert frames[..0] == [];
    for i := 0 to |frags|
      invariant shelf.Valid() && RBuffer.CarryAll(frags, frames)
      invariant forall b :: b in shelf.buffers.Values ==> b in old(shelf.buffers.Values) || fresh(b)
      invariant forall o :: o in shelf.parts ==> o in old(shelf.parts) || o is Fragment || o is array<byte>
      invariant shelf.objects == D.Run(shelf.registry, was, PutsOf(frames[..i]))
      invariant exit == (i > 0 && Done(shelf.registry, was, frames, i - 1))
      invariant got == exists j :: 0 <= j < i && Done(shelf.registry, was, frames, j)
    {
      exit := FileOne(shelf, frags[i], frames, i, was);
      got := got || exit;
    }
    assert frames[..|frags|] == frames;
  }

  /** File one of them. */
  method FileOne(shelf: D.Shelf, frag: Fragment, ghost frames: seq<Frame>, ghost i: nat,
                 ghost was: map<D.Key, D.Object>)
    returns (done: bool)
    requires shelf.Valid() && Typed(frames) && i < |frames| && RBuffer.Carries(frag, frames[i])
    requires shelf.objects == D.Run(shelf.registry, was, PutsOf(frames[..i]))
    modifies shelf, shelf.buffers.Values
    ensures shelf.Valid() && shelf.objects == D.Run(shelf.registry, was, PutsOf(frames[..i + 1]))
    ensures done == Done(shelf.registry, was, frames, i)
    ensures forall o :: o in shelf.parts ==> o in old(shelf.parts) || o is Fragment || o is array<byte>
    ensures forall b :: b in shelf.buffers.Values ==> b in old(shelf.buffers.Values) || fresh(b)
  {
    hide HasType, D.Shelf.Valid, RBuffer.Carries, ArrivingOf, PutsOf, D.Run, D.Step, R.Wanted, D.Accepts, D.KeyOf;
    ArrivesAs(frag, frames[i]);
    RunMore(shelf.registry, was, frames, i);
    var outcome := shelf.Push(frag);
    done := outcome == D.Complete;
  }

  lemma RunMore(registry: map<bytes, D.Location>, objects: map<D.Key, D.Object>, frames: seq<Frame>, i: nat)
    requires Typed(frames) && i < |frames|
    ensures D.Run(registry, objects, PutsOf(frames[..i + 1]))
      == D.Step(registry, D.Run(registry, objects, PutsOf(frames[..i])), D.Put(ArrivingOf(frames[i])))
  {
    hide HasType, ArrivingOf, D.Run, D.Step;
    var op := D.Put(ArrivingOf(frames[i]));
    assert PutsOf(frames[..i + 1]) == PutsOf(frames[..i]) + [op];
    RunAppend(registry, objects, PutsOf(frames[..i]), [op]);
    RunOne(registry, D.Run(registry, objects, PutsOf(frames[..i])), op);
  }

  lemma NothingRun(registry: map<bytes, D.Location>, objects: map<D.Key, D.Object>)
    ensures D.Run(registry, objects, []) == objects
  {
  }

  lemma ArrivesAs(f: Fragment, frame: Frame)
    requires RBuffer.Carries(f, frame)
    ensures f.Valid() && f.dataLen >= f.headsLen + f.payloadLen && f.dataLen > 0 && -0x8000 <= f.schema.fid <= MAX16
    ensures D.Shelf.InOf(f) == ArrivingOf(frame)
  {
  }

  /** Take in a chunk, and file every fragment that comes out: the receiver's inner loop. */
  method ServeChunk(recv: RBuffer, shelf: D.Shelf, chunk: bytes) returns (ok: bool, exit: bool, got: bool)
    requires recv.Valid() && shelf.Valid() && recv !in shelf.parts
    modifies recv, shelf, shelf.buffers.Values
    ensures var w := Whole(recv.ck, old(recv.data) + chunk, old(recv.schema));
      && ok == !w.panicked && (ok ==> recv.Valid() && recv.data == w.rest && recv.schema == w.schema)
      && Typed(w.frames) && shelf.Valid() && recv !in shelf.parts
      && shelf.objects == D.Run(shelf.registry, old(shelf.objects), PutsOf(w.frames))
      && exit == EndsDone(shelf.registry, old(shelf.objects), w.frames, 0)
      && got == SomeDone(shelf.registry, old(shelf.objects), w.frames, 0)
    ensures forall b :: b in shelf.buffers.Values ==> b in old(shelf.buffers.Values) || fresh(b)
  {
    hide HasType, D.Shelf.Valid, RBuffer.Valid, RBuffer.Carries, Whole, D.Run, PutsOf, EndsDone, SomeDone;
    ghost var w := Whole(recv.ck, recv.data + chunk, recv.schema);
    var frags;
    frags, ok := recv.Drain(chunk);
    CarriedIsTyped(frags, w.frames);
    exit, got := FileAll(shelf, frags, w.frames);
  }

  lemma CarriedIsTyped(frags: seq<Fragment>, frames: seq<Frame>)
    requires RBuffer.CarryAll(frags, frames)
    ensures Typed(frames)
  {
    hide HasType;
    forall i | 0 <= i < |frames| ensures HasType(SCHEMA, frames[i].schema) {
      assert RBuffer.Carries(frags[i], frames[i]);
    }
  }

  /** The receiver and its shelf are where the stream so far brings them. */
  ghost predicate Along(recv: RBuffer, shelf: D.Shelf, w: Scanned)
    reads recv, shelf, shelf.buffers.Values, shelf.parts
  {
    && !w.panicked && recv.Valid() && recv.data == w.rest && recv.schema == w.schema && recv !in shelf.parts
    && shelf.Valid() && Typed(w.frames) && shelf.objects == D.Run(shelf.registry, map[], PutsOf(w.frames))
  }

  /** One chunk further: whether it ends with a completed object, and whether it completes any. */
  method Advance(recv: RBuffer, shelf: D.Shelf, chunk: bytes, ghost stream: bytes)
    returns (ok: bool, exit: bool, got: bool)
    requires Along(recv, shelf, Whole(recv.ck, stream, Zero(SCHEMA)))
    modifies recv, shelf, shelf.buffers.Values
    ensures ok == !Whole(recv.ck, stream + chunk, Zero(SCHEMA)).panicked
    ensures ok ==> Along(recv, shelf, Whole(recv.ck, stream + chunk, Zero(SCHEMA)))
    ensures ok ==>
      var w, u := Whole(recv.ck, stream, Zero(SCHEMA)), Whole(recv.ck, stream + chunk, Zero(SCHEMA));
      && w.frames <= u.frames && Typed(u.frames)
      && exit == EndsDone(shelf.registry, map[], u.frames, |w.frames|)
      && got == SomeDone(shelf.registry, map[], u.frames, |w.frames|)
    ensures forall b :: b in shelf.buffers.Values ==> b in old(shelf.buffers.Values) || fresh(b)
  {
    hide HasType, D.Shelf.Valid, RBuffer.Valid, Whole, D.Run, PutsOf, Zero, EndsDone, SomeDone;
    ghost var w := Whole(recv.ck, stream, Zero(SCHEMA));
    ZeroHasType(SCHEMA);
    WholeExtend(recv.ck, stream, chunk, Zero(SCHEMA));
    ok, exit, got := ServeChunk(recv, shelf, chunk);
    ghost var u := Whole(recv.ck, w.rest + chunk, w.schema);
    PutsAppend(w.frames, u.frames);
    RunAppend(shelf.registry, map[], PutsOf(w.frames), PutsOf(u.frames));
    DoneLater(shelf.registry, w.frames, u.frames);
  }

  /** What a chunk completes, it completes also as seen from the beginning. */
  lemma DoneLater(registry: map<bytes, D.Location>, a: seq<Frame>, b: seq<Frame>)
    requires Typed(a) && Typed(b)
    ensures var objects := D.Run(registry, map[], PutsOf(a));
      Typed(a + b) && (EndsDone(registry, objects, b, 0) <==> EndsDone(registry, map[], a + b, |a|))
      && (SomeDone(registry, objects, b, 0) <==> SomeDone(registry, map[], a + b, |a|))
  {
    hide HasType, D.Run, PutsOf, Done;
    var objects := D.Run(registry, map[], PutsOf(a));
    assert Typed(a + b);
    forall i: nat | i < |b| ensures Done(registry, objects, b, i) <==> Done(registry, map[], a + b, |a| + i) {
      DoneThen(registry, a, b, i);
    }
    if SomeDone(registry, map[], a + b, |a|) {
      var j :| |a| <= j < |a + b| && Done(registry, map[], a + b, j);
      assert Done(registry, objects, b, j - |a|);
    }
    if SomeDone(registry, objects, b, 0) {
      var j :| 0 <= j < |b| && Done(registry, objects, b, j);
      assert Done(registry, map[], a + b, |a| + j);
    }
    if b != [] {
      assert |a + b| - 1 == |a| + (|b| - 1);
    }
  }

  lemma DoneThen(registry: map<bytes, D.Location>, a: seq<Frame>, b: seq<Frame>, i: nat)
    requires Typed(a) && Typed(b) && i < |b|
    ensures Typed(a + b)
    ensures Done(registry, D.Run(registry, map[], PutsOf(a)), b, i) <==> Done(registry, map[], a + b, |a| + i)
  {
    hide HasType, D.Run, D.Completes, PutsOf, ArrivingOf;
    PutsAppend(a, b[..i + 1]);
    RunAppend(registry, map[], PutsOf(a), PutsOf(b[..i + 1]));
    assert (a + b)[..|a| + i + 1] == a + b[..i + 1];
    assert (a + b)[|a| + i] == b[i];
  }

  lemma PutsAppend(a: seq<Frame>, b: seq<Frame>)
    requires Typed(a) && Typed(b)
    ensures Typed(a + b) && PutsOf(a + b) == PutsOf(a) + PutsOf(b)
  {
    hide HasType, ArrivingOf;
  }

  /** Chunk n, counted from 1, is the last to be read: it is empty, or its last fragment completes an object. */
  ghost predicate StopsAt(ck: Checksum, registry: map<bytes, D.Location>, stream: bytes, chunks: seq<bytes>, n: nat)
    requires 1 <= n <= |chunks|
  {
    var w, u := Upto(ck, stream, chunks, n - 1), Upto(ck, stream, chunks, n);
    chunks[n - 1] == [] || (Typed(u.frames) && EndsDone(registry, map[], u.frames, |w.frames|))
  }

  /**
    The rule to stop by, spelled out: the chunk is empty, or it brings frames, and once all are
    filed the object of the last one, of a registered type, has everything. An object that was
    completed earlier in the chunk does not stop the reading.
   */
  lemma StopRule(ck: Checksum, registry: map<bytes, D.Location>, stream: bytes, chunks: seq<bytes>, n: nat)
    requires 1 <= n <= |chunks| && Typed(Upto(ck, stream, chunks, n).frames)
    ensures var before, frames := |Upto(ck, stream, chunks, n - 1).frames|, Upto(ck, stream, chunks, n).frames;
      StopsAt(ck, registry, stream, chunks, n) <==>
        chunks[n - 1] == []
        || (before < |frames|
            && var s := SchemaOf(frames[|frames| - 1].schema);
               var objects := D.Run(registry, map[], PutsOf(frames));
               && s.types in registry
               && var k := D.Known(registry[s.types].family, registry[s.types].version, s.tid);
                  && k in objects && objects[k].types == s.types && objects[k].tid == s.tid
                  && R.Wanted(objects[k].got) == 0)
  {
    hide HasType, Upto, D.Run, PutsOf, R.Wanted;
    var frames := Upto(ck, stream, chunks, n).frames;
    if frames != [] {
      assert frames[..|frames|] == frames;
    }
  }

  /** What is scanned once n chunks have come behind a stream. */
  function Upto(ck: Checksum, stream: bytes, chunks: seq<bytes>, n: nat): Scanned
    requires n <= |chunks|
  {
    Whole(ck, stream + Join(chunks[..n]), Zero(SCHEMA))
  }

  /**
    Read chunks until one is empty or ends with a completed object. What has been read is
    served in full, and `got` tells whether any object was completed on the way.
   */
  method ExtractReader(recv: RBuffer, shelf: D.Shelf, chunks: seq<bytes>, ghost stream: bytes)
    returns (ok: bool, used: nat, got: bool)
    requires Along(recv, shelf, Whole(recv.ck, stream, Zero(SCHEMA)))
    modifies recv, shelf, shelf.buffers.Values
    ensures used <= |chunks| && (chunks != [] ==> used >= 1)
    ensures ok == !Upto(recv.ck, stream, chunks, used).panicked
    ensures forall n :: 1 <= n < used ==> !StopsAt(recv.ck, shelf.registry, stream, chunks, n)
    ensures ok && used < |chunks| ==> StopsAt(recv.ck, shelf.registry, stream, chunks, used)
    ensures ok ==>
      var w, u := Whole(recv.ck, stream, Zero(SCHEMA)), Upto(recv.ck, stream, chunks, used);
      && Along(recv, shelf, u) && w.frames <= u.frames && Typed(u.frames)
      && got == SomeDone(shelf.registry, map[], u.frames, |w.frames|)
    ensures forall b :: b in shelf.buffers.Values ==> b in old(shelf.buffers.Values) || fresh(b)
  {
    hide HasType, D.Shelf.Valid, RBuffer.Valid, Whole, Join, D.Run, PutsOf, Zero, EndsDone, SomeDone, Done, Along;
    ghost var w := Whole(recv.ck, stream, Zero(SCHEMA));
    ok, used, got := true, 0, false;
    var exit := false;
    JoinNone(chunks[..0]);
    assert stream + Join(chunks[..0]) == stream;
    NoneDone(shelf.registry, recv, shelf, w);
    while used < |chunks| && !exit
      invariant used <= |chunks| && (exit ==> used >= 1)
      invariant forall b :: b in shelf.buffers.Values ==> b in old(shelf.buffers.Values) || fresh(b)
      invariant forall n :: 1 <= n < used ==> !StopsAt(recv.ck, shelf.registry, stream, chunks, n)
      invariant used >= 1 ==> exit == StopsAt(recv.ck, shelf.registry, stream, chunks, used)
      invariant !Upto(recv.ck, stream, chunks, used).panicked && Along(recv, shelf, Upto(recv.ck, stream, chunks, used))
      invariant var u := Upto(recv.ck, stream, chunks, used);
        && w.frames <= u.frames && Typed(u.frames) && got == SomeDone(shelf.registry, map[], u.frames, |w.frames|)
    {
      ghost var u := Upto(recv.ck, stream, chunks, used);
      JoinNext(stream, chunks, used);
      var more;
      ok, exit, more := Advance(recv, shelf, chunks[used], stream + Join(chunks[..used]));
      exit, used := exit || chunks[used] == [], used + 1;
      if !ok {
        return;
      }
      DoneSoFar(shelf.registry, w.frames, u.frames, Upto(recv.ck, stream, chunks, used).frames);
      got := got || more;
    }
  }

  lemma NoneDone(registry: map<bytes, D.Location>, recv: RBuffer, shelf: D.Shelf, w: Scanned)
    requires Along(recv, shelf, w)
    ensures !w.panicked && Typed(w.frames) && !SomeDone(registry, map[], w.frames, |w.frames|)
  {
    hide D.Shelf.Valid, RBuffer.Valid, D.Run, PutsOf;
  }

  lemma JoinNext(stream: bytes, chunks: seq<bytes>, n: nat)
    requires n < |chunks|
    ensures stream + Join(chunks[..n + 1]) == (stream + Join(chunks[..n])) + chunks[n]
  {
    hide Join;
    assert chunks[..n + 1] == chunks[..n] + [chunks[n]];
    JoinAppend(chunks[..n], [chunks[n]]);
    JoinStep([chunks[n]]);
    JoinNone([chunks[n]][1..]);
  }

  lemma {:induction false} JoinAppend(a: seq<bytes>, b: seq<bytes>)
    ensures Join(a + b) == Join(a) + Join(b)
    decreases |a|
  {
    if a == [] {
      assert a + b == b;
    } else {
      assert (a + b)[1..] == a[1..] + b;
      JoinAppend(a[1..], b);
    }
  }

  lemma DoneSoFar(registry: map<bytes, D.Location>, a: seq<Frame>, b: seq<Frame>, c: seq<Frame>)
    requires Typed(c) && a <= b <= c
    ensures Typed(b)
    ensures SomeDone(registry, map[], c, |a|)
      <==> SomeDone(registry, map[], b, |a|) || SomeDone(registry, map[], c, |b|)
  {
    hide HasType, D.Run, PutsOf, D.Completes, ArrivingOf;
    forall i: nat | i < |b| ensures Done(registry, map[], b, i) <==> Done(registry, map[], c, i) {
      assert b[..i + 1] == c[..i + 1];
    }
    if SomeDone(registry, map[], c, |a|) {
      var j :| |a| <= j < |c| && Done(registry, map[], c, j);
      if j < |b| {
        assert Done(registry, map[], b, j);
      }
    }
    if SomeDone(registry, map[], b, |a|) {
      var j :| |a| <= j < |b| && Done(registry, map[], b, j);
      assert Done(registry, map[], c, j);
    }
  }

  /** Called again and again until the chunks are used up, the receiver holds the objects of the joined stream. */
  method ReceiveShared(ck: Checksum, registry: map<bytes, D.Location>, chunks: seq<bytes>)
    returns (shelf: D.Shelf, ok: bool)
    ensures fresh(shelf) && shelf.registry == registry && forall b :: b in shelf.buffers.Values ==> fresh(b)
    ensures var w := Whole(ck, Join(chunks), Zero(SCHEMA));
      ok == !w.panicked
      && (ok ==> shelf.Valid() && Typed(w.frames) && shelf.objects == D.Run(registry, map[], PutsOf(w.frames)))
  {
    hide HasType, Whole, Join, Along, Zero, PutsOf, StopsAt, SomeDone;
    ghost var stream: bytes := [];
    shelf := new D.Shelf(ck, registry);
    var recv := new RBuffer(ck);
    ok := true;
    StartsAlong(recv, shelf);
    var left := chunks;
    while left != []
      invariant fresh(shelf) && fresh(recv) && shelf.registry == registry && recv.ck == ck
      invariant forall b :: b in shelf.buffers.Values ==> fresh(b)
      invariant stream + Join(left) == Join(chunks)
      invariant Along(recv, shelf, Whole(ck, stream, Zero(SCHEMA)))
      decreases |left|
    {
      var used, got;
      ok, used, got := ExtractReader(recv, shelf, left, stream);
      assert left == left[..used] + left[used..];
      JoinAppend(left[..used], left[used..]);
      assert stream + Join(left) == (stream + Join(left[..used])) + Join(left[used..]);
      stream, left := stream + Join(left[..used]), left[used..];
      if !ok {
        PanicLasts(ck, stream, Join(left));
        return;
      }
    }
    JoinNone(left);
    assert stream == Join(chunks);
    AlongIs(recv, shelf, Whole(ck, stream, Zero(SCHEMA)));
  }

  lemma PanicLasts(ck: Checksum, s: bytes, t: bytes)
    requires Whole(ck, s, Zero(SCHEMA)).panicked
    ensures Whole(ck, s + t, Zero(SCHEMA)).panicked
  {
    hide Whole;
    ZeroHasType(SCHEMA);
    WholeExtend(ck, s, t, Zero(SCHEMA));
  }

  lemma StartsAlong(recv: RBuffer, shelf: D.Shelf)
    requires recv.Valid() && recv.data == [] && recv.schema == Zero(SCHEMA) && recv !in shelf.parts
    requires shelf.Valid() && shelf.objects == map[]
    ensures Along(recv, shelf, Whole(recv.ck, [], Zero(SCHEMA)))
  {
    NothingYet(recv.ck);
    NoPuts();
    NothingRun(shelf.registry, map[]);
  }

  lemma AlongIs(recv: RBuffer, shelf: D.Shelf, w: Scanned)
    requires Along(recv, shelf, w)
    ensures !w.panicked && shelf.Valid() && Typed(w.frames)
        && shelf.objects == D.Run(shelf.registry, map[], PutsOf(w.frames))
  {
  }

  // ---------------------------------------------------------------- reading the objects back

  type Positive = n: nat | n >= 1 witness 1

  /** What was mailed as an object: its schema, its value, and the payload room its sender's frames had. */
  datatype Mailed = Mailed(schema: Schema, val: Val, room: Positive)

  function PiecesOf(ty: Ty, m: Mailed): seq<bytes> {
    Chop(Enc(ty, m.val), m.room)
  }

  /** For each object identifier of a family and version, what was mailed under it, if anything was. */
  ghost predicate Mails(registry: map<bytes, D.Location>, items: seq<Stretch>, family: bytes, version: bytes,
                        ty: Ty, mail: bytes -> Mailed)
  {
    forall t :: IsMailed(registry, items, family, version, ty, mail(t), t)
  }

  ghost predicate IsMailed(registry: map<bytes, D.Location>, items: seq<Stretch>, family: bytes, version: bytes,
                           ty: Ty, m: Mailed, t: bytes)
  {
    && m.schema.types in registry && registry[m.schema.types] == D.Location(family, version) && m.schema.tid == t
    && HasType(ty, m.val) && Fits(m.val)
    && |PiecesOf(ty, m)| <= MAX16 && OnlyObject(registry, items, m.schema, PiecesOf(ty, m))
  }

  /** Objects with identifiers of their own are mailed by any stream that has only frames of theirs. */
  lemma PiecesAreMail(registry: map<bytes, D.Location>, items: seq<Stretch>, family: bytes, version: bytes, ty: Ty,
                      mail: bytes -> Mailed)
    requires forall t {:trigger mail(t)} ::
      && mail(t).schema.types in registry && registry[mail(t).schema.types] == D.Location(family, version)
      && mail(t).schema.tid == t && HasType(ty, mail(t).val) && Fits(mail(t).val) && |PiecesOf(ty, mail(t))| <= MAX16
    requires forall x :: x in items && x.Good? ==>
      exists k :: IsPiece(x.sent, mail(x.sent.schema.tid).schema, PiecesOf(ty, mail(x.sent.schema.tid)), k)
    ensures Mails(registry, items, family, version, ty, mail)
  {
    hide HasType, Fits, PiecesOf, IsPiece;
    forall t ensures IsMailed(registry, items, family, version, ty, mail(t), t) {
      forall x | x in items && x.Good? && KeyOfSchema(registry, x.sent.schema) == KeyOfSchema(registry, mail(t).schema)
        ensures exists k :: IsPiece(x.sent, mail(t).schema, PiecesOf(ty, mail(t)), k)
      {
        assert x.sent.schema.tid == t;
      }
    }
  }

  /** All frames of the object are in the stream. */
  ghost predicate AllDelivered(items: seq<Stretch>, s: Schema, ps: seq<bytes>) {
    forall k :: 0 <= k < |ps| ==> Delivers(items, s, ps, k)
  }

  /** An object that wants nothing holds all its pieces. */
  ghost predicate FullWhenDone(o: D.Object, ps: seq<bytes>) {
    R.Wanted(o.got) == 0 ==> R.Among(o.got, ps) && forall k :: 0 <= k < |ps| ==> k in o.got
  }

  /**
    Each object mailed wants nothing exactly when all its frames came, and then reads back as
    its value in normal form.
   */
  lemma SharedObjectsReadBack(ck: Checksum, registry: map<bytes, D.Location>, items: seq<Stretch>, tail: bytes,
                              chunks: seq<bytes>, family: bytes, version: bytes, ty: Ty, m: Mailed,
                              t: bytes, dest: Val)
    requires Streamable(ck, items, tail) && Join(chunks) == Lay(ck, items, tail) && WellFormed(ty)
    requires IsMailed(registry, items, family, version, ty, m, t)
    ensures var w := Chunked(ck, chunks, Whole(ck, [], Zero(SCHEMA)));
      !w.panicked && Typed(w.frames)
      && var o := D.Get(D.Run(registry, map[], PutsOf(w.frames)), D.Known(family, version, t));
         && (AllDelivered(items, m.schema, PiecesOf(ty, m)) <==> o.Some? && R.Wanted(o.value.got) == 0)
         && (o.Some? ==> FullWhenDone(o.value, PiecesOf(ty, m)))
         && (o.Some? && R.Wanted(o.value.got) == 0 ==>
               (forall k :: 0 <= k < |o.value.got| ==> k in o.value.got)
               && Dump(ty, Concat(Payloads(o.value.got)), dest) == Out(Ok, Norm(ty, m.val), []))
  {
    hide HasType, WellFormed, Fits, Streamable, Lay, Chunked, Whole, Join, OnlyObject, Delivers, R.Wanted, R.Among,
      PutsOf, D.Run, Dump, Enc, Norm, Chop, Concat;
    var s, ps := m.schema, PiecesOf(ty, m);
    ChoppedEncoding(ty, m.val, m.room);
    ObjectsShareAStream(ck, registry, items, tail, chunks, s, ps);
    var w := Chunked(ck, chunks, Whole(ck, [], Zero(SCHEMA)));
    var o := D.Get(D.Run(registry, map[], PutsOf(w.frames)), KeyOfSchema(registry, s));
    if o.Some? {
      if R.Wanted(o.value.got) == 0 {
        WantedNothing(o.value.got, ps);
        R.AllHeld(o.value.got, ps);
        assert Payloads(o.value.got) == ps;
        WholeValue(ty, m.val, dest);
      }
    } else {
      assert !Delivers(items, s, ps, 0);
    }
  }

  lemma WantedNothing(got: map<int, R.Part>, ps: seq<bytes>)
    requires R.Among(got, ps) && ps != [] && R.Wanted(got) == 0
    ensures forall k :: 0 <= k < |ps| ==> k in got
  {
    hide R.Wanted, R.Among;
    R.WantedExactly(got, ps);
  }

  lemma WholeValue(ty: Ty, v: Val, dest: Val)
    requires WellFormed(ty) && HasType(ty, v) && Fits(v)
    ensures Dump(ty, Enc(ty, v), dest) == Out(Ok, Norm(ty, v), [])
  {
    hide *;
    Forward(ty, v, [], dest);
    assert Enc(ty, v) + [] == Enc(ty, v);
  }

  /** Take a complete object off the shelf and read it. */
  method ReadComplete(shelf: D.Shelf, family: bytes, version: bytes, ty: Ty, dest: Val,
                      ghost mail: bytes -> Mailed)
    returns (found: bool, ghost t: bytes, st: Status, val: Val)
    requires shelf.Valid() && WellFormed(ty)
    requires forall u :: HasType(ty, mail(u).val) && Fits(mail(u).val)
    requires forall u :: D.Known(family, version, u) in shelf.objects ==>
      FullWhenDone(shelf.objects[D.Known(family, version, u)], PiecesOf(ty, mail(u)))
    modifies shelf, shelf.buffers.Values
    ensures shelf.Valid()
    ensures !found ==> shelf.objects == old(shelf.objects)
    ensures !found ==> forall u :: D.Known(family, version, u) in shelf.objects ==>
        R.Wanted(shelf.objects[D.Known(family, version, u)].got) != 0
    ensures found ==>
      var k := D.Known(family, version, t);
      && k in old(shelf.objects) && R.Wanted(old(shelf.objects)[k].got) == 0
          && shelf.objects == old(shelf.objects) - {k}
      && st == Ok && val == Norm(ty, mail(t).val)
  {
    hide D.Shelf.Valid, HasType, WellFormed, Fits, Norm, Enc, Chop, Concat, R.Wanted, R.Among, Buffer.Collects;
    st, val := Short, dest;
    var b;
    b, t := shelf.TakeComplete(family, version);
    found := b != null;
    if b != null {
      ChoppedEncoding(ty, mail(t).val, mail(t).room);
      st, val := ReadObject(b, ty, dest, mail(t).val, PiecesOf(ty, mail(t)));
    }
  }

  /**
    The whole receiving side: take in all chunks, then read some object of a family and
    version. If one is read, all its frames were in the stream, and its value comes out in
    normal form; if none is, no object of the family and version came in full.
   */
  method ReceiveNext(ck: Checksum, registry: map<bytes, D.Location>, chunks: seq<bytes>, family: bytes,
                     version: bytes, ty: Ty, dest: Val, ghost items: seq<Stretch>, ghost tail: bytes,
                     ghost mail: bytes -> Mailed)
    returns (found: bool, ghost t: bytes, st: Status, val: Val)
    requires Streamable(ck, items, tail) && Join(chunks) == Lay(ck, items, tail) && WellFormed(ty)
    requires Mails(registry, items, family, version, ty, mail)
    ensures found ==>
      st == Ok && val == Norm(ty, mail(t).val)
      && AllDelivered(items, mail(t).schema, PiecesOf(ty, mail(t)))
    ensures !found ==> forall u :: !AllDelivered(items, mail(u).schema, PiecesOf(ty, mail(u)))
  {
    hide HasType, WellFormed, Fits, Streamable, Lay, Join, Whole, D.Run, PutsOf, Norm, R.Wanted, FullWhenDone,
      AllDelivered, D.Shelf.Valid, PiecesOf;
    var shelf, ok := ReceiveShared(ck, registry, chunks);
    MailedReadsBack(ck, registry, items, tail, chunks, family, version, ty, mail, [], dest);
    forall u ensures HasType(ty, mail(u).val) && Fits(mail(u).val)
      && var o := D.Get(shelf.objects, D.Known(family, version, u));
         && (AllDelivered(items, mail(u).schema, PiecesOf(ty, mail(u))) <==> o.Some? && R.Wanted(o.value.got) == 0)
         && (o.Some? ==> FullWhenDone(o.value, PiecesOf(ty, mail(u))))
    {
      MailedReadsBack(ck, registry, items, tail, chunks, family, version, ty, mail, u, dest);
    }
    found, t, st, val := ReadComplete(shelf, family, version, ty, dest, mail);
  }

  /** The same for all objects mailed, and on the joined stream. */
  lemma MailedReadsBack(ck: Checksum, registry: map<bytes, D.Location>, items: seq<Stretch>, tail: bytes,
                        chunks: seq<bytes>, family: bytes, version: bytes, ty: Ty,
                        mail: bytes -> Mailed, u: bytes, dest: Val)
    requires Streamable(ck, items, tail) && Join(chunks) == Lay(ck, items, tail) && WellFormed(ty)
    requires Mails(registry, items, family, version, ty, mail)
    ensures HasType(ty, mail(u).val) && Fits(mail(u).val)
    ensures var w := Whole(ck, Join(chunks), Zero(SCHEMA));
      !w.panicked && Typed(w.frames)
      && var o := D.Get(D.Run(registry, map[], PutsOf(w.frames)), D.Known(family, version, u));
         && (AllDelivered(items, mail(u).schema, PiecesOf(ty, mail(u))) <==> o.Some? && R.Wanted(o.value.got) == 0)
         && (o.Some? ==> FullWhenDone(o.value, PiecesOf(ty, mail(u))))
  {
    hide HasType, WellFormed, Fits, Streamable, Lay, Join, Whole, Chunked, D.Run, PutsOf, Norm, R.Wanted, FullWhenDone,
      AllDelivered, PiecesOf, Dump, OnlyObject;
    assert IsMailed(registry, items, family, version, ty, mail(u), u);
    SharedObjectsReadBack(ck, registry, items, tail, chunks, family, version, ty, mail(u), u, dest);
    ZeroHasType(SCHEMA);
    ChunkingDoesNotMatter(ck, chunks, [], Zero(SCHEMA));
    assert [] + Join(chunks) == Join(chunks);
  }
}
