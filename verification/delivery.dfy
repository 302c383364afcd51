/**
  What a receiver makes of a stream: frames come out of noise and out of broken frames
  complete and in order, and no magic word is ever passed over.
 */
module Delivery {
  import opened Wire
  import opened Types
  import opened Codec
  import opened Magic
  import opened Frames
  import opened Framing
  import opened Scan

  // ---------------------------------------------------------------- one frame

  /** A frame that was sent: its schema and its payload. */
  datatype Sent = Sent(schema: Schema, payload: bytes)

  function BytesOf(ck: Checksum, x: Sent): bytes {
    FrameOf(ck, x.schema, x.payload)
  }

  /** Within the limits of the length fields, and not below the least size a receiver looks at. */
  predicate Sendable(ck: Checksum, x: Sent) {
    && SchemaFits(x.schema) && |x.payload| <= MAX16
    && |ck(HeadsFor(x.schema, |x.payload|) + x.payload)| <= MAX16
    && |BytesOf(ck, x)| >= MIN_HEADER
  }

  /** The frame a receiver should have of it. */
  function Arrived(ck: Checksum, x: Sent): (f: Frame)
    ensures f.Data() == BytesOf(ck, x)
  {
    var heads := HeadsFor(x.schema, |x.payload|);
    var sum := ck(heads + x.payload);
    assert heads + x.payload + (ByteArrayHead(|sum|) + sum) == BytesOf(ck, x);
    Frame(SchemaVal(x.schema), heads, x.payload, ByteArrayHead(|sum|) + sum)
  }

  lemma FrameStarts(ck: Checksum, x: Sent, t: bytes)
    ensures At(BytesOf(ck, x) + t, 0)
  {
    hide Lead;
    LeadForm(x.schema);
    var rest := Le32(|x.payload| + 2) + Le16(|x.payload|) + x.payload
      + ByteArrayHead(|ck(HeadsFor(x.schema, |x.payload|) + x.payload)|)
      + ck(HeadsFor(x.schema, |x.payload|) + x.payload) + t;
    assert BytesOf(ck, x) + t == Lead(x.schema) + rest;
    AtAppend(Lead(x.schema), rest, 0);
  }

  /** A frame behind noise is the next one to come out, whatever follows it. */
  lemma NextIsSent(ck: Checksum, noise: bytes, x: Sent, t: bytes, schema: Val)
    requires Find(noise) < 0 && Sendable(ck, x)
    ensures Next(ck, noise + (BytesOf(ck, x) + t), schema) == Emit(Arrived(ck, x), t, SchemaVal(x.schema))
  {
    hide At, Find, Seek, Classify, FrameOf, HeadsFor;
    var d := BytesOf(ck, x) + t;
    FrameStarts(ck, x, t);
    SeekPastNoise(noise, d);
    FrameParsesExactly(ck, x.schema, x.payload, t, schema);
    CutIsArrived(ck, x, t);
  }

  lemma CutIsArrived(ck: Checksum, x: Sent, t: bytes)
    ensures var d, h, n := BytesOf(ck, x) + t, |HeadsFor(x.schema, |x.payload|)|, |x.payload|;
      var f := |BytesOf(ck, x)|;
      h + n <= f <= |d| && d[..h] == Arrived(ck, x).heads && d[h..h + n] == x.payload
      && d[h + n..f] == Arrived(ck, x).checksum && d[f..] == t
  {
    hide HeadsFor;
    var a := Arrived(ck, x);
    assert BytesOf(ck, x) + t == a.heads + (a.payload + (a.checksum + t));
  }

  // ---------------------------------------------------------------- streams

  /** A stretch of a stream: bytes without a magic word, and then a frame, good or broken. */
  datatype Stretch =
    | Good(noise: bytes, sent: Sent)
    | Broken(noise: bytes, bs: bytes)

  /**
    A broken frame, with noise behind it if there is any, in front of t: the magic word at its
    front is the only one, and with what follows the receiver can tell that it is invalid. So
    it may be damaged, or cut short with its lengths reaching into the frames behind it.
   */
  ghost predicate IsBroken(ck: Checksum, bs: bytes, t: bytes) {
    && At(bs, 0) && (forall j :: j > 0 ==> !At(bs, j))
    && forall schema :: HasType(SCHEMA, schema) ==> Classify(ck, bs + t, schema).st == Bad
  }

  /** What a stream may end in: noise, or a frame of which more is to come. */
  ghost predicate Unfinished(ck: Checksum, tail: bytes) {
    forall schema :: HasType(SCHEMA, schema) ==> Next(ck, tail, schema).Wait?
  }

  function Lay(ck: Checksum, items: seq<Stretch>, tail: bytes): bytes {
    if items == [] then tail
    else
      var t := Lay(ck, items[1..], tail);
      items[0].noise + ((match items[0] case Good(_, x) => BytesOf(ck, x) case Broken(_, bs) => bs) + t)
  }

  /** Noise behind a broken frame counts as part of it, so that the next frame follows directly. */
  ghost predicate Streamable(ck: Checksum, items: seq<Stretch>, tail: bytes) {
    if items == [] then Unfinished(ck, tail)
    else
      && Find(items[0].noise) < 0 && Streamable(ck, items[1..], tail)
      && match items[0]
         case Good(_, x) => Sendable(ck, x)
         case Broken(_, bs) =>
           IsBroken(ck, bs, Lay(ck, items[1..], tail))
           && (if |items| > 1 then items[1].noise == [] else tail == [] || At(tail, 0))
  }

  function Arrivals(ck: Checksum, items: seq<Stretch>): seq<Frame> {
    if items == [] then []
    else (match items[0] case Good(_, x) => [Arrived(ck, x)] case Broken(_, _) => []) + Arrivals(ck, items[1..])
  }

  /** Exactly the good frames come out, in order, and nothing panics. */
  lemma {:induction false} StreamIsReceived(ck: Checksum, items: seq<Stretch>, tail: bytes, schema: Val)
    requires Streamable(ck, items, tail) && HasType(SCHEMA, schema)
    ensures var w := Whole(ck, Lay(ck, items, tail), schema);
      w.frames == Arrivals(ck, items) && !w.panicked
    decreases |items|
  {
    hide Next, HasType, Find, At, Classify, BytesOf, Arrived, Sendable, IsBroken, Unfinished;
    var s := Lay(ck, items, tail);
    WholeStep(ck, s, schema);
    if items == [] {
      Waits(ck, tail, schema);
    } else {
      var t := Lay(ck, items[1..], tail);
      match items[0]
      case Good(noise, x) =>
        NextIsSent(ck, noise, x, t, schema);
        SchemaTyped(x.schema);
        StreamIsReceived(ck, items[1..], tail, SchemaVal(x.schema));
      case Broken(noise, bs) =>
        if items[1..] != [] { StreamStarts(ck, items[1..], tail); }
        BrokenIsSkipped(ck, noise, bs, t, schema);
        var sc := Classify(ck, bs + t, schema).schema;
        StreamIsReceived(ck, items[1..], tail, sc);
        if t != [] {
          WholeOfWait(ck, s, schema, t, sc);
        } else {
          NothingInNothing(ck, sc);
        }
    }
  }

  lemma Waits(ck: Checksum, tail: bytes, schema: Val)
    requires Unfinished(ck, tail) && HasType(SCHEMA, schema)
    ensures Next(ck, tail, schema).Wait?
  {
  }

  lemma NothingInNothing(ck: Checksum, schema: Val)
    ensures Whole(ck, [], schema).frames == []
  {
    hide Classify;
    WholeStep(ck, [], schema);
    assert Find([]) == -1;
  }

  /** Noise is something a stream may end in. */
  lemma NoiseIsUnfinished(ck: Checksum, noise: bytes)
    requires Find(noise) < 0
    ensures Unfinished(ck, noise)
  {
    hide Classify, HasType;
  }

  /** So is a frame that is not all there yet, behind noise. */
  lemma ShortIsUnfinished(ck: Checksum, noise: bytes, d: bytes)
    requires Find(noise) < 0 && At(d, 0)
    requires forall schema :: HasType(SCHEMA, schema) ==> Classify(ck, d, schema).st == Short
    ensures Unfinished(ck, noise + d)
  {
    hide Classify, HasType, At, Find;
    SeekPastNoise(noise, d);
  }

  /** What a well-made stream starts with, unless noise comes first. */
  lemma StreamStarts(ck: Checksum, items: seq<Stretch>, tail: bytes)
    requires Streamable(ck, items, tail) && items != [] && items[0].noise == []
    ensures At(Lay(ck, items, tail), 0)
  {
    hide At, BytesOf;
    var t := Lay(ck, items[1..], tail);
    match items[0]
    case Good(_, x) =>
      FrameStarts(ck, x, t);
      assert [] + (BytesOf(ck, x) + t) == BytesOf(ck, x) + t;
    case Broken(_, bs) =>
      AtAppend(bs, t, 0);
      assert [] + (bs + t) == bs + t;
  }

  /** Behind a broken frame the receiver goes on as if the stream began with what follows. */
  lemma BrokenIsSkipped(ck: Checksum, noise: bytes, bs: bytes, t: bytes, schema: Val)
    requires Find(noise) < 0 && IsBroken(ck, bs, t) && HasType(SCHEMA, schema) && (t == [] || At(t, 0))
    ensures var sc := Classify(ck, bs + t, schema).schema;
      HasType(SCHEMA, sc)
      && if t == [] then Next(ck, noise + (bs + t), schema).Wait?
         else Next(ck, noise + (bs + t), schema) == Next(ck, t, sc)
  {
    hide Classify, At, Find, HasType;
    AtAppend(bs, t, 0);
    SeekPastNoise(noise, bs + t);
    ClassifyRetry(ck, bs + t, [], schema);
    MagicLength(bs);
    assert (bs + t)[5..] == bs[5..] + t;
    forall j | j >= 0 ensures !At(bs[5..], j) {
      AtShift(bs, 5, j);
    }
    assert Find(bs[5..]) < 0;
    if t == [] {
      assert bs[5..] + t == bs[5..];
    } else {
      SeekPastNoise(bs[5..], t);
      SeekFound(t);
    }
  }

  lemma MagicLength(s: bytes)
    requires At(s, 0)
    ensures |s| >= 5
  {
  }

  /** What is invalid by itself is so in front of anything. */
  lemma BadIsBroken(ck: Checksum, bs: bytes, t: bytes)
    requires At(bs, 0) && forall j :: j > 0 ==> !At(bs, j)
    requires forall schema :: HasType(SCHEMA, schema) ==> Classify(ck, bs, schema).st == Bad
    ensures IsBroken(ck, bs, t)
  {
    hide Classify, HasType, At;
    forall schema | HasType(SCHEMA, schema) ensures Classify(ck, bs + t, schema).st == Bad {
      ClassifyStable(ck, bs, t, schema);
    }
  }

  /** A frame damaged in its checksum, or in what that covers, is broken. */
  lemma DamagedIsBroken(ck: Checksum, s: Schema, payload: bytes, sum: bytes, noise: bytes, t: bytes)
    requires SchemaFits(s) && |payload| <= MAX16 && 0 < |sum| <= MAX16
    requires |HeadsFor(s, |payload|)| + |payload| + MERGED_HEAD + |sum| >= MIN_HEADER
    requires sum != ck(HeadsFor(s, |payload|) + payload)
    requires var bs := HeadsFor(s, |payload|) + payload + ByteArrayHead(|sum|) + sum + noise;
      forall j :: j > 0 ==> !At(bs, j)
    ensures IsBroken(ck, HeadsFor(s, |payload|) + payload + ByteArrayHead(|sum|) + sum + noise, t)
  {
    hide Classify, HasType, At, HeadsFor, IsBroken;
    var n := |payload|;
    var bs := HeadsFor(s, n) + payload + ByteArrayHead(|sum|) + sum + noise;
    forall schema | HasType(SCHEMA, schema) ensures Classify(ck, bs, schema).st == Bad {
      ChecksumDecides(ck, s, payload, sum, noise, schema);
    }
    HeadsStart(s, n);
    AtAppend(HeadsFor(s, n), payload + ByteArrayHead(|sum|) + sum + noise, 0);
    assert bs == HeadsFor(s, n) + (payload + ByteArrayHead(|sum|) + sum + noise);
    BadIsBroken(ck, bs, t);
  }

  /**
    A frame cut short within its payload is broken if the place where its checksum should
    be, inside what follows, does not hold the head of one.
   */
  lemma TruncatedIsBroken(ck: Checksum, s: Schema, n: nat, part: bytes, t: bytes)
    requires SchemaFits(s) && |part| < n <= MAX16 && |HeadsFor(s, n)| + |part| + |t| >= MIN_HEADER
    requires forall j :: j > 0 ==> !At(HeadsFor(s, n) + part, j)
    requires MergedHead(HeadsFor(s, n) + part + t, |HeadsFor(s, n)| + n).st == Bad
    ensures IsBroken(ck, HeadsFor(s, n) + part, t)
  {
    hide HasType, At, HeadsFor, ParseHeads, MergedHead;
    var d := HeadsFor(s, n) + part + t;
    assert d == HeadsFor(s, n) + (part + t);
    HeadsStart(s, n);
    AtAppend(HeadsFor(s, n), part, 0);
    forall schema | HasType(SCHEMA, schema) ensures Classify(ck, d, schema).st == Bad {
      HeadsParse(s, n, part + t, schema);
    }
  }

  lemma HeadsStart(s: Schema, n: nat)
    ensures At(HeadsFor(s, n), 0)
  {
    hide Lead, At;
    LeadForm(s);
    AtAppend(Lead(s), Le32(n + 2) + Le16(n), 0);
    assert HeadsFor(s, n) == Lead(s) + (Le32(n + 2) + Le16(n));
  }

  // ---------------------------------------------------------------- nothing is passed over

  /** What the receiver does at a position: reject a candidate, take a frame, or stop there. */
  datatype Event = Rejected(at: nat) | Taken(at: nat, len: nat) | Stopped(at: nat)

  /** The decisions of a receiver drained over s, with positions counted from base. */
  function Trace(ck: Checksum, s: bytes, schema: Val, base: nat): seq<Event>
    decreases |s|
  {
    var k := Seek(s);
    var at := base + |s| - |k.rest|;
    if !k.found then [Stopped(at)]
    else
      var v := Classify(ck, k.rest, schema);
      match v.st
      case Ok => [Taken(at, v.FrameLen())] + Trace(ck, k.rest[v.FrameLen()..], v.schema, at + v.FrameLen())
      case Bad => [Rejected(at)] + Trace(ck, k.rest[5..], v.schema, at + 5)
      case _ => [Stopped(at)]
  }

  /**
    What a decision says of the stream: a candidate rejected is a magic word with bytes behind
    it that are no frame, one taken is a frame of that length, and the receiver stops where
    there is no further magic word, or where the candidate is too short or makes it panic.
   */
  ghost predicate Justified(ck: Checksum, all: bytes, e: Event) {
    match e
    case Rejected(at) => at <= |all| && At(all, at) && exists sc :: Classify(ck, all[at..], sc).st == Bad
    case Taken(at, len) =>
      at <= |all| && At(all, at)
      && exists sc :: Classify(ck, all[at..], sc).st == Ok && Classify(ck, all[at..], sc).FrameLen() == len
    case Stopped(at) =>
      at <= |all|
      && ((forall j :: j >= at ==> !At(all, j))
          || (At(all, at)
              && exists sc :: var v := Classify(ck, all[at..], sc); v.st == Short || v.st == Fault))
  }

  lemma {:induction false} TraceIsTrue(ck: Checksum, s: bytes, schema: Val, all: bytes, base: nat)
    requires base <= |all| && s == all[base..]
    ensures forall e :: e in Trace(ck, s, schema, base) ==> Justified(ck, all, e)
    decreases |s|
  {
    hide Classify, Seek, Trace, Whole, Justified, HasType;
    var k := Seek(s);
    var at := |s| - |k.rest|;
    Steps(ck, s, schema, base);
    DecisionIsTrue(ck, s, schema, all, base);
    if k.found {
      var v := Classify(ck, k.rest, schema);
      if v.st == Ok || v.st == Bad {
        var n := if v.st == Ok then v.FrameLen() else 5;
        assert k.rest[n..] == all[base + at + n..];
        TraceIsTrue(ck, k.rest[n..], v.schema, all, base + at + n);
      }
    }
  }

  /** The first decision. */
  lemma DecisionIsTrue(ck: Checksum, s: bytes, schema: Val, all: bytes, base: nat)
    requires base <= |all| && s == all[base..]
    ensures var k := Seek(s);
      var at := base + |s| - |k.rest|;
      if !k.found then Justified(ck, all, Stopped(at))
      else
        var v := Classify(ck, k.rest, schema);
        match v.st
        case Ok => Justified(ck, all, Taken(at, v.FrameLen()))
        case Bad => Justified(ck, all, Rejected(at))
        case _ => Justified(ck, all, Stopped(at))
  {
    hide Classify, At;
    var f := Find(s);
    if f >= 0 {
      AtShift(all, base, f);
      assert all[base + f..] == s[f..];
    } else {
      forall j | j >= base ensures !At(all, j) {
        AtShift(all, base, j - base);
      }
    }
  }

  /** A decision settles a position: it is about it, a frame over it was taken, or it is still ahead. */
  predicate Settles(e: Event, p: nat) {
    match e
    case Rejected(at) => at == p
    case Taken(at, len) => at <= p < at + len
    case Stopped(at) => at <= p
  }

  /**
    In any stream at all, no magic word is passed over: each is rejected as a candidate, lies
    in a frame taken, or is still to be looked at.
   */
  lemma {:induction false} NothingIsPassedOver(ck: Checksum, s: bytes, schema: Val, base: nat, p: nat)
    requires At(s, p)
    ensures exists e :: e in Trace(ck, s, schema, base) && Settles(e, base + p)
    decreases |s|
  {
    hide Classify, Trace, Whole, At, Find, HasType;
    var k := Seek(s);
    var at := |s| - |k.rest|;
    Steps(ck, s, schema, base);
    var first := Trace(ck, s, schema, base)[0];
    assert first in Trace(ck, s, schema, base);
    if !Settles(first, base + p) {
      var v := Classify(ck, k.rest, schema);
      var n := if v.st == Ok then v.FrameLen() else 5;
      if v.st == Bad { NoOverlap(s, at, p); }
      assert k.rest[n..] == s[at + n..];
      AtShift(s, at + n, p - at - n);
      var later := Trace(ck, k.rest[n..], v.schema, base + at + n);
      NothingIsPassedOver(ck, k.rest[n..], v.schema, base + at + n, p - at - n);
      var e :| e in later && Settles(e, base + p);
      assert Trace(ck, s, schema, base) == [first] + later;
      assert e in [first] + later;
    }
  }

  /** So of every magic word there is a decision that is true of the stream, and that is about it. */
  lemma EveryMagicIsDecided(ck: Checksum, s: bytes, schema: Val, p: nat)
    requires At(s, p)
    ensures exists e {:trigger Justified(ck, s, e)} ::
      e in Trace(ck, s, schema, 0) && Justified(ck, s, e)
      && (e == Rejected(p) || (e.Taken? && e.at <= p < e.at + e.len) || (e.Stopped? && e.at <= p))
  {
    hide Trace, Justified, At;
    NothingIsPassedOver(ck, s, schema, 0, p);
    assert s[0..] == s;
    TraceIsTrue(ck, s, schema, s, 0);
    var e :| e in Trace(ck, s, schema, 0) && Settles(e, p);
    assert Justified(ck, s, e);
  }

  /** The bytes of a frame taken. */
  function TakenAt(s: bytes, e: Event): seq<bytes> {
    if e.Taken? && e.at + e.len <= |s| then [s[e.at..e.at + e.len]] else []
  }

  /** The bytes of the frames taken, in order. */
  function TakenFrom(s: bytes, trace: seq<Event>): seq<bytes> {
    if trace == [] then [] else TakenAt(s, trace[0]) + TakenFrom(s, trace[1..])
  }

  function AllData(frames: seq<Frame>): seq<bytes> {
    if frames == [] then [] else [frames[0].Data()] + AllData(frames[1..])
  }

  /** The frames that come out are the stretches of the stream the trace says were taken. */
  lemma {:induction false} TakenIsEmitted(ck: Checksum, s: bytes, schema: Val, all: bytes, base: nat)
    requires base <= |all| && s == all[base..]
    ensures TakenFrom(all, Trace(ck, s, schema, base)) == AllData(Whole(ck, s, schema).frames)
    decreases |s|
  {
    hide Classify, Seek, Frame.Data, TakenFrom, AllData, Cut, HasType, Whole, Trace;
    var k := Seek(s);
    var at := |s| - |k.rest|;
    Steps(ck, s, schema, base);
    NothingTaken(all, base + at);
    if k.found {
      var v := Classify(ck, k.rest, schema);
      if v.st == Ok {
        var n := v.FrameLen();
        assert all[base + at + n..] == k.rest[n..];
        TakenIsEmitted(ck, k.rest[n..], v.schema, all, base + at + n);
        CutData(k.rest, v);
        assert all[base + at..base + at + n] == k.rest[..n];
        TakenStep(all, Taken(base + at, n), Trace(ck, k.rest[n..], v.schema, base + at + n));
        AllDataStep(Cut(k.rest, v), Whole(ck, k.rest[n..], v.schema).frames);
      } else if v.st == Bad {
        TakenIsEmitted(ck, k.rest[5..], v.schema, all, base + at + 5);
        TakenStep(all, Rejected(base + at), Trace(ck, k.rest[5..], v.schema, base + at + 5));
      }
    }
  }

  /** One decision, in the trace and in what comes out. */
  lemma Steps(ck: Checksum, s: bytes, schema: Val, base: nat)
    ensures var k := Seek(s);
      var at, trace, frames := |s| - |k.rest|, Trace(ck, s, schema, base), Whole(ck, s, schema).frames;
      at >= 0 && (k.found ==> k.rest == s[at..] && |k.rest| >= 5)
      && if !k.found then trace == [Stopped(base + at)] && frames == []
         else
           var v := Classify(ck, k.rest, schema);
           match v.st
           case Ok => trace == [Taken(base + at, v.FrameLen())] + Trace(ck, k.rest[v.FrameLen()..], v.schema,
               base + at + v.FrameLen())
             && frames == [Cut(k.rest, v)] + Whole(ck, k.rest[v.FrameLen()..], v.schema).frames
           case Bad => trace == [Rejected(base + at)] + Trace(ck, k.rest[5..], v.schema, base + at + 5)
             && frames == Whole(ck, k.rest[5..], v.schema).frames
           case _ => trace == [Stopped(base + at)] && frames == []
  {
    hide Classify, Find, HasType, Cut;
    var k := Seek(s);
    WholeStep(ck, s, schema);
    if k.found {
      var v := Classify(ck, k.rest, schema);
      if v.st == Bad { WholeOfWait(ck, s, schema, k.rest[5..], v.schema); }
    }
  }

  lemma TakenStep(s: bytes, e: Event, trace: seq<Event>)
    ensures TakenFrom(s, [e] + trace) == TakenAt(s, e) + TakenFrom(s, trace)
  {
    hide TakenAt;
    assert ([e] + trace)[1..] == trace;
  }

  lemma NothingTaken(s: bytes, at: nat)
    ensures TakenFrom(s, [Stopped(at)]) == [] == AllData([])
  {
    assert [Stopped(at)][1..] == [];
  }

  lemma AllDataStep(f: Frame, frames: seq<Frame>)
    ensures AllData([f] + frames) == [f.Data()] + AllData(frames)
  {
    assert ([f] + frames)[1..] == frames;
  }

  lemma CutData(d: bytes, v: Verdict)
    requires v.st == Ok && v.FrameLen() <= |d|
    ensures Cut(d, v).Data() == d[..v.FrameLen()]
  {
    var body := v.headsLen + v.payloadLen;
    assert d[..body] + d[body..v.FrameLen()] == d[..v.FrameLen()];
    assert d[..v.headsLen] + d[v.headsLen..body] == d[..body];
  }
}
