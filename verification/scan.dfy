/**
  The receiver on whole streams: what it emits does not depend on how the stream is cut
  into chunks, and resynchronising after noise and bad frames loses no good frame.
 */
module Scan {
  import opened Wire
  import opened Types
  import opened Codec
  import opened RoundTrip
  import opened Magic
  import opened Frames
  import opened Framing

  /** A received fragment: the schema, and its bytes up to, in, and behind the payload. */
  datatype Frame = Frame(schema: Val, heads: bytes, payload: bytes, checksum: bytes)
  {
    function Data(): bytes { heads + payload + checksum }
  }

  /**
    What one Extract comes to: it waits with some bytes kept and a schema half filled, has
    a frame at the front of its data, or hits a length it panics on.
   */
  datatype Step =
    | Wait(rest: bytes, more: int, schema: Val)
    | Emit(frame: Frame, rest: bytes, schema: Val)
    | Panic

  function Cut(d: bytes, v: Verdict): Frame
    requires v.st == Ok && v.FrameLen() <= |d|
  {
    var body := v.headsLen + v.payloadLen;
    Frame(v.schema, d[..v.headsLen], d[v.headsLen..body], d[body..v.FrameLen()])
  }

  /** The first frame in s, skipping noise and invalid candidates. */
  function Next(ck: Checksum, s: bytes, schema: Val): (r: Step)
    ensures r.Wait? ==> r.more >= 1
    ensures r.Emit? ==> |r.rest| < |s|
    decreases |s|
  {
    var k := Seek(s);
    if !k.found then Wait(k.rest, MIN_HEADER - |k.rest|, schema)
    else
      var v := Classify(ck, k.rest, schema);
      match v.st
      case Ok => Emit(Cut(k.rest, v), k.rest[v.FrameLen()..], v.schema)
      case Short => Wait(k.rest, v.more, v.schema)
      case Bad => Next(ck, k.rest[5..], v.schema)
      case Fault => Panic
  }

  /** Everything a stream comes to: its frames, and what the receiver is left with unless it panicked. */
  datatype Scanned = Scanned(frames: seq<Frame>, rest: bytes, schema: Val, panicked: bool)

  function Whole(ck: Checksum, s: bytes, schema: Val): Scanned
    decreases |s|
  {
    match Next(ck, s, schema)
    case Wait(rest, _, sc) => Scanned([], rest, sc, false)
    case Panic => Scanned([], [], Zero(SCHEMA), true)
    case Emit(frame, rest, sc) =>
      var w := Whole(ck, rest, sc);
      w.(frames := [frame] + w.frames)
  }

  /** What a stream comes to, with frames that came out before. */
  function Before(frames: seq<Frame>, w: Scanned): Scanned {
    w.(frames := frames + w.frames)
  }

  lemma BeforeMore(frames: seq<Frame>, f: Frame, w: Scanned)
    ensures Before(frames, Before([f], w)) == Before(frames + [f], w)
  {
    assert frames + ([f] + w.frames) == (frames + [f]) + w.frames;
  }

  lemma WholeStep(ck: Checksum, s: bytes, schema: Val)
    ensures match Next(ck, s, schema)
      case Wait(rest, _, sc) => Whole(ck, s, schema) == Scanned([], rest, sc, false)
      case Panic => Whole(ck, s, schema) == Scanned([], [], Zero(SCHEMA), true)
      case Emit(frame, rest, sc) => Whole(ck, s, schema) == Before([frame], Whole(ck, rest, sc))
  {
  }

  // ---------------------------------------------------------------- chunks

  /** More data behind a step: a frame or a panic stands, a wait goes on from what it kept. */
  lemma {:induction false} NextExtend(ck: Checksum, s: bytes, t: bytes, schema: Val)
    requires HasType(SCHEMA, schema)
    ensures var r := Next(ck, s, schema);
      match r
      case Panic => Next(ck, s + t, schema) == Panic
      case Emit(f, rest, sc) => HasType(SCHEMA, sc) && Next(ck, s + t, schema) == Emit(f, rest + t, sc)
      case Wait(rest, _, sc) => HasType(SCHEMA, sc) && Next(ck, s + t, schema) == Next(ck, rest + t, sc)
    decreases |s|
  {
    hide Classify, Seek, HasType, Cut;
    var k := Seek(s);
    SeekAppend(s, t);
    if k.found {
      SeekKeeps(s, t);
      var v := Classify(ck, k.rest, schema);
      ClassifyRetry(ck, k.rest, t, schema);
      if v.st != Short {
        ClassifyStable(ck, k.rest, t, schema);
      }
      match v.st
      case Ok =>
        CutStable(k.rest, t, v);
        DropAppend(k.rest, t, v.FrameLen());
      case Bad =>
        assert (k.rest + t)[5..] == k.rest[5..] + t;
        NextExtend(ck, k.rest[5..], t, v.schema);
      case _ =>
    }
  }

  lemma CutStable(d: bytes, t: bytes, v: Verdict)
    requires v.st == Ok && v.FrameLen() <= |d|
    ensures Cut(d + t, v) == Cut(d, v)
  {
    var body := v.headsLen + v.payloadLen;
    assert (d + t)[..v.headsLen] == d[..v.headsLen];
    assert (d + t)[v.headsLen..body] == d[v.headsLen..body];
    assert (d + t)[body..v.FrameLen()] == d[body..v.FrameLen()];
  }

  lemma SeekKeeps(s: bytes, t: bytes)
    requires Seek(s).found
    ensures 5 <= |Seek(s).rest| <= |s| && Seek(Seek(s).rest + t) == Sought(true, Seek(s).rest + t)
  {
    AtShift(s, Find(s), 0);
    AtAppend(Seek(s).rest, t, 0);
    SeekFound(Seek(s).rest + t);
  }

  /** Going on with t where an earlier scan stopped. */
  function Resume(ck: Checksum, w: Scanned, t: bytes): Scanned {
    if w.panicked then w
    else
      var u := Whole(ck, w.rest + t, w.schema);
      u.(frames := w.frames + u.frames)
  }

  /** Scanning a stream in two parts, the second over what the first left. */
  lemma {:induction false} WholeExtend(ck: Checksum, s: bytes, t: bytes, schema: Val)
    requires HasType(SCHEMA, schema)
    ensures HasType(SCHEMA, Whole(ck, s, schema).schema)
    ensures Whole(ck, s + t, schema) == Resume(ck, Whole(ck, s, schema), t)
    decreases |s|
  {
    hide Next, HasType, Whole;
    NextExtend(ck, s, t, schema);
    WholeStep(ck, s, schema);
    WholeStep(ck, s + t, schema);
    match Next(ck, s, schema)
    case Emit(f, rest, sc) =>
      WholeExtend(ck, rest, t, sc);
      var w := Whole(ck, rest, sc);
      if !w.panicked {
        var u := Whole(ck, w.rest + t, w.schema);
        assert [f] + (w.frames + u.frames) == ([f] + w.frames) + u.frames;
      }
    case Wait(rest, _, sc) =>
      var u := Whole(ck, rest + t, sc);
      WholeOfWait(ck, s + t, schema, rest + t, sc);
      assert [] + u.frames == u.frames;
    case Panic => ZeroHasType(SCHEMA);
  }

  lemma WholeOfWait(ck: Checksum, s1: bytes, schema1: Val, s2: bytes, schema2: Val)
    requires Next(ck, s1, schema1) == Next(ck, s2, schema2)
    ensures Whole(ck, s1, schema1) == Whole(ck, s2, schema2)
  {
    hide Next;
  }

  function Join(chunks: seq<bytes>): bytes {
    if chunks == [] then [] else chunks[0] + Join(chunks[1..])
  }

  /** The receiver fed with chunk after chunk, drained after each. */
  function Chunked(ck: Checksum, chunks: seq<bytes>, w: Scanned): Scanned
    decreases |chunks|
  {
    if chunks == [] then w else Chunked(ck, chunks[1..], Resume(ck, w, chunks[0]))
  }

  /**
    Chunking invariance: the frames that come out, complete with their schemas, what is
    left over, and whether the receiver panics depend on the joined stream alone.
   */
  lemma {:induction false} ChunkingDoesNotMatter(ck: Checksum, chunks: seq<bytes>, s: bytes, schema: Val)
    requires HasType(SCHEMA, schema)
    ensures Chunked(ck, chunks, Whole(ck, s, schema)) == Whole(ck, s + Join(chunks), schema)
    decreases |chunks|
  {
    hide Whole, Next, HasType;
    if chunks == [] {
      assert s + [] == s;
    } else {
      var c := chunks[0];
      assert s + Join(chunks) == (s + c) + Join(chunks[1..]);
      WholeExtend(ck, s, c, schema);
      ChunkingDoesNotMatter(ck, chunks[1..], s + c, schema);
    }
  }
}
