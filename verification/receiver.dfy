/**
  The receiver: a state machine fed with chunks that keeps its progress in a candidate
  frame between calls and resynchronises after a bad one.
 */
module Receiver {
  import opened Wire
  import opened Types
  import opened Codec
  import opened Magic
  import opened Frames
  import opened Buffers
  import opened Dumping
  import opened Scan
  import opened Stability

  class RBuffer {
    const ck: Checksum
    var data: bytes
    var magic: int
    var schema: Val
    var headsLen: int
    var payload: int
    var payloadLen: int
    var checksum: int
    var checksumLen: int

    /** What is cached is what parsing the data from scratch would give, at every moment. */
    ghost predicate Valid()
      reads this
    {
      && HasType(SCHEMA, schema)
      && (magic == -1 || (magic == 0 && At(data, 0)))
      && (magic == -1 ==> headsLen == -1)
      && (if headsLen == -1 then payloadLen == -1 && payload == -1
          else
            headsLen >= 17 && payloadLen >= 0
            && ParseHeads(data, schema) == Heads(Ok, 0, headsLen, payloadLen, schema))
      && (if payload == -1 then checksum == -1 else payload == headsLen && headsLen + payloadLen <= |data|)
      && (if checksum == -1 then checksumLen == -1
          else payload != -1 && checksum == payload + payloadLen && checksumLen >= MERGED_HEAD
               && MergedHead(data, checksum) == Head(Ok, checksumLen - MERGED_HEAD, 0)
                   && checksum + checksumLen <= |data|)
    }

    /** A whole valid frame lies at the front of the data. */
    ghost predicate Ready()
      reads this
    {
      && Valid() && magic == 0 && checksum != -1
      && Classify(ck, data, schema) == Verdict(Ok, 0, headsLen, payloadLen, checksumLen, schema)
    }

    /** The frame at the front of the data. */
    ghost function Current(): Frame
      requires Ready()
      reads this
    {
      Cut(data, Verdict(Ok, 0, headsLen, payloadLen, checksumLen, schema))
    }

    constructor (ck: Checksum)
      ensures Valid() && data == [] && magic == -1 && schema == Zero(SCHEMA) && this.ck == ck
    {
      this.ck, data, schema := ck, [], Zero(SCHEMA);
      magic, headsLen, payload, payloadLen, checksum, checksumLen := -1, -1, -1, -1, -1, -1;
      new;
      ZeroHasType(SCHEMA);
    }

    method Reset()
      modifies `magic, `headsLen, `payload, `payloadLen, `checksum, `checksumLen
      ensures magic == -1 && headsLen == -1 && payload == -1 && payloadLen == -1 && checksum == -1 && checksumLen == -1
    {
      magic, headsLen, payload, payloadLen, checksum, checksumLen := -1, -1, -1, -1, -1, -1;
    }

    // ------------------------------------------------------------ finding

    /** A candidate goes on with more data behind it. */
    lemma StillValid(d: bytes)
      requires Valid() && magic == 0
      ensures At(data + d, 0)
      ensures headsLen != -1 ==> ParseHeads(data + d, schema) == ParseHeads(data, schema)
      ensures checksum != -1 ==> MergedHead(data + d, checksum) == MergedHead(data, checksum)
    {
      AtAppend(data, d, 0);
      if headsLen != -1 {
        ParseHeadsStable(data, d, schema);
      }
      if checksum != -1 {
        MergedHeadStable(data, d, checksum);
      }
    }

    /**
      Take in new data and go to the first magic word from `skip` on. Without one, only the
      last four bytes are kept.
     */
    method DetectMagic(d: bytes, skip: nat) returns (more: int, ok: bool)
      requires Valid() && (magic == 0 ==> skip == 0)
      requires skip == 0 || (|data| >= skip + 4 && d == [])
      modifies `data, `magic
      ensures Valid() && schema == old(schema)
      ensures old(magic) == 0 ==> ok && data == old(data) + d && magic == 0
      ensures old(magic) == -1 ==> Sought(ok, data) == Seek(old(data)[skip..] + d) && magic == (if ok then 0 else -1)
      ensures !ok ==> more == MIN_HEADER - |data|
    {
      hide ParseHeads, MergedHead, HasType;
      if magic >= 0 {
        StillValid(d);
        data := data + d;
        more := if |data| < MIN_HEADER then MIN_HEADER - |data| else 0;
        return more, true;
      }
      more, ok := Look(d, skip);
    }

    method Look(d: bytes, skip: nat) returns (more: int, ok: bool)
      requires Valid() && magic == -1
      requires skip == 0 || (|data| >= skip + 4 && d == [])
      modifies `data, `magic
      ensures Valid() && schema == old(schema)
      ensures Sought(ok, data) == Seek(old(data)[skip..] + d) && magic == (if ok then 0 else -1)
      ensures !ok ==> more == MIN_HEADER - |data|
    {
      hide ParseHeads, MergedHead, HasType, At, Find, Seek, Tail;
      ghost var a := data;
      if |data| >= |MAGIC| {
        magic := Find(data[skip..]);
        if magic >= 0 {
          InOld(a, d, skip);
          data := data[skip + magic..] + d;
          magic := Find(data);
          more := if |data| < MIN_HEADER then MIN_HEADER - |data| else 0;
          return more, true;
        }
        NotInOld(a, d, skip);
        data := data[|data| - 4..];
      } else {
        assert a[skip..] == a;
      }
      more, ok := LookOn(d);
    }

    /** The first magic word is in the old data. */
    lemma InOld(a: bytes, d: bytes, skip: nat)
      requires skip <= |a| && Find(a[skip..]) >= 0
      ensures skip + Find(a[skip..]) <= |a|
      ensures var t := a[skip + Find(a[skip..])..] + d;
        Seek(a[skip..] + d) == Sought(true, t) && Find(t) == 0 && At(t, 0)
    {
      hide At, Find;
      var k := Find(a[skip..]);
      FindAppend(a[skip..], d);
      assert a[skip + k..] == a[skip..][k..];
      assert (a[skip..] + d)[k..] == a[skip..][k..] + d;
      FoundAt(a[skip..] + d);
    }

    /** There is none in the old data: its last four bytes are enough. */
    lemma NotInOld(a: bytes, d: bytes, skip: nat)
      requires |a| >= skip + 4 && Find(a[skip..]) < 0
      ensures Seek(a[|a| - 4..] + d) == Seek(a[skip..] + d)
    {
      hide At, Find, Seek;
      SeekIs(a[skip..]);
      SeekAppend(a[skip..], d);
      TailOfDrop(a, skip);
    }

    lemma TailOfDrop(s: bytes, k: nat)
      requires |s| >= k + 4
      ensures Tail(s[k..]) == s[|s| - 4..]
    {
    }

    lemma FoundAt(s: bytes)
      requires Find(s) >= 0
      ensures At(s[Find(s)..], 0) && Find(s[Find(s)..]) == 0
    {
      AtShift(s, Find(s), 0);
      FindIs(s[Find(s)..], 0);
    }

    /** Look in the joint of at most four old bytes and the new ones, then in the new ones. */
    method LookOn(d: bytes) returns (more: int, ok: bool)
      requires Valid() && magic == -1 && |data| <= 4
      modifies `data, `magic
      ensures Valid() && schema == old(schema)
      ensures Sought(ok, data) == Seek(old(data) + d) && magic == (if ok then 0 else -1)
      ensures !ok ==> more == MIN_HEADER - |data|
    {
      hide ParseHeads, MergedHead, HasType, At, Find, Tail, Seek;
      ghost var a, s := data, data + d;
      var preSize := |data|;
      var cpsize := if |d| < 4 then |d| else 4;
      SeekIs(s);
      if preSize + |d| < |MAGIC| {
        TooFew(s);
        data := data + d;
        return MIN_HEADER - |data|, false;
      }
      assert d[..cpsize] == Edge(d);
      data := data + d[..cpsize];
      magic := Find(data);
      if magic < 0 {
        InNewOnly(a, d);
        var p := Find(d);
        if p < 0 {
          TailOfJoint(a, d);
          FrontPart(a, Edge(d), preSize - (4 - cpsize));
          data := data[preSize - (4 - cpsize)..preSize] + d[|d| - cpsize..];
          return MIN_HEADER - |data|, false;
        }
        data := d[p..];
      } else {
        InJoint(a, d);
        FrontPart(a, Edge(d), magic);
        data := data[magic..preSize] + d;
      }
      FoundAt(s);
      more := if |data| < MIN_HEADER then MIN_HEADER - |data| else 0;
      magic := Find(data);
      ok := true;
    }

    lemma SeekIs(s: bytes)
      ensures Seek(s) == if Find(s) >= 0 then Sought(true, s[Find(s)..]) else Sought(false, Tail(s))
    {
    }

    lemma FrontPart(a: bytes, e: bytes, m: nat)
      requires m <= |a|
      ensures (a + e)[m..|a|] == a[m..]
    {
    }

    lemma TooFew(s: bytes)
      requires |s| < |MAGIC|
      ensures Find(s) == -1 && Tail(s) == s
    {
    }

    // ------------------------------------------------------------ parsing

    /** Tags, size and count of a byte array at p. */
    method DumpMergedHead(p: nat) returns (st: Status, length: int, more: int)
      ensures MergedHead(data, p) == Head(st, length, more)
    {
      if p + MERGED_HEAD > |data| {
        return Short, 0, p + MERGED_HEAD - |data|;
      }
      if data[p] != TARRAYM || data[p + 1] != TUINT8 {
        return Bad, 0, 0;
      }
      var size := Int32(data[p + 2..p + 6]);
      length := Int16(data[p + 6..p + 8]);
      if size != length + 2 || length < 0 {
        return Bad, 0, 0;
      }
      return Ok, length, 0;
    }

    /** Dump the schema over the one at hand, from a buffer over the input. */
    method ReadSchema(input: bytes) returns (st: Status, left: int)
      modifies `schema
      ensures var o := Dump(SCHEMA, input, old(schema)); st == o.st && schema == o.val && left == |o.rest|
    {
      hide Dump, Buffer.Unread, Buffer.Held, Buffer.Cursor;
      var sbuf := new Buffer.Over(ck, input);
      var val;
      st, val := DumpInto(SCHEMA, sbuf, schema);
      schema := val;
      sbuf.SizeIsUnread();
      left := sbuf.size;
    }

    /** Parse the heads, unless that was done with less data already. */
    method HeadsStep() returns (more: int, st: Status)
      requires Valid() && magic == 0
      modifies `schema, `headsLen, `payloadLen
      ensures var p := ParseHeads(data, old(schema));
        st == p.st && (st == Short ==> more == p.more)
        && schema == p.schema
      ensures st == Ok || st == Short ==> Valid()
      ensures st == Ok ==> headsLen != -1
      ensures HasType(SCHEMA, schema)
    {
      hide At, HasType, MergedHead, Dump;
      ghost var sc := schema;
      ParseHeadsRetry(data, [], schema);
      ParseHeadsBounds(data, schema);
      assert data + [] == data;
      if headsLen >= 0 {
        return 0, Ok;
      }
      if |data| < MIN_HEADER {
        return MIN_HEADER - |data|, Short;
      }
      if data[7] != TSCHEMA {
        return 0, Bad;
      }
      var input := data[8..];
      var left;
      st, left := ReadSchema(input);
      if st != Ok {
        return MIN_HEADER, st;
      }
      var cursor := 8 + |input| - left;
      RestIsSuffix(SCHEMA, input, sc);
      var length;
      st, length, more := DumpMergedHead(cursor);
      if st != Ok {
        return;
      }
      payloadLen := length;
      headsLen := cursor + MERGED_HEAD;
    }

    method PayloadStep() returns (more: int, st: Status)
      requires Valid() && headsLen != -1
      modifies `payload
      ensures Valid() && st == (if headsLen + payloadLen > |data| then Short else Ok)
      ensures st == Short ==> more == headsLen + payloadLen - |data|
      ensures st == Ok ==> payload != -1
    {
      hide At, HasType, MergedHead, ParseHeads;
      if payload >= 0 {
        return 0, Ok;
      }
      var needed := headsLen + payloadLen;
      if needed > |data| - magic {
        return needed - (|data| - magic), Short;
      }
      payload := magic + headsLen;
      return 0, Ok;
    }

    method ChecksumStep() returns (more: int, st: Status)
      requires Valid() && payload != -1
      modifies `checksum, `checksumLen
      ensures Valid()
      ensures var h := MergedHead(data, headsLen + payloadLen);
        if h.st != Ok then st == h.st && more == h.more
        else
          var total := headsLen + payloadLen + MERGED_HEAD + h.length;
          if total > |data| then st == Short && more == total - |data|
          else st == Ok && checksum != -1 && checksumLen == MERGED_HEAD + h.length
    {
      hide At, HasType, ParseHeads;
      if checksum >= 0 {
        return 0, Ok;
      }
      var length;
      st, length, more := DumpMergedHead(payload + payloadLen);
      if st != Ok {
        return;
      }
      var needed := headsLen + payloadLen + MERGED_HEAD + length;
      if needed > |data| - magic {
        return needed - (|data| - magic), Short;
      }
      checksumLen := length + MERGED_HEAD;
      checksum := payload + payloadLen;
      return 0, Ok;
    }

    /** Go on parsing the candidate at the front of the data, up to its verdict. */
    method UnmarshalFragment() returns (more: int, st: Status)
      requires Valid() && magic == 0
      modifies `schema, `headsLen, `payload, `payloadLen, `checksum, `checksumLen
      ensures var v := Classify(ck, data, old(schema));
        st == v.st && (st == Short ==> more == v.more)
        && schema == v.schema
      ensures st == Short ==> Valid()
      ensures st == Ok ==> Ready() && Classify(ck, data, old(schema)) == Classify(ck, data, schema)
      ensures HasType(SCHEMA, schema)
    {
      hide At, HasType, MergedHead, ParseHeads;
      ParseHeadsRetry(data, [], schema);
      assert data + [] == data;
      more, st := HeadsStep();
      if st != Ok {
        return;
      }
      more, st := PayloadStep();
      if st != Ok {
        return;
      }
      more, st := ChecksumStep();
      if st != Ok {
        return;
      }
      var body := headsLen + payloadLen;
      var sum := data[body + MERGED_HEAD..body + checksumLen];
      if |sum| > 0 && ck(data[..body]) != sum {
        return 0, Bad;
      }
      return 0, Ok;
    }

    // ------------------------------------------------------------ extracting

    /**
      Take in new data and look for the next valid frame: the outcome is the first frame of
      everything held, as if it had all arrived at once.
     */
    method Extract(chunk: bytes) returns (more: int, st: Status)
      requires Valid()
      modifies this
      ensures match Next(ck, old(data) + chunk, old(schema))
        case Emit(frame, rest, sc) =>
          st == Ok && more == 0 && Ready() && Current() == frame && data == frame.Data() + rest && schema == sc
        case Wait(rest, m, sc) => st == Short && Valid() && data == rest && schema == sc && more == m
        case Panic => st == Fault
    {
      hide At, HasType, Classify, Seek, ParseHeads, MergedHead;
      ghost var goal := Next(ck, data + chunk, schema);
      var d := chunk;
      var skip := 0;
      assert data[0..] + d == data + chunk;
      while true
        invariant Valid() && (skip == 0 || (skip == 5 && magic == -1 && |data| >= MIN_HEADER && d == []))
        invariant Next(ck, data[skip..] + d, schema) == goal
        decreases |data| - skip + |d|
      {
        ghost var s, sc, was := data[skip..] + d, schema, magic;
        if magic == 0 { FoundFront(d); }
        var ok;
        more, ok := DetectMagic(d, skip);
        SeekBounds(s);
        if !ok {
          return more, Short;
        }
        assert Seek(s) == Sought(true, data);
        more, st := UnmarshalFragment();
        if st == Ok {
          CutJoins();
          return 0, Ok;
        }
        if st == Short || st == Fault {
          return;
        }
        BadIsLong(sc);
        Reset();
        skip := 5;
        d := [];
        assert data[5..] + [] == data[5..];
      }
    }

    lemma FoundFront(d: bytes)
      requires At(data, 0)
      ensures Seek(data[0..] + d) == Sought(true, data + d)
    {
      assert data[0..] == data;
      AtAppend(data, d, 0);
      SeekFound(data + d);
    }

    lemma SeekBounds(s: bytes)
      ensures |Seek(s).rest| <= |s|
    {
    }

    lemma BadIsLong(sc: Val)
      requires Classify(ck, data, sc).st == Bad
      ensures |data| >= MIN_HEADER
    {
    }

    lemma CutJoins()
      requires Ready()
      ensures Classify(ck, data, schema).st == Ok
      ensures var n := headsLen + payloadLen + checksumLen;
        n <= |data| && Current().Data() == data[..n]
        && data == data[..n] + data[n..]
    {
      hide ParseHeads, MergedHead, HasType, At;
      var v := Classify(ck, data, schema);
      var body := v.headsLen + v.payloadLen;
      assert data[..v.headsLen] + data[v.headsLen..body] == data[..body];
      assert data[..body] + data[body..v.FrameLen()] == data[..v.FrameLen()];
    }

    // ------------------------------------------------------------ fragments

    /** A fragment object carries a frame: its schema, and its bytes split as the frame is. */
    static ghost predicate Carries(f: Fragment, frame: Frame)
      reads f, f.b
    {
      && f.Valid() && f.d == f.b && HasType(SCHEMA, frame.schema) && f.schema == SchemaOf(frame.schema)
      && f.Heads() == frame.heads && f.Payload() == frame.payload && f.Data() == frame.Data()
      && f.dataLen == |frame.Data()| && |frame.heads| >= 17
    }

    /** Take the frame at the front out of the data, as an object with bytes of its own. */
    method TakeFragment() returns (f: Fragment)
      requires Ready()
      modifies this
      ensures fresh(f) && fresh(f.b) && Carries(f, old(Current()))
      ensures Valid() && magic == -1 && schema == old(schema) && old(data) == f.Data() + data
    {
      hide At, Classify, ParseHeads, MergedHead, HasType;
      CutJoins();
      ghost var frame := Current();
      var n := headsLen + payloadLen + checksumLen;
      assert HasType(SCHEMA, frame.schema) && frame.schema == schema;
      f := FragmentOf(data[..n], headsLen, payloadLen, SchemaOf(schema));
      FrameParts(frame);
      data := data[magic + n..];
      Reset();
    }

    /** A fragment with bytes of its own. */
    static method FragmentOf(bs: bytes, h: nat, p: nat, s: Schema) returns (f: Fragment)
      requires h + p <= |bs|
      ensures fresh(f) && fresh(f.b) && f.Valid() && f.d == f.b && f.schema == s && f.dataLen == |bs|
      ensures f.Data() == bs && f.Heads() == bs[..h] && f.Payload() == bs[h..h + p]
    {
      var b := new byte[|bs|](i requires 0 <= i < |bs| => bs[i]);
      f := new Fragment(b, h, p, |bs|, s);
    }

    static lemma FrameParts(frame: Frame)
      ensures var h, p := |frame.heads|, |frame.payload|;
        h + p <= |frame.Data()| && frame.Data()[..h] == frame.heads && frame.Data()[h..h + p] == frame.payload
    {
      var h, p := |frame.heads|, |frame.payload|;
      assert frame.Data() == frame.heads + (frame.payload + frame.checksum);
    }

    /** The next fragment of everything held and a chunk, if there is one. */
    method NextFragment(d: bytes) returns (f: Fragment?, st: Status, ghost frame: Frame)
      requires Valid()
      modifies this
      ensures var w := Whole(ck, old(data) + d, old(schema));
        match st
        case Ok => f != null && fresh(f) && fresh(f.b) && Carries(f, frame) && Valid()
          && w == Before([frame], Whole(ck, data, schema)) && |data| < |old(data) + d|
        case Short => Valid() && w == Scanned([], data, schema, false)
        case Fault => w == Scanned([], [], Zero(SCHEMA), true)
        case Bad => false
    {
      hide Valid, Whole, Classify, At, Zero, HasType;
      WholeStep(ck, data + d, schema);
      var more;
      more, st := Extract(d);
      f, frame := null, Frame(schema, [], [], []);
      if st == Ok {
        frame := Current();
        ghost var bs := data;
        f := TakeFragment();
        assert data == bs[|frame.Data()|..];
      }
    }

    /** Fragment objects carry frames, one each. */
    static ghost predicate CarryAll(frags: seq<Fragment>, frames: seq<Frame>)
      reads frags, set f | f in frags :: f.b
    {
      |frags| == |frames| && forall i :: 0 <= i < |frags| ==> frags[i] in frags && Carries(frags[i], frames[i])
    }

    /** Feed a chunk in and take out every frame there is. */
    method Drain(chunk: bytes) returns (frags: seq<Fragment>, ok: bool)
      requires Valid()
      modifies this
      ensures forall f :: f in frags ==> fresh(f) && fresh(f.b)
      ensures var w := Whole(ck, old(data) + chunk, old(schema));
        CarryAll(frags, w.frames) && ok == !w.panicked && (ok ==> Valid() && data == w.rest && schema == w.schema)
    {
      hide Valid, Whole, Next, Carries, Zero;
      ghost var goal := Whole(ck, data + chunk, schema);
      ghost var frames: seq<Frame> := [];
      frags := [];
      var d := chunk;
      while true
        invariant Valid()
        invariant |frags| == |frames| && forall i :: 0 <= i < |frags| ==> Carries(frags[i], frames[i])
        invariant forall f :: f in frags ==> fresh(f) && fresh(f.b)
        invariant goal == Before(frames, Whole(ck, data + d, schema))
        decreases |data| + |d|
      {
        var f, st, frame := NextFragment(d);
        if st != Ok {
          return frags, st == Short;
        }
        BeforeMore(frames, frame, Whole(ck, data, schema));
        frags := frags + [f];
        frames := frames + [frame];
        d := [];
        assert data + [] == data;
      }
    }
  }
}
