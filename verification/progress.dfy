/**
  The receiver never waits in vain: a candidate it waits on can always be decided, what it
  refuses is told from the bytes, and behind a refused frame the next good one comes out. A
  frame that is cut off is waited for, with exactly the bytes that are missing.
 */
module Progress {
  import opened Wire
  import opened Types
  import opened Codec
  import opened RoundTrip
  import opened Stability
  import opened Incremental
  import opened Refusals
  import opened Waiting
  import opened Magic
  import opened Frames
  import opened Framing
  import opened Scan
  import opened Delivery

  // ---------------------------------------------------------------- no candidate blocks

  /** Whatever came so far of the heads of a candidate, something can follow that decides on them. */
  lemma HeadsCanEnd(d: bytes, schema: Val) returns (t: bytes)
    ensures ParseHeads(d + t, schema).st != Short
  {
    hide Dump, MergedHead, Final;
    t := Zeroes(MIN_HEADER);
    var d0 := d + t;
    if d0[7] == TSCHEMA {
      var w := DumpCanEnd(SCHEMA, d0[8..], schema);
      assert d0[8..] + w + Zeroes(MERGED_HEAD) == (d0 + w + Zeroes(MERGED_HEAD))[8..];
      StaysFinal(SCHEMA, d0[8..] + w, schema, Zeroes(MERGED_HEAD));
      t := t + w + Zeroes(MERGED_HEAD);
      assert d + t == d0 + w + Zeroes(MERGED_HEAD);
      SchemaEnds(d + t, schema, Dump(SCHEMA, d0[8..] + w, schema).rest);
    }
  }

  lemma SchemaEnds(d: bytes, schema: Val, u: bytes)
    requires |d| >= MIN_HEADER && d[7] == TSCHEMA && Dump(SCHEMA, d[8..], schema).st != Short
    requires Dump(SCHEMA, d[8..], schema).rest == u + Zeroes(MERGED_HEAD)
    ensures ParseHeads(d, schema).st != Short
  {
    hide Dump;
    RestIsSuffix(SCHEMA, d[8..], schema);
  }

  /** The same for all of a candidate: no data keeps the receiver waiting for ever. */
  lemma ClassifyCanEnd(ck: Checksum, d: bytes, schema: Val) returns (t: bytes)
    ensures Classify(ck, d + t, schema).st != Short
  {
    hide ParseHeads, MergedHead;
    t := HeadsCanEnd(d, schema);
    var p := ParseHeads(d + t, schema);
    var w := Zeroes(p.payloadLen + MERGED_HEAD + MAX16);
    ParseHeadsStable(d + t, w, schema);
    ParseHeadsBounds(d + t, schema);
    assert d + (t + w) == d + t + w;
    t := t + w;
  }

  /** So behind any stream that leaves it waiting on a candidate, it can be made to go on. */
  lemma WaitCanEnd(ck: Checksum, s: bytes, schema: Val) returns (t: bytes)
    requires HasType(SCHEMA, schema) && Next(ck, s, schema).Wait? && At(Next(ck, s, schema).rest, 0)
    ensures var w := Next(ck, s, schema);
      Next(ck, s + t, schema) == Next(ck, w.rest + t, w.schema) && Classify(ck, w.rest + t, w.schema).st != Short
  {
    hide Next, Classify, HasType, At;
    var w := Next(ck, s, schema);
    t := ClassifyCanEnd(ck, w.rest, w.schema);
    NextExtend(ck, s, t, schema);
  }

  // ---------------------------------------------------------------- what is refused

  /** The head of an array of bytes: accepted exactly when complete, tagged, not negative and counted right. */
  lemma ArrayHeads(d: bytes, pos: nat)
    ensures var h := MergedHead(d, pos);
      if |d| < pos + 8 then h == Head(Short, 0, pos + 8 - |d|)
      else
        var size, length := Int32(d[pos + 2..pos + 6]), Int16(d[pos + 6..pos + 8]);
        if d[pos] == 26 && d[pos + 1] == 13 && 0 <= length && size == length + 2 then h == Head(Ok, length, 0)
        else h.st == Bad
  {
    hide Int16, Int32;
  }

  /** Bytes that can not be the front of a frame, by its first nine and the count of its schema. */
  predicate NoFrame(d: bytes) {
    |d| >= 64
    && (d[7] != 77
        || (d[8] != 27 && d[8] != 229)
        || (d[8] == 27 && CheckSize(d[9..]).st == Ok && CheckSize(d[9..]).count != 4))
  }

  lemma NoFrameIsRefused(d: bytes, schema: Val)
    requires NoFrame(d)
    ensures ParseHeads(d, schema).st == Bad
  {
    hide CheckSize, DumpFields, MergedHead;
    if d[7] == 77 {
      var s := d[8..];
      assert s[0] == d[8] && s[1..] == d[9..];
      if d[8] == 27 {
        OtherCountsAreRefused(SCHEMA.fields, s[1..], schema);
      } else {
        OtherTagsAreRefused(SCHEMA, s, schema);
      }
    }
  }

  /** With no other magic word in it, what is refused by its heads is a broken frame. */
  lemma RefusedIsBroken(ck: Checksum, bs: bytes, t: bytes)
    requires At(bs, 0) && forall j :: j > 0 ==> !At(bs, j)
    requires forall schema :: HasType(SCHEMA, schema) ==> ParseHeads(bs + t, schema).st == Bad
    ensures IsBroken(ck, bs, t)
  {
    hide ParseHeads, HasType, At;
  }

  lemma NoFrameIsBroken(ck: Checksum, bs: bytes, t: bytes)
    requires At(bs, 0) && (forall j :: j > 0 ==> !At(bs, j)) && NoFrame(bs + t)
    ensures IsBroken(ck, bs, t)
  {
    hide ParseHeads, HasType, At, NoFrame;
    forall schema | HasType(SCHEMA, schema) ensures ParseHeads(bs + t, schema).st == Bad {
      NoFrameIsRefused(bs + t, schema);
    }
    RefusedIsBroken(ck, bs, t);
  }

  /** A schema whose fields are right up to one that fails: the heads fail alike. */
  lemma SchemaFailsAs(d: bytes, s: Schema, k: nat, w: bytes, schema: Val)
    requires |d| >= 64 && d[7] == 77 && d[8] == 27 && SchemaFits(s) && k < 4
    requires CheckSize(d[9..]) == Sizes(Ok, 4, Saved(SCHEMA, SchemaVal(s).fields, 0, k) + w)
    requires var f := Dump(SCHEMA.fields[k], w, OldFields(SCHEMA, schema)[k]); f.st == Bad || f.st == Fault
    ensures ParseHeads(d, schema).st == Dump(SCHEMA.fields[k], w, OldFields(SCHEMA, schema)[k]).st
  {
    hide CheckSize, DumpFields, MergedHead, Saved, SchemaVal;
    var u := d[8..];
    assert u[0] == d[8] && u[1..] == d[9..];
    SchemaFields(s);
    var vs, cur := SchemaVal(s).fields, OldFields(SCHEMA, schema);
    SchemaTyped(s);
    assert HasType(SCHEMA, VObj(vs)) && Fits(VObj(vs));
    FieldsUpToFailure(SCHEMA, vs, 0, k, w, cur);
    var f := Dump(SCHEMA.fields[k], w, cur[k]);
    assert DumpBody(SCHEMA, u[1..], schema).st == f.st;
    assert Dump(SCHEMA, u, schema).st == f.st;
  }

  /** A field with another tag is refused. */
  lemma WrongFieldIsRefused(d: bytes, s: Schema, k: nat, w: bytes, schema: Val)
    requires |d| >= 64 && d[7] == 77 && d[8] == 27 && SchemaFits(s) && k < 4
    requires CheckSize(d[9..]) == Sizes(Ok, 4, Saved(SCHEMA, SchemaVal(s).fields, 0, k) + w)
    requires w != [] && (if k == 0 then w[0] != 14 && w[0] != 242 else w[0] != 22 && w[0] != 234)
    ensures ParseHeads(d, schema).st == Bad
  {
    hide CheckSize, ParseHeads, Saved, SchemaVal;
    OtherTagsAreRefused(SCHEMA.fields[k], w, OldFields(SCHEMA, schema)[k]);
    SchemaFailsAs(d, s, k, w, schema);
  }

  /** A text of negative length is the one thing the receiver does not survive. */
  lemma NegativeTextPanics(ck: Checksum, d: bytes, s: Schema, k: nat, b: bytes, schema: Val)
    requires |d| >= 64 && d[7] == 77 && d[8] == 27 && SchemaFits(s) && 1 <= k < 4 && At(d, 0)
    requires CheckSize(d[9..]) == Sizes(Ok, 4, Saved(SCHEMA, SchemaVal(s).fields, 0, k) + ([22] + b))
    requires |b| >= 4 && Int32(b) < 0
    ensures Next(ck, d, schema) == Panic
  {
    hide CheckSize, ParseHeads, Saved, SchemaVal, At, Find, Int32;
    var old_ := OldFields(SCHEMA, schema)[k];
    assert ([22] + b)[1..] == b;
    TextLengths(b, old_);
    SchemaFailsAs(d, s, k, [22] + b, schema);
    SeekFound(d);
  }

  lemma SchemaFields(s: Schema)
    ensures SchemaVal(s) == VObj(SchemaVal(s).fields) && |SchemaVal(s).fields| == 4
  {
  }

  /** A right schema with something else than the head of a payload behind it. */
  lemma WrongHeadIsRefused(s: Schema, u: bytes, schema: Val)
    requires SchemaFits(s)
    requires var pre := MAGIC + VERSION + [TSCHEMA] + Enc(SCHEMA, SchemaVal(s));
      |pre + u| >= MIN_HEADER && MergedHead(pre + u, |pre|).st == Bad
    ensures ParseHeads(MAGIC + VERSION + [TSCHEMA] + Enc(SCHEMA, SchemaVal(s)) + u, schema).st == Bad
  {
    hide Dump, Enc, HasType, WellFormed, Fits, Norm, MergedHead, SchemaVal;
    AfterSchema(s, u, schema);
  }

  /** Parsing heads up to the end of a right schema. */
  lemma AfterSchema(s: Schema, u: bytes, schema: Val)
    requires SchemaFits(s)
    ensures var pre := MAGIC + VERSION + [TSCHEMA] + Enc(SCHEMA, SchemaVal(s));
      var d := pre + u;
      && |pre| == 33 + |s.types| + |s.tid| + |s.info| && |d| == |pre| + |u|
      && (|d| >= MIN_HEADER ==>
            var h := MergedHead(d, |pre|);
            ParseHeads(d, schema) ==
              if h.st != Ok then Heads(h.st, h.more, 0, 0, SchemaVal(s))
              else Heads(Ok, 0, |pre| + MERGED_HEAD, h.length, SchemaVal(s)))
  {
    hide Dump, Enc, HasType, WellFormed, Fits, Norm, MergedHead, SchemaVal;
    var e := Enc(SCHEMA, SchemaVal(s));
    var pre := MAGIC + VERSION + [TSCHEMA] + e;
    var d := pre + u;
    LeadForm(s);
    assert |Lead(s)| == |pre| + 2;
    assert d[8..] == e + u;
    assert d[7] == TSCHEMA;
    SchemaTyped(s);
    Forward(SCHEMA, SchemaVal(s), u, schema);
  }

  /** A whole payload with something else than the head of a checksum behind it. */
  lemma WrongChecksumHeadIsBroken(ck: Checksum, s: Schema, payload: bytes, bs: bytes, t: bytes)
    requires SchemaFits(s) && |payload| <= MAX16 && HeadsFor(s, |payload|) + payload <= bs && |bs + t| >= MIN_HEADER
    requires forall j :: j > 0 ==> !At(bs, j)
    requires MergedHead(bs + t, |HeadsFor(s, |payload|)| + |payload|).st == Bad
    ensures IsBroken(ck, bs, t)
  {
    hide HasType, At, HeadsFor, ParseHeads, MergedHead;
    var n := |payload|;
    var body := HeadsFor(s, n) + payload;
    var u := payload + (bs[|body|..] + t);
    assert bs + t == HeadsFor(s, n) + u;
    HeadsStart(s, n);
    assert bs == HeadsFor(s, n) + (payload + bs[|body|..]);
    AtAppend(HeadsFor(s, n), payload + bs[|body|..], 0);
    forall schema | HasType(SCHEMA, schema) ensures Classify(ck, bs + t, schema).st == Bad {
      HeadsParse(s, n, u, schema);
    }
  }

  /** Behind a broken frame the next good one comes out, whatever follows. */
  lemma GoodFrameComesOut(ck: Checksum, noise: bytes, bs: bytes, x: Sent, t: bytes, schema: Val)
    requires Find(noise) < 0 && Sendable(ck, x) && HasType(SCHEMA, schema) && IsBroken(ck, bs, BytesOf(ck, x) + t)
    ensures Next(ck, noise + (bs + (BytesOf(ck, x) + t)), schema) == Emit(Arrived(ck, x), t, SchemaVal(x.schema))
  {
    hide Next, Find, Sendable, HasType, IsBroken, At, BytesOf, Classify, Arrived;
    FrameStarts(ck, x, t);
    BrokenIsSkipped(ck, noise, bs, BytesOf(ck, x) + t, schema);
    NothingIsNoise();
    NextIsSent(ck, [], x, t, Classify(ck, bs + (BytesOf(ck, x) + t), schema).schema);
    assert [] + (BytesOf(ck, x) + t) == BytesOf(ck, x) + t;
  }

  lemma NothingIsNoise()
    ensures Find([]) < 0
  {
  }

  /** So a frame whose schema has another number of fields costs nothing but itself. */
  lemma NextBehindNoFrame(ck: Checksum, noise: bytes, bs: bytes, x: Sent, t: bytes, schema: Val)
    requires Find(noise) < 0 && Sendable(ck, x) && HasType(SCHEMA, schema)
    requires At(bs, 0) && (forall j :: j > 0 ==> !At(bs, j)) && NoFrame(bs + (BytesOf(ck, x) + t))
    ensures Next(ck, noise + (bs + (BytesOf(ck, x) + t)), schema) == Emit(Arrived(ck, x), t, SchemaVal(x.schema))
  {
    hide Next, Find, Sendable, HasType, IsBroken, At, BytesOf, Arrived, NoFrame;
    NoFrameIsBroken(ck, bs, BytesOf(ck, x) + t);
    GoodFrameComesOut(ck, noise, bs, x, t, schema);
  }

  // ---------------------------------------------------------------- what is waited for

  /** How many bytes the receiver says are missing when it has the first m of a frame. */
  function Missing(ck: Checksum, s: Schema, payload: bytes, m: nat): int {
    var toSchema := 33 + |s.types| + |s.tid| + |s.info|;
    var toBody := toSchema + 8 + |payload|;
    var all := toBody + 8 + |ck(HeadsFor(s, |payload|) + payload)|;
    if m < 64 then 64 - m
    else if m < toSchema then 64
    else if m < toSchema + 8 then toSchema + 8 - m
    else if m < toBody then toBody - m
    else if m < toBody + 8 then toBody + 8 - m
    else all - m
  }

  /** A frame cut off anywhere is waited for, and from its schema on the missing bytes are known. */
  lemma CutFrameIsWaitedFor(ck: Checksum, s: Schema, payload: bytes, m: nat, schema: Val)
    requires |s.types| + |s.tid| + |s.info| < LIMIT32 - 64 && |payload| <= MAX16
    requires |ck(HeadsFor(s, |payload|) + payload)| <= MAX16 && m < |FrameOf(ck, s, payload)|
    ensures var v := Classify(ck, FrameOf(ck, s, payload)[..m], schema);
      v.st == Short && v.more == Missing(ck, s, payload, m)
  {
    hide Dump, Enc, MergedHead, ParseHeads, HeadsFor, SchemaVal, FrameOf;
    var pre := MAGIC + VERSION + [TSCHEMA] + Enc(SCHEMA, SchemaVal(s));
    var f := FrameOf(ck, s, payload);
    var sum := ck(HeadsFor(s, |payload|) + payload);
    FrameParts(ck, s, payload);
    AfterSchema(s, [], schema);
    assert pre + [] == pre;
    if m < 64 {
      TooLittle(f[..m], schema);
    } else if m < |pre| {
      assert f[..m] == pre[..m];
      WithinSchema(s, m, schema);
    } else {
      var u := f[|pre|..m];
      assert f[..m] == pre + u;
      AfterSchema(s, u, schema);
      CutBehindSchema(ck, s, payload, sum, m, schema);
    }
  }

  lemma TooLittle(d: bytes, schema: Val)
    requires |d| < 64
    ensures ParseHeads(d, schema) == Heads(Short, 64 - |d|, 0, 0, schema)
  {
  }

  lemma FrameParts(ck: Checksum, s: Schema, payload: bytes)
    ensures var pre := MAGIC + VERSION + [TSCHEMA] + Enc(SCHEMA, SchemaVal(s));
      var sum := ck(HeadsFor(s, |payload|) + payload);
      FrameOf(ck, s, payload) == pre + ByteArrayHead(|payload|) + payload + ByteArrayHead(|sum|) + sum
      && HeadsFor(s, |payload|) == pre + ByteArrayHead(|payload|)
  {
    hide Enc, Le16, Le32, SchemaVal;
  }

  lemma WithinSchema(s: Schema, m: nat, schema: Val)
    requires |s.types| + |s.tid| + |s.info| < LIMIT32 - 64
    requires var pre := MAGIC + VERSION + [TSCHEMA] + Enc(SCHEMA, SchemaVal(s)); 64 <= m < |pre|
    ensures var p := ParseHeads((MAGIC + VERSION + [TSCHEMA] + Enc(SCHEMA, SchemaVal(s)))[..m], schema);
      p.st == Short && p.more == 64
  {
    hide Dump, Enc, HasType, WellFormed, Fits, Norm, MergedHead, SchemaVal;
    var e := Enc(SCHEMA, SchemaVal(s));
    var pre := MAGIC + VERSION + [TSCHEMA] + e;
    AfterSchema(s, [], schema);
    SchemaTyped(s);
    assert pre[..m][8..] == e[..m - 8];
    assert pre[..m][7] == TSCHEMA;
    PrefixIsShort(SCHEMA, SchemaVal(s), m - 8, schema);
  }

  /** What is waited for once the heads are there. */
  lemma ClassifySteps(ck: Checksum, d: bytes, schema: Val)
    ensures var p, v := ParseHeads(d, schema), Classify(ck, d, schema);
      var body := p.headsLen + p.payloadLen;
      && (p.st != Ok ==> v.st == p.st && v.more == p.more)
      && (p.st == Ok && body > |d| ==> v.st == Short && v.more == body - |d|)
      && (p.st == Ok && body <= |d| ==>
            var h := MergedHead(d, body);
            && (h.st != Ok ==> v.st == h.st && v.more == h.more)
            && (h.st == Ok && body + 8 + h.length > |d| ==> v.st == Short && v.more == body + 8 + h.length - |d|))
  {
    hide ParseHeads, MergedHead;
  }

  lemma CutBehindSchema(ck: Checksum, s: Schema, payload: bytes, sum: bytes, m: nat, schema: Val)
    requires SchemaFits(s) && |payload| <= MAX16 && |sum| <= MAX16 && sum == ck(HeadsFor(s, |payload|) + payload)
    requires var pre := MAGIC + VERSION + [TSCHEMA] + Enc(SCHEMA, SchemaVal(s));
      |pre| <= m < |FrameOf(ck, s, payload)| && m >= 64 && |pre| == 33 + |s.types| + |s.tid| + |s.info|
    ensures var v := Classify(ck, FrameOf(ck, s, payload)[..m], schema);
      v.st == Short && v.more == Missing(ck, s, payload, m)
  {
    hide Enc, MergedHead, ParseHeads, HeadsFor, ByteArrayHead, SchemaVal, FrameOf, Classify;
    var pre := MAGIC + VERSION + [TSCHEMA] + Enc(SCHEMA, SchemaVal(s));
    var f := FrameOf(ck, s, payload);
    var d := f[..m];
    FrameParts(ck, s, payload);
    var u := d[|pre|..];
    assert d == pre + u;
    AfterSchema(s, u, schema);
    ArrayHeads(d, |pre|);
    ClassifySteps(ck, d, schema);
    if m >= |pre| + 8 {
      HeadInside(pre, |payload|, payload + ByteArrayHead(|sum|) + sum, f, m);
      var body := pre + ByteArrayHead(|payload|) + payload;
      ArrayHeads(d, |body|);
      if m >= |body| + 8 {
        HeadInside(body, |sum|, sum, f, m);
      }
    }
  }

  /** The head of an array within the first m bytes. */
  lemma HeadInside(pre: bytes, n: nat, u: bytes, f: bytes, m: nat)
    requires f == pre + ByteArrayHead(n) + u && |pre| + 8 <= m <= |f| && n <= MAX16
    ensures MergedHead(f[..m], |pre|) == Head(Ok, n, 0)
  {
    hide MergedHead, ByteArrayHead;
    var w := f[|pre| + 8..m];
    assert f[..m] == pre + ByteArrayHead(n) + w;
    MergedHeadRead(pre, n, w);
  }

  /** Of noise the receiver keeps the last four bytes, where a magic word may have begun. */
  lemma NoiseIsDropped(ck: Checksum, s: bytes, schema: Val)
    requires forall j :: !At(s, j)
    ensures var kept := if |s| <= 4 then s else s[|s| - 4..];
      Next(ck, s, schema) == Wait(kept, 64 - |kept|, schema)
  {
    hide At;
    assert Find(s) < 0;
  }

  /** Behind noise too: the receiver keeps what came of the frame and waits for those bytes. */
  lemma CutFrameIsKept(ck: Checksum, noise: bytes, s: Schema, payload: bytes, m: nat, schema: Val)
    requires Find(noise) < 0 && |s.types| + |s.tid| + |s.info| < LIMIT32 - 64 && |payload| <= MAX16
    requires |ck(HeadsFor(s, |payload|) + payload)| <= MAX16 && 5 <= m < |FrameOf(ck, s, payload)|
    ensures var d := FrameOf(ck, s, payload)[..m];
      var w := Next(ck, noise + d, schema);
      w.Wait? && w.rest == d && w.more == Missing(ck, s, payload, m)
  {
    hide At, Find, Seek, Classify, FrameOf, HeadsFor, Missing;
    var f := FrameOf(ck, s, payload);
    var d := f[..m];
    FrameStarts(ck, Sent(s, payload), []);
    assert f + [] == f;
    assert At(d, 0) by { StartKept(f, m); }
    SeekPastNoise(noise, d);
    CutFrameIsWaitedFor(ck, s, payload, m, schema);
  }

  lemma StartKept(f: bytes, m: nat)
    requires At(f, 0) && 5 <= m <= |f|
    ensures At(f[..m], 0)
  {
    assert f[..m][0..5] == f[0..5];
  }
}
