/**
  Every frame parses back as exactly itself, and patching a fragment number or a payload
  size into finished heads is the same as laying the heads out with them.
 */
module Framing {
  import opened Wire
  import opened Types
  import opened Codec
  import opened RoundTrip
  import opened Magic
  import opened Frames

  // ---------------------------------------------------------------- layout

  function SchemaTail(s: Schema): bytes {
    [TSTRING] + Text(s.types) + [TSTRING] + Text(s.tid) + [TSTRING] + Text(s.info)
  }

  /** The sixteen bytes in front of the fragment number. */
  function FidLead(s: Schema): (r: bytes)
    ensures |r| == 16
  {
    MAGIC + VERSION + [TSCHEMA, TOBJECT] + Le32(5 + |SchemaTail(s)|) + Le16(4) + [TINT16]
  }

  lemma EncSchema(s: Schema)
    ensures Enc(SCHEMA, SchemaVal(s)) == [TOBJECT] + Container(4, [TINT16] + Le16(s.fid) + SchemaTail(s))
  {
    var vs := SchemaVal(s).fields;
    assert EncFields(SCHEMA, vs, 4) == [];
    assert EncFields(SCHEMA, vs, 3) == [TSTRING] + Text(s.info);
    assert EncFields(SCHEMA, vs, 2) == [TSTRING] + Text(s.tid) + ([TSTRING] + Text(s.info));
    assert EncFields(SCHEMA, vs, 1) == SchemaTail(s);
    assert EncFields(SCHEMA, vs, 0) == [TINT16] + Le16(s.fid) + SchemaTail(s);
  }

  lemma LeadForm(s: Schema)
    ensures Lead(s) == FidLead(s) + Le16(s.fid) + SchemaTail(s) + [TARRAYM, TUINT8]
    ensures |Lead(s)| == 35 + |s.types| + |s.tid| + |s.info|
    ensures At(Lead(s), 0) && Lead(s)[7] == TSCHEMA
  {
    EncSchema(s);
    hide Enc, Le16, Le32;
    var tail := SchemaTail(s);
    assert |tail| == 15 + |s.types| + |s.tid| + |s.info|;
    assert Container(4, [TINT16] + Le16(s.fid) + tail) == Le32(5 + |tail|) + Le16(4) + ([TINT16] + Le16(s.fid) + tail);
    assert Lead(s) == FidLead(s) + Le16(s.fid) + tail + [TARRAYM, TUINT8];
    assert Lead(s)[0..5] == MAGIC;
  }

  /** Two bytes at 16 replaced. */
  function PatchFid(heads: bytes, fid: int): bytes
    requires |heads| >= 18
  {
    heads[..16] + Le16(fid) + heads[18..]
  }

  /** The six bytes at the end replaced. */
  function PatchSize(heads: bytes, n: nat): bytes
    requires |heads| >= 6
  {
    heads[..|heads| - 6] + Le32(n + 2) + Le16(n)
  }

  /** Patching the fragment number is encoding the schema with that number. */
  lemma PatchFidIsReencoding(s: Schema, n: nat, fid: int)
    ensures |HeadsFor(s, n)| == 41 + |s.types| + |s.tid| + |s.info|
    ensures PatchFid(HeadsFor(s, n), fid) == HeadsFor(s.(fid := fid), n)
  {
    hide Lead, Le16, Le32, FidLead;
    var t := s.(fid := fid);
    LeadForm(s);
    LeadForm(t);
    assert SchemaTail(s) == SchemaTail(t);
    assert FidLead(s) == FidLead(t) by { FidLeadSame(s, t); }
    var rest := SchemaTail(s) + [TARRAYM, TUINT8] + Le32(n + 2) + Le16(n);
    assert HeadsFor(s, n) == FidLead(s) + Le16(s.fid) + rest;
    assert HeadsFor(t, n) == FidLead(s) + Le16(fid) + rest;
  }

  lemma FidLeadSame(s: Schema, t: Schema)
    requires SchemaTail(s) == SchemaTail(t)
    ensures FidLead(s) == FidLead(t)
  {
  }

  /** Patching the sizes is laying the heads out with them. */
  lemma PatchSizeIsRelayout(s: Schema, n: nat, m: nat)
    ensures |HeadsFor(s, n)| >= 6 && PatchSize(HeadsFor(s, n), m) == HeadsFor(s, m)
  {
    hide Lead, Le16, Le32;
    var h := HeadsFor(s, n);
    assert h[..|h| - 6] == Lead(s);
  }

  // ---------------------------------------------------------------- parsing back

  lemma MergedHeadRead(pre: bytes, n: nat, u: bytes)
    ensures var h := MergedHead(pre + ByteArrayHead(n) + u, |pre|);
      if n <= MAX16 then h == Head(Ok, n, 0)
      else h.st == Bad || (h.st == Ok && h.length != n && n >= LIMIT32 - 2)
  {
    hide Int16, Int32, Le16, Le32, Wrap16, Wrap32;
    var d := pre + ByteArrayHead(n) + u;
    var pos := |pre|;
    HeadSlices(pre, n, u);
    ReadBack32(n + 2, []);
    ReadBack16(n, []);
    assert Le32(n + 2) + [] == Le32(n + 2) && Le16(n) + [] == Le16(n);
    SurvivesField(n);
    SurvivesField(n + 2);
  }

  lemma HeadSlices(pre: bytes, n: nat, u: bytes)
    ensures var d, pos := pre + ByteArrayHead(n) + u, |pre|;
      d[pos] == TARRAYM && d[pos + 1] == TUINT8 && d[pos + 2..pos + 6] == Le32(n + 2) && d[pos + 6..pos + 8] == Le16(n)
  {
    hide Le16, Le32;
    var d, pos := pre + ByteArrayHead(n) + u, |pre|;
    assert d == pre + ([TARRAYM, TUINT8] + Le32(n + 2) + Le16(n) + u);
  }

  lemma SchemaTyped(s: Schema)
    ensures WellFormed(SCHEMA) && HasType(SCHEMA, SchemaVal(s)) && Norm(SCHEMA, SchemaVal(s)) == SchemaVal(s)
    ensures SchemaFits(s) ==> Fits(SchemaVal(s))
  {
    KeyNorm(SCHEMA, SchemaVal(s));
  }

  /** A schema marshalled and unmarshalled, over any earlier one, is itself exactly when its number is an int16. */
  lemma SchemaComesBack(s: Schema, rest: bytes, schema: Val)
    requires SchemaFits(s)
    ensures var o := Dump(SCHEMA, Enc(SCHEMA, SchemaVal(s)) + rest, schema);
      o.st == Ok && o.rest == rest && HasType(SCHEMA, o.val)
      && SchemaOf(o.val) == s.(fid := Wrap16(s.fid)) && (SchemaOf(o.val) == s <==> -0x8000 <= s.fid <= MAX16)
  {
    hide Dump, Enc, HasType, WellFormed, Norm, Fits;
    SchemaTyped(s);
    Forward(SCHEMA, SchemaVal(s), rest, schema);
    SchemaOfVal(s);
  }

  /** The heads of a frame in front of anything. */
  lemma HeadsParse(s: Schema, n: nat, u: bytes, schema: Val)
    requires SchemaFits(s) && |HeadsFor(s, n)| + |u| >= MIN_HEADER
    ensures var p := ParseHeads(HeadsFor(s, n) + u, schema);
      if n <= MAX16 then p == Heads(Ok, 0, |HeadsFor(s, n)|, n, SchemaVal(s))
      else p.st == Bad || (p.st == Ok && p.payloadLen != n && n >= LIMIT32 - 2)
  {
    hide Dump, Enc, Le16, Le32, HasType, WellFormed, Norm, Fits, MergedHead;
    var e := Enc(SCHEMA, SchemaVal(s));
    var rest := ByteArrayHead(n) + u;
    var d := HeadsFor(s, n) + u;
    LeadForm(s);
    var pre := MAGIC + VERSION + [TSCHEMA] + e;
    assert d == pre + rest;
    assert d[8..] == e + rest;
    assert d[7] == TSCHEMA;
    SchemaTyped(s);
    Forward(SCHEMA, SchemaVal(s), rest, schema);
    assert |d| - |rest| == |pre|;
    assert d == pre + ByteArrayHead(n) + u;
    MergedHeadRead(pre, n, u);
  }

  /** A body that counts its payload right, with any checksum behind it: the checksum decides. */
  lemma ChecksumDecides(ck: Checksum, s: Schema, payload: bytes, sum: bytes, t: bytes, schema: Val)
    requires SchemaFits(s) && |payload| <= MAX16 && |sum| <= MAX16
    requires |HeadsFor(s, |payload|)| + |payload| + MERGED_HEAD + |sum| + |t| >= MIN_HEADER
    ensures var body := HeadsFor(s, |payload|) + payload;
      var v := Classify(ck, body + ByteArrayHead(|sum|) + sum + t, schema);
      if sum != [] && sum != ck(body) then v.st == Bad
      else v == Verdict(Ok, 0, |HeadsFor(s, |payload|)|, |payload|, MERGED_HEAD + |sum|, SchemaVal(s))
  {
    hide HeadsFor, ParseHeads, MergedHead, SchemaFits;
    var heads := HeadsFor(s, |payload|);
    var body, tail := heads + payload, ByteArrayHead(|sum|) + sum + t;
    var d := body + ByteArrayHead(|sum|) + sum + t;
    BodyParts(heads, payload, sum, t);
    HeadsParse(s, |payload|, payload + tail, schema);
    MergedHeadRead(body, |sum|, sum + t);
    hide *;
    VerdictOf(ck, d, schema, Heads(Ok, 0, |heads|, |payload|, SchemaVal(s)), body, sum);
  }

  /** The verdict, once the heads and the head of the checksum are parsed. */
  lemma VerdictOf(ck: Checksum, d: bytes, schema: Val, p: Heads, body: bytes, sum: bytes)
    requires ParseHeads(d, schema) == p && p.st == Ok && p.headsLen + p.payloadLen == |body|
    requires MergedHead(d, |body|) == Head(Ok, |sum|, 0) && |body| + MERGED_HEAD + |sum| <= |d|
    requires d[..|body|] == body && d[|body| + MERGED_HEAD..|body| + MERGED_HEAD + |sum|] == sum
    ensures Classify(ck, d, schema) ==
      if sum != [] && sum != ck(body) then Verdict(Bad, 0, 0, 0, 0, p.schema)
      else Verdict(Ok, 0, p.headsLen, p.payloadLen, MERGED_HEAD + |sum|, p.schema)
  {
    hide ParseHeads, MergedHead;
  }

  /** The parts of a sealed body in front of anything. */
  lemma BodyParts(heads: bytes, payload: bytes, sum: bytes, t: bytes)
    ensures var body := heads + payload;
      var d := body + ByteArrayHead(|sum|) + sum + t;
      && d == heads + (payload + (ByteArrayHead(|sum|) + sum + t)) && d == body + ByteArrayHead(|sum|) + (sum + t)
      && |d| == |body| + MERGED_HEAD + |sum| + |t|
      && d[..|body|] == body && d[|body| + MERGED_HEAD..|body| + MERGED_HEAD + |sum|] == sum
  {
    hide ByteArrayHead;
    var body, h := heads + payload, ByteArrayHead(|sum|);
    var d := body + h + sum + t;
    assert d == heads + (payload + (h + sum + t));
    assert d == body + h + (sum + t);
    assert d[..|body|] == body;
    assert d[|body| + MERGED_HEAD..|body| + MERGED_HEAD + |sum|] == sum;
  }

  /**
    A sealed body whose heads announce a payload of n bytes is taken for what it is exactly
    when that is the length of the payload, and it fits the two-byte count.
   */
  lemma AnnouncedSizeDecides(ck: Checksum, s: Schema, n: nat, payload: bytes, t: bytes, schema: Val)
    requires SchemaFits(s) && |ck(HeadsFor(s, n) + payload)| <= MAX16
    requires |Seal(ck, HeadsFor(s, n) + payload) + t| >= MIN_HEADER && (n < LIMIT32 - 2 || n == |payload|)
    ensures var v := Classify(ck, Seal(ck, HeadsFor(s, n) + payload) + t, schema);
      n == |payload| <= MAX16 <==> v.st == Ok && v.payloadLen == |payload|
  {
    hide HeadsFor, ParseHeads, MergedHead;
    var heads := HeadsFor(s, n);
    var sum := ck(heads + payload);
    var u := payload + ByteArrayHead(|sum|) + sum + t;
    assert Seal(ck, heads + payload) + t == heads + u;
    if n == |payload| <= MAX16 {
      ChecksumDecides(ck, s, payload, sum, t, schema);
    } else {
      HeadsParse(s, n, u, schema);
    }
  }

  /**
    A frame, in front of anything and over any earlier schema, is taken for itself exactly
    when its payload length fits the two-byte count.
   */
  lemma FrameParsesExactly(ck: Checksum, s: Schema, payload: bytes, t: bytes, schema: Val)
    requires SchemaFits(s) && |ck(HeadsFor(s, |payload|) + payload)| <= MAX16
    requires |FrameOf(ck, s, payload) + t| >= MIN_HEADER
    ensures var v := Classify(ck, FrameOf(ck, s, payload) + t, schema);
      |payload| <= MAX16 <==> v.st == Ok && v.payloadLen == |payload|
    ensures |payload| <= MAX16 ==>
      Classify(ck, FrameOf(ck, s, payload) + t, schema)
        == Verdict(Ok, 0, |HeadsFor(s, |payload|)|, |payload|,
                   |FrameOf(ck, s, payload)| - |HeadsFor(s, |payload|)| - |payload|, SchemaVal(s))
  {
    hide HeadsFor, ParseHeads, MergedHead, Classify;
    AnnouncedSizeDecides(ck, s, |payload|, payload, t, schema);
    if |payload| <= MAX16 {
      ChecksumDecides(ck, s, payload, ck(HeadsFor(s, |payload|) + payload), t, schema);
    }
  }

  /** With the twelve-byte hash and checksum of the format no frame is below the minimum. */
  lemma FrameIsLongEnough(ck: Checksum, s: Schema, payload: bytes)
    requires |s.types| == 12 && |ck(HeadsFor(s, |payload|) + payload)| == 12 && |payload| >= 1
    ensures |FrameOf(ck, s, payload)| >= 74 >= MIN_HEADER
  {
    PatchFidIsReencoding(s, |payload|, 0);
  }
}
