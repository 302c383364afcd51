/**
  Frames as the sender lays them out, and the receiver's verdict on bytes that begin
  with a magic word.
 */
module Frames {
  import opened Wire
  import opened Types
  import opened Codec
  import opened RoundTrip
  import opened Stability

  /** A checksum function; the format fixes neither the function nor its length. */
  type Checksum = bytes -> bytes

  /** Checksums have one length, whatever they are taken of. */
  ghost predicate FixedLength(ck: Checksum) {
    forall x :: |ck(x)| == |ck([])|
  }

  lemma EqualLengthsAreFixed(ck: Checksum, n: nat)
    requires forall x :: |ck(x)| == n
    ensures FixedLength(ck)
  {
  }

  datatype Schema = Schema(fid: int, types: bytes, tid: bytes, info: bytes)

  const SCHEMA: Ty := Obj([Base(TINT16), Str, Str, Str])

  function SchemaVal(s: Schema): Val {
    VObj([VBase(Le16(s.fid)), VStr(s.types), VStr(s.tid), VStr(s.info)])
  }

  /** The schema that a value of the schema type stands for. */
  function SchemaOf(v: Val): Schema
    requires HasType(SCHEMA, v)
  {
    SchemaParts(v);
    Schema(Int16(v.fields[0].raw), v.fields[1].text, v.fields[2].text, v.fields[3].text)
  }

  lemma SchemaParts(v: Val)
    requires HasType(SCHEMA, v)
    ensures v.VObj? && |v.fields| == 4 && v.fields[0].VBase? && |v.fields[0].raw| == 2
    ensures v.fields[1].VStr? && v.fields[2].VStr? && v.fields[3].VStr?
  {
    assert HasType(SCHEMA.fields[0], v.fields[0]);
    assert HasType(SCHEMA.fields[1], v.fields[1]);
    assert HasType(SCHEMA.fields[2], v.fields[2]);
    assert HasType(SCHEMA.fields[3], v.fields[3]);
  }

  /** A schema comes back from its value exactly when its fragment number is an int16. */
  lemma SchemaOfVal(s: Schema)
    ensures HasType(SCHEMA, SchemaVal(s))
    ensures SchemaOf(SchemaVal(s)) == s <==> -0x8000 <= s.fid <= MAX16
    ensures SchemaOf(SchemaVal(s)) == s.(fid := Wrap16(s.fid))
  {
    ReadBack16(s.fid, []);
    assert Le16(s.fid) + [] == Le16(s.fid);
    SurvivesField(s.fid);
  }

  predicate SchemaFits(s: Schema) {
    |s.types| < LIMIT32 && |s.tid| < LIMIT32 && |s.info| < LIMIT32
  }

  // ---------------------------------------------------------------- sending

  /** The head of a merged byte array: tags, size, count. */
  function ByteArrayHead(n: nat): (r: bytes)
    ensures |r| == MERGED_HEAD
  {
    [TARRAYM, TUINT8] + Le32(n + 2) + Le16(n)
  }

  /** Everything in front of the sizes of the payload. */
  function Lead(s: Schema): bytes {
    MAGIC + VERSION + [TSCHEMA] + Enc(SCHEMA, SchemaVal(s)) + [TARRAYM, TUINT8]
  }

  function HeadsFor(s: Schema, n: nat): bytes {
    Lead(s) + Le32(n + 2) + Le16(n)
  }

  /** A body with its checksum array behind it. */
  function Seal(ck: Checksum, body: bytes): bytes {
    body + ByteArrayHead(|ck(body)|) + ck(body)
  }

  function FrameOf(ck: Checksum, s: Schema, payload: bytes): bytes {
    Seal(ck, HeadsFor(s, |payload|) + payload)
  }

  // ---------------------------------------------------------------- receiving

  datatype Head = Head(st: Status, length: int, more: int)

  /** The head of a merged byte array at pos, or how many bytes it still needs. */
  function MergedHead(d: bytes, pos: nat): (h: Head)
    ensures h.st == Ok ==> pos + MERGED_HEAD <= |d| && 0 <= h.length <= MAX16
    ensures h.st == Short <==> pos + MERGED_HEAD > |d|
    ensures h.st == Short ==> h.more == pos + MERGED_HEAD - |d|
    ensures h.st != Fault
  {
    if pos + MERGED_HEAD > |d| then Head(Short, 0, pos + MERGED_HEAD - |d|)
    else if d[pos] != TARRAYM || d[pos + 1] != TUINT8 then Head(Bad, 0, 0)
    else
      var size, length := Int32(d[pos + 2..pos + 6]), Int16(d[pos + 6..pos + 8]);
      if size != length + 2 || length < 0 then Head(Bad, 0, 0) else Head(Ok, length, 0)
  }

  datatype Heads = Heads(st: Status, more: int, headsLen: nat, payloadLen: nat, schema: Val)

  /** Parsing everything in front of the payload; the schema is dumped over an earlier one. */
  function ParseHeads(d: bytes, schema: Val): Heads {
    if |d| < MIN_HEADER then Heads(Short, MIN_HEADER - |d|, 0, 0, schema)
    else if d[7] != TSCHEMA then Heads(Bad, 0, 0, 0, schema)
    else
      var o := Dump(SCHEMA, d[8..], schema);
      if o.st == Short then Heads(Short, MIN_HEADER, 0, 0, o.val)
      else if o.st != Ok then Heads(o.st, 0, 0, 0, o.val)
      else
        RestIsSuffix(SCHEMA, d[8..], schema);
        var cursor := |d| - |o.rest|;
        var h := MergedHead(d, cursor);
        if h.st != Ok then Heads(h.st, h.more, 0, 0, o.val)
        else Heads(Ok, 0, cursor + MERGED_HEAD, h.length, o.val)
  }

  datatype Verdict = Verdict(st: Status, more: int, headsLen: nat, payloadLen: nat, checksumLen: nat, schema: Val)
  {
    function FrameLen(): nat { headsLen + payloadLen + checksumLen }
  }

  /** The verdict on what begins with a magic word. An empty checksum is not compared. */
  function Classify(ck: Checksum, d: bytes, schema: Val): (v: Verdict)
    ensures v.st == Ok ==> 25 <= v.FrameLen() <= |d| && v.checksumLen >= MERGED_HEAD && v.headsLen >= 17
    ensures v.st == Short ==> v.more >= 1
  {
    var p := ParseHeads(d, schema);
    ParseHeadsBounds(d, schema);
    if p.st != Ok then Verdict(p.st, p.more, 0, 0, 0, p.schema)
    else
      var body := p.headsLen + p.payloadLen;
      if body > |d| then Verdict(Short, body - |d|, 0, 0, 0, p.schema)
      else
        var h := MergedHead(d, body);
        if h.st != Ok then Verdict(h.st, h.more, 0, 0, 0, p.schema)
        else
          var total := body + MERGED_HEAD + h.length;
          if total > |d| then Verdict(Short, total - |d|, 0, 0, 0, p.schema)
          else if h.length > 0 && ck(d[..body]) != d[body + MERGED_HEAD..total] then Verdict(Bad, 0, 0, 0, 0, p.schema)
          else Verdict(Ok, 0, p.headsLen, p.payloadLen, MERGED_HEAD + h.length, p.schema)
  }

  // ---------------------------------------------------------------- bounds

  lemma ParseHeadsBounds(d: bytes, schema: Val)
    ensures var p := ParseHeads(d, schema);
      (p.st == Ok ==> 17 <= p.headsLen <= |d|) && (p.st == Short ==> p.more >= 1)
  {
    hide Dump;
    if |d| >= MIN_HEADER {
      RestIsSuffix(SCHEMA, d[8..], schema);
    }
  }

  // ---------------------------------------------------------------- more data

  /** What lies in front of more data is not changed by it. */
  lemma SliceStable(d: bytes, t: bytes, a: nat, z: nat)
    requires a <= z <= |d|
    ensures (d + t)[a..z] == d[a..z]
  {
  }

  lemma MergedHeadStable(d: bytes, t: bytes, pos: nat)
    requires pos + MERGED_HEAD <= |d|
    ensures MergedHead(d + t, pos) == MergedHead(d, pos)
  {
    hide Int16, Int32;
    SliceStable(d, t, pos + 2, pos + 6);
    SliceStable(d, t, pos + 6, pos + 8);
  }

  /** A schema has no merged lists, so reading it does not depend on what comes later. */
  lemma SchemaReads(s: bytes, schema: Val)
    ensures WellFormed(SCHEMA) && Reads(SCHEMA, s, schema)
  {
    hide Reads;
    UnmergedReads(SCHEMA, s, schema);
  }

  lemma ParseHeadsStable(d: bytes, t: bytes, schema: Val)
    requires ParseHeads(d, schema).st != Short
    ensures ParseHeads(d + t, schema) == ParseHeads(d, schema)
  {
    hide Dump, MergedHead, WellFormed, Reads;
    if d[7] == TSCHEMA {
      var o := Dump(SCHEMA, d[8..], schema);
      SchemaReads(d[8..], schema);
      Stable(SCHEMA, d[8..], t, schema);
      assert (d + t)[8..] == d[8..] + t;
      RestIsSuffix(SCHEMA, d[8..], schema);
      if o.st == Ok {
        var cursor := |d| - |o.rest|;
        MergedHeadStable(d, t, cursor);
      }
    }
  }

  /** A verdict other than "too short" stands whatever arrives later. */
  lemma ClassifyStable(ck: Checksum, d: bytes, t: bytes, schema: Val)
    requires Classify(ck, d, schema).st != Short
    ensures Classify(ck, d + t, schema) == Classify(ck, d, schema)
  {
    hide ParseHeads, MergedHead;
    var p := ParseHeads(d, schema);
    ParseHeadsStable(d, t, schema);
    ParseHeadsBounds(d, schema);
    if p.st == Ok {
      var body := p.headsLen + p.payloadLen;
      MergedHeadStable(d, t, body);
      var h := MergedHead(d, body);
      if h.st == Ok {
        SliceStable(d, t, 0, body);
        SliceStable(d, t, body + MERGED_HEAD, body + MERGED_HEAD + h.length);
      }
    }
  }

  /** Parsing again over the schema an earlier attempt left behind changes nothing. */
  lemma ParseHeadsRetry(d: bytes, t: bytes, schema: Val)
    requires HasType(SCHEMA, schema)
    ensures HasType(SCHEMA, ParseHeads(d, schema).schema)
    ensures ParseHeads(d + t, ParseHeads(d, schema).schema) == ParseHeads(d + t, schema)
  {
    hide Dump, HasType, MergedHead, WellFormed, Reads;
    if |d| >= MIN_HEADER && d[7] == TSCHEMA {
      DumpKeepsType(SCHEMA, d[8..], schema);
      SchemaReads(d[8..], schema);
      Retry(SCHEMA, d[8..], t, schema);
      assert (d + t)[8..] == d[8..] + t;
    }
  }

  lemma ClassifyRetry(ck: Checksum, d: bytes, t: bytes, schema: Val)
    requires HasType(SCHEMA, schema)
    ensures HasType(SCHEMA, Classify(ck, d, schema).schema)
    ensures Classify(ck, d + t, Classify(ck, d, schema).schema) == Classify(ck, d + t, schema)
  {
    hide ParseHeads, MergedHead, HasType, Classify;
    ParseHeadsRetry(d, t, schema);
    SchemaAfter(ck, d, schema);
    SameVerdict(ck, d + t, ParseHeads(d, schema).schema, schema);
  }

  lemma SchemaAfter(ck: Checksum, d: bytes, schema: Val)
    ensures Classify(ck, d, schema).schema == ParseHeads(d, schema).schema
  {
    hide ParseHeads, MergedHead;
  }

  lemma SameVerdict(ck: Checksum, d: bytes, schema1: Val, schema2: Val)
    requires ParseHeads(d, schema1) == ParseHeads(d, schema2)
    ensures Classify(ck, d, schema1) == Classify(ck, d, schema2)
  {
    hide ParseHeads, MergedHead;
  }
}
