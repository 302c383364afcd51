/**
  Objects side by side: fragments of many objects come in any interleaving, and each object
  is collected as if the others were not there.
 */
module Demux {
  import opened Wire
  import opened Frames
  import opened Buffers
  import R = Reassembly

  /** Where the registry files a type. */
  datatype Location = Location(family: bytes, version: bytes)

  /** Where a fragment goes: by family, version and object, or by its unregistered types. */
  datatype Key = Known(family: bytes, version: bytes, tid: bytes) | Unknown(types: bytes, tid: bytes)

  /** A received fragment, as far as collecting goes. */
  datatype Incoming = Incoming(schema: Schema, payload: bytes)

  function KeyOf(registry: map<bytes, Location>, f: Incoming): (k: Key)
    ensures k.tid == f.schema.tid
    ensures f.schema.types !in registry ==> k == Unknown(f.schema.types, f.schema.tid)
    ensures forall family, version {:trigger Location(family, version)} ::
      f.schema.types in registry && registry[f.schema.types] == Location(family, version) ==>
        k == Known(family, version, f.schema.tid)
  {
    if f.schema.types in registry then
      Known(registry[f.schema.types].family, registry[f.schema.types].version, f.schema.tid)
    else
      Unknown(f.schema.types, f.schema.tid)
  }

  // ---------------------------------------------------------------- as functions

  /** An object being collected: the types its first fragment had, and its parts. */
  datatype Object = Object(types: bytes, tid: bytes, got: map<int, R.Part>)

  /** One fragment more for the object at its key; others than the first must agree with that. */
  function Fed(o: Option<Object>, f: Incoming): Object {
    var part := R.Part(f.schema.fid, f.payload);
    match o
    case None => Object(f.schema.types, f.schema.tid, R.Push(map[], part))
    case Some(x) => if Accepts(x, f) then x.(got := R.Push(x.got, part)) else x
  }

  predicate Accepts(x: Object, f: Incoming) {
    x.types == f.schema.types && x.tid == f.schema.tid
  }

  /** The fragment just put in leaves its object, of a registered type, with nothing missing. */
  predicate Completes(registry: map<bytes, Location>, objects: map<Key, Object>, f: Incoming) {
    var k := KeyOf(registry, f);
    k.Known? && k in objects && Accepts(objects[k], f) && R.Wanted(objects[k].got) == 0
  }

  /**
    What a fragment does to the objects: registered at a family and version, it goes to the
    object of that family, version and identifier, at the place of its number, beginning the
    object if it is the first; one of other types or another object is left out. Nothing else
    changes.
   */
  lemma PutFiles(registry: map<bytes, Location>, objects: map<Key, Object>, f: Incoming, family: bytes, version: bytes)
    requires f.schema.types in registry && registry[f.schema.types] == Location(family, version)
    ensures var k, next := Known(family, version, f.schema.tid), Step(registry, objects, Put(f));
      var place := (if f.schema.fid < 0 then -f.schema.fid else f.schema.fid) - 1;
      var part := R.Part(f.schema.fid, f.payload);
      && next.Keys == objects.Keys + {k} && (forall j :: j in objects && j != k ==> next[j] == objects[j])
      && (k !in objects ==> next[k] == Object(f.schema.types, f.schema.tid, map[place := part]))
      && (k in objects ==>
            next[k] == if objects[k].types == f.schema.types && objects[k].tid == f.schema.tid
                       then objects[k].(got := objects[k].got[place := part]) else objects[k])
  {
    var at := registry[f.schema.types];
    assert at == Location(family, version);
  }

  /** Unregistered, it goes to the object of its types and identifier. */
  lemma PutFilesUnknown(registry: map<bytes, Location>, objects: map<Key, Object>, f: Incoming)
    requires f.schema.types !in registry
    ensures var k, next := Unknown(f.schema.types, f.schema.tid), Step(registry, objects, Put(f));
      && next.Keys == objects.Keys + {k} && (forall j :: j in objects && j != k ==> next[j] == objects[j])
      && (k !in objects ==> next[k].types == f.schema.types && next[k].tid == f.schema.tid)
  {
  }

  function Get(objects: map<Key, Object>, k: Key): Option<Object> {
    if k in objects then Some(objects[k]) else None
  }

  /** What happens to the objects: a fragment comes in, or the object at a key is handed out. */
  datatype Op = Put(f: Incoming) | TakeOut(k: Key)

  function Step(registry: map<bytes, Location>, objects: map<Key, Object>, op: Op): map<Key, Object> {
    match op
    case Put(f) => objects[KeyOf(registry, f) := Fed(Get(objects, KeyOf(registry, f)), f)]
    case TakeOut(k) => objects - {k}
  }

  function Run(registry: map<bytes, Location>, objects: map<Key, Object>, ops: seq<Op>): map<Key, Object>
    decreases |ops|
  {
    if ops == [] then objects else Run(registry, Step(registry, objects, ops[0]), ops[1..])
  }

  /** Whether an operation is about a key. */
  predicate Concerns(registry: map<bytes, Location>, op: Op, k: Key) {
    match op
    case Put(f) => KeyOf(registry, f) == k
    case TakeOut(j) => j == k
  }

  function OwnOps(registry: map<bytes, Location>, ops: seq<Op>, k: Key): seq<Op> {
    if ops == [] then []
    else (if Concerns(registry, ops[0], k) then [ops[0]] else []) + OwnOps(registry, ops[1..], k)
  }

  /** One object on its own. */
  function Alone(o: Option<Object>, ops: seq<Op>): Option<Object>
    decreases |ops|
  {
    if ops == [] then o
    else Alone((match ops[0] case Put(f) => Some(Fed(o, f)) case TakeOut(_) => None), ops[1..])
  }

  /** Every object is what its own operations alone would have made of it. */
  lemma {:induction false} ObjectsDoNotMix(registry: map<bytes, Location>, objects: map<Key, Object>, ops: seq<Op>,
                                           k: Key)
    ensures Get(Run(registry, objects, ops), k) == Alone(Get(objects, k), OwnOps(registry, ops, k))
    decreases |ops|
  {
    if ops != [] {
      var next := Step(registry, objects, ops[0]);
      ObjectsDoNotMix(registry, next, ops[1..], k);
      var own := OwnOps(registry, ops[1..], k);
      if Concerns(registry, ops[0], k) {
        assert ([ops[0]] + own)[1..] == own;
      } else {
        assert Get(next, k) == Get(objects, k);
        assert [] + own == own;
      }
    }
  }

  // ---------------------------------------------------------------- as the receiver keeps them

  /** How taking in a fragment ends. */
  datatype Outcome = Complete | Incomplete | Unmatched

  /** The objects a receiver has begun to collect. */
  class Shelf {
    const ck: Checksum
    const registry: map<bytes, Location>
    var buffers: map<Key, Buffer>
    ghost var objects: map<Key, Object>
    /** The fragments in all buffers. */
    ghost var parts: set<object>

    /** A buffer collects an object. */
    static ghost predicate Collecting(b: Buffer, o: Object)
      reads b, b.Repr
    {
      b.Collects() && b.got == o.got && b.schema.Some? && b.schema.value.types == o.types && b.schema.value.tid == o.tid
    }

    ghost predicate Valid()
      reads this, buffers.Values, parts
    {
      && this !in parts && buffers.Keys == objects.Keys
      && (forall k :: k in buffers ==> Kept(k, buffers[k], objects[k], parts))
      && (forall j, k :: j in buffers && k in buffers && j != k ==> buffers[j] != buffers[k])
    }

    /** The buffer at a key collects the object there, and is no part of a buffer itself. */
    static ghost predicate Kept(k: Key, b: Buffer, o: Object, parts: set<object>)
      reads b, parts
    {
      b.Repr <= parts && b !in parts && Collecting(b, o) && o.tid == k.tid
    }

    constructor (ck: Checksum, registry: map<bytes, Location>)
      ensures Valid() && objects == map[] && this.registry == registry && buffers == map[] && parts == {}
    {
      this.ck, this.registry, buffers, objects, parts := ck, registry, map[], map[], {};
    }

    /** What a fragment object says to the functions. */
    static function InOf(frag: Fragment): Incoming
      requires frag.Valid()
      reads frag, frag.b
    {
      Incoming(frag.schema, frag.Payload())
    }

    /** A buffer for an object, or one that has none yet. */
    static ghost predicate Ready(b: Buffer, o: Option<Object>)
      reads b, b.Repr
    {
      match o
      case Some(x) => Collecting(b, x)
      case None => b.Collects() && b.got == map[] && b.schema == None
    }

    static lemma InOfIs(frag: Fragment)
      requires frag.Valid()
      ensures InOf(frag).schema == frag.schema
    {
    }

    static lemma FedKeeps(o: Option<Object>, f: Incoming)
      ensures Fed(o, f).types == if o.Some? then o.value.types else f.schema.types
      ensures Fed(o, f).tid == if o.Some? then o.value.tid else f.schema.tid
    {
    }

    /** The buffer for a key, a new one if there is none. */
    method BufferFor(k: Key) returns (b: Buffer)
      requires Valid()
      ensures Ready(b, Get(objects, k))
      ensures if k in buffers then b == buffers[k] else fresh(b) && b.Repr == {}
      ensures b !in parts && b.Repr <= parts
      ensures forall j :: j in buffers && j != k ==> buffers[j] != b
    {
      if k in buffers {
        return buffers[k];
      }
      b := new Buffer(ck, 0);
    }

    /** One fragment more into an object's buffer. */
    static method Feed(b: Buffer, frag: Fragment, ghost o: Option<Object>) returns (miss: int, verdict: PushVerdict)
      requires Ready(b, o) && frag.Valid() && frag.dataLen >= frag.headsLen + frag.payloadLen && frag.dataLen > 0
      requires -0x8000 <= frag.schema.fid <= MAX16
      modifies b
      ensures Collecting(b, Fed(o, InOf(frag))) && miss == R.Wanted(Fed(o, InOf(frag)).got)
      ensures verdict == if o == None || Accepts(o.value, InOf(frag)) then Taken
        else if o.value.types != frag.schema.types then OtherTypes else OtherObject
      ensures b.Repr <= old(b.Repr) + {frag, frag.b}
    {
      hide R.Push, R.Wanted, Buffer.Collects;
      miss, verdict := b.Push(frag);
    }

    static lemma KeptMore(k: Key, b: Buffer, o: Object, parts: set<object>, frag: Fragment)
      requires Kept(k, b, o, parts)
      ensures Kept(k, b, o, parts + {frag, frag.b})
    {
    }

    static lemma KeptNew(k: Key, b: Buffer, o: Object, parts: set<object>, frag: Fragment)
      requires Collecting(b, o) && o.tid == k.tid && b !in parts && b.Repr <= parts + {frag, frag.b}
      ensures Kept(k, b, o, parts + {frag, frag.b})
    {
    }

    /** Feed the object at a key. */
    method Admit(k: Key, frag: Fragment) returns (miss: int, verdict: PushVerdict)
      requires Valid() && frag.Valid() && frag.dataLen >= frag.headsLen + frag.payloadLen && frag.dataLen > 0
      requires -0x8000 <= frag.schema.fid <= MAX16 && frag.schema.tid == k.tid
      modifies this, buffers.Values
      ensures Valid() && objects == old(objects)[k := Fed(Get(old(objects), k), InOf(frag))]
          && InOf(frag) == old(InOf(frag))
      ensures miss == R.Wanted(objects[k].got)
      ensures verdict == if Accepts(objects[k], InOf(frag)) then Taken else OtherTypes
      ensures forall b :: b in buffers.Values ==> b in old(buffers.Values) || fresh(b)
      ensures parts == old(parts) + {frag, frag.b}
    {
      hide R.Push, R.Wanted, Buffer.Collects, Collecting, Kept, Fed, InOf;
      ghost var o, f := Get(objects, k), InOf(frag);
      InOfIs(frag);
      FedKeeps(o, f);
      KnownTid(k);
      var b := BufferFor(k);
      miss, verdict := Feed(b, frag, o);
      assert InOf(frag) == f;
      forall j | j in buffers && j != k ensures Kept(j, buffers[j], objects[j], parts + {frag, frag.b}) {
        assert Kept(j, buffers[j], objects[j], parts);
        KeptMore(j, buffers[j], objects[j], parts, frag);
      }
      KeptNew(k, b, Fed(o, f), parts, frag);
      Shelve(k, b, Fed(o, f), frag);
    }

    /** File a buffer that has been fed. */
    method Shelve(k: Key, b: Buffer, ghost o: Object, ghost frag: Fragment)
      requires this !in parts && buffers.Keys == objects.Keys && Kept(k, b, o, parts + {frag, frag.b})
      requires forall j :: j in buffers && j != k ==>
        buffers[j] != b
        && Kept(j, buffers[j], objects[j], parts + {frag, frag.b})
      requires forall i, j :: i in buffers && j in buffers && i != j ==> buffers[i] != buffers[j]
      modifies this
      ensures Valid() && objects == old(objects)[k := o] && buffers == old(buffers)[k := b]
      ensures parts == old(parts) + {frag, frag.b}
    {
      hide Collecting, Kept;
      parts := parts + {frag, frag.b};
      buffers := buffers[k := b];
      objects := objects[k := o];
    }

    lemma KnownTid(k: Key)
      requires Valid()
      ensures k in objects ==> objects[k].tid == k.tid
    {
    }

    /** Route a fragment to its object, and say whether that is complete now. */
    method Push(frag: Fragment) returns (outcome: Outcome)
      requires Valid() && frag.Valid() && frag.dataLen >= frag.headsLen + frag.payloadLen && frag.dataLen > 0
      requires -0x8000 <= frag.schema.fid <= MAX16
      modifies this, buffers.Values
      ensures Valid() && objects == Step(registry, old(objects), Put(InOf(frag)))
      ensures parts == old(parts) + {frag, frag.b}
      ensures InOf(frag) == old(InOf(frag)) && forall b :: b in buffers.Values ==> b in old(buffers.Values) || fresh(b)
      ensures var s := frag.schema;
        var k := if s.types in registry then Known(registry[s.types].family, registry[s.types].version, s.tid)
                 else Unknown(s.types, s.tid);
        var f := InOf(frag);
        k in objects && objects == old(objects)[k := Fed(Get(old(objects), k), f)] && outcome ==
          if s.types !in registry then Unmatched
          else if !Accepts(objects[k], f) then Unmatched
          else if R.Wanted(objects[k].got) == 0 then Complete
          else Incomplete
    {
      hide R.Wanted, Fed, Valid;
      var types := frag.schema.types;
      if types !in registry {
        var _, _ := Admit(Unknown(types, frag.schema.tid), frag);
        return Unmatched;
      }
      var at := registry[types];
      var miss, verdict := Admit(Known(at.family, at.version, frag.schema.tid), frag);
      if verdict != Taken {
        return Unmatched;
      }
      outcome := if miss != 0 then Incomplete else Complete;
    }

    /** Hand out some object of a family and version that is complete, and forget it. */
    method TakeComplete(family: bytes, version: bytes) returns (b: Buffer?, ghost tid: bytes)
      requires Valid()
      modifies this
      ensures Valid()
      ensures if b == null then
          objects == old(objects)
          && forall t :: Known(family, version, t) in objects ==>
            R.Wanted(objects[Known(family, version, t)].got) != 0
        else
          var k := Known(family, version, tid);
          && k in old(objects) && Collecting(b, old(objects)[k]) && R.Wanted(old(objects)[k].got) == 0
          && objects == Step(registry, old(objects), TakeOut(k)) && Released(b) && b in old(buffers.Values)
    {
      hide R.Wanted, Collecting, Valid;
      SameKeys();
      var left := buffers.Keys;
      b, tid := null, [];
      while left != {}
        invariant Valid() && left <= buffers.Keys && buffers == old(buffers) && objects == old(objects)
        invariant forall t :: Known(family, version, t) in buffers.Keys - left ==>
            R.Wanted(objects[Known(family, version, t)].got) != 0
        decreases |left|
      {
        var k :| k in left;
        left := left - {k};
        if k.Known? && k.family == family && k.version == version {
          var found := Ask(k);
          if found {
            tid := k.tid;
            b := Remove(k);
            return;
          }
        }
      }
    }

    lemma SameKeys()
      requires Valid()
      ensures buffers.Keys == objects.Keys
    {
    }

    /** A buffer the shelf has no part in. */
    ghost predicate Released(b: Buffer)
      reads this
    {
      b !in buffers.Values && b !in parts
    }

    method Remove(k: Key) returns (b: Buffer)
      requires Valid() && k in buffers
      modifies this
      ensures Valid() && k in old(objects) && objects == old(objects) - {k} && Collecting(b, old(objects)[k])
      ensures Released(b) && b in old(buffers.Values)
    {
      hide Collecting;
      b := buffers[k];
      assert Kept(k, b, objects[k], parts);
      buffers := buffers - {k};
      objects := objects - {k};
    }

    /** Whether the object at a key wants nothing. */
    method Ask(k: Key) returns (complete: bool)
      requires Valid() && k in buffers
      ensures complete <==> R.Wanted(objects[k].got) == 0
    {
      hide R.Wanted;
      buffers[k].CollectedNumbers();
      var miss := buffers[k].Wanted(buffers[k].got);
      complete := miss == 0;
    }
  }
}
