/**
  The fragmented buffer as a queue: any interleaving of appending, reading and peeking is
  answered as a plain string of bytes would answer it.
 */
module Queue {
  import opened Wire
  import opened Codec
  import opened Buffers

  datatype Op = Put(bs: bytes) | Get(n: nat) | GetByte | Peek

  datatype Reply = Done | Got(bs: bytes) | TooFew

  datatype Served = Served(reply: Reply, rest: bytes)

  /** What a plain queue answers, and what it holds afterwards. */
  function Serve(q: bytes, op: Op): Served {
    match op
    case Put(bs) => Served(Done, q + bs)
    case Get(n) => if n <= |q| then Served(Got(q[..n]), q[n..]) else Served(TooFew, q)
    case GetByte => if 1 <= |q| then Served(Got(q[..1]), q[1..]) else Served(TooFew, q)
    case Peek => if q != [] then Served(Got(q[..1]), q) else Served(TooFew, q)
  }

  datatype Session = Session(replies: seq<Reply>, rest: bytes)

  function ServeAll(q: bytes, ops: seq<Op>): Session
    decreases |ops|
  {
    if ops == [] then Session([], q)
    else
      var first := Serve(q, ops[0]);
      var more := ServeAll(first.rest, ops[1..]);
      Session([first.reply] + more.replies, more.rest)
  }

  /** The bytes put in, and the bytes taken out, over a session. */
  function PutIn(ops: seq<Op>): bytes {
    if ops == [] then [] else (if ops[0].Put? then ops[0].bs else []) + PutIn(ops[1..])
  }

  function TakenOut(ops: seq<Op>, replies: seq<Reply>): bytes
    requires |ops| == |replies|
  {
    if ops == [] then []
    else (if !ops[0].Peek? && replies[0].Got? then replies[0].bs else []) + TakenOut(ops[1..], replies[1..])
  }

  /** First in, first out: what was taken out and what is left is what was there and what was put in. */
  lemma {:induction false} NothingIsLostOrReordered(q: bytes, ops: seq<Op>)
    ensures var s := ServeAll(q, ops);
      |s.replies| == |ops| && TakenOut(ops, s.replies) + s.rest == q + PutIn(ops)
    decreases |ops|
  {
    hide Serve;
    if ops == [] {
      assert [] + q == q + [];
    } else {
      var first := Serve(q, ops[0]);
      NothingIsLostOrReordered(first.rest, ops[1..]);
      var s := ServeAll(q, ops);
      var more := ServeAll(first.rest, ops[1..]);
      assert s.replies[1..] == more.replies;
      var x := if ops[0].Put? then ops[0].bs else [];
      var y := if !ops[0].Peek? && first.reply.Got? then first.reply.bs else [];
      ServeKeeps(q, ops[0]);
      Regroup(q, x, y, TakenOut(ops[1..], more.replies), s.rest, first.rest, PutIn(ops[1..]));
    }
  }

  lemma ServeKeeps(q: bytes, op: Op)
    ensures var s := Serve(q, op);
      (if !op.Peek? && s.reply.Got? then s.reply.bs else []) + s.rest == q + (if op.Put? then op.bs else [])
  {
  }

  lemma Regroup(q: bytes, x: bytes, y: bytes, t: bytes, r: bytes, f: bytes, p: bytes)
    requires y + f == q + x && t + r == f + p
    ensures (y + t) + r == q + (x + p)
  {
    assert (y + t) + r == y + (t + r);
    assert y + (f + p) == (y + f) + p;
    assert (q + x) + p == q + (x + p);
  }

  /** One operation on the buffer is one on the queue of its unread bytes. */
  method Perform(buf: Buffer, op: Op) returns (reply: Reply)
    requires buf.Writable()
    modifies buf, buf.Repr
    ensures buf.Writable() && fresh(buf.Repr - old(buf.Repr))
    ensures Served(reply, buf.Unread()) == Serve(old(buf.Unread()), op) && buf.size == |buf.Unread()|
  {
    hide Buffer.Unread, Buffer.Slots, Buffer.Held, Buffer.Cursor;
    reply := Done;
    ghost var q := buf.Unread();
    match op {
      case Put(bs) =>
        buf.Append(bs);
      case Get(n) =>
        var st, out := buf.Read(n);
        reply := if st == Ok then Got(out) else TooFew;
      case GetByte =>
        var st, c := buf.ReadByte();
        assert st == Ok ==> [c] == q[..1];
        reply := if st == Ok then Got([c]) else TooFew;
      case Peek =>
        var ok, c := buf.PeekByte();
        assert ok ==> [c] == q[..1];
        reply := if ok then Got([c]) else TooFew;
    }
    buf.SizeIsUnread();
  }

  /** So is any sequence of operations. */
  method PerformAll(buf: Buffer, ops: seq<Op>) returns (replies: seq<Reply>)
    requires buf.Writable()
    modifies buf, buf.Repr
    ensures buf.Writable() && fresh(buf.Repr - old(buf.Repr))
    ensures Session(replies, buf.Unread()) == ServeAll(old(buf.Unread()), ops)
  {
    hide Buffer.Writable, Buffer.Unread, Serve;
    replies := [];
    ghost var q := buf.Unread();
    assert ops[0..] == ops;
    for i := 0 to |ops|
      invariant buf.Writable() && fresh(buf.Repr - old(buf.Repr))
      invariant var s := ServeAll(buf.Unread(), ops[i..]);
        ServeAll(q, ops) == Session(replies + s.replies, s.rest)
    {
      assert ops[i..][1..] == ops[i + 1..];
      ghost var s := ServeAll(buf.Unread(), ops[i..]);
      var reply := Perform(buf, ops[i]);
      ghost var more := ServeAll(buf.Unread(), ops[i + 1..]);
      assert replies + ([reply] + more.replies) == (replies + [reply]) + more.replies;
      replies := replies + [reply];
    }
    assert replies + [] == replies;
  }
}
